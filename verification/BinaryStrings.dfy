/**
 bindings/python/rad_util.py: `binary_range` (a ripple-carry counter over arrays), `int2bin` (by a table
 of hexadecimal digits), `bin2int` and `gray_encode`.
 */
module BinaryStrings {
  import opened Basics

  function Pow2(n: nat): (p: nat)
    ensures p >= 1
  {
    if n == 0 then 1 else 2 * Pow2(n - 1)
  }

  function BitChar(b: nat): char {
    if b == 0 then '0' else '1'
  }

  /** The n low bits of k, most significant first. */
  ghost function Bin(k: nat, n: nat): (s: string)
    ensures |s| == n
  {
    if n == 0 then "" else Bin(k / 2, n - 1) + [BitChar(k % 2)]
  }

  /** The k-th bit from the right. */
  ghost function Bit(i: nat, k: nat): nat {
    if k == 0 then i % 2 else Bit(i / 2, k - 1)
  }

  /** The character k places from the right stands for the k-th bit. */
  lemma {:induction false} BinPlace(i: nat, n: nat, k: nat)
    requires k < n
    ensures Bin(i, n)[n-1-k] == if Bit(i, k) == 1 then '1' else '0'
    ensures Bit(i, k) < 2
  {
    if k > 0 {
      BinPlace(i / 2, n - 1, k - 1);
    }
  }

  // ---------- binary_range

  predicate Binary(s: string) {
    forall i :: 0 <= i < |s| ==> s[i] == '0' || s[i] == '1'
  }

  function BitOf(c: char): nat {
    if c == '1' then 1 else 0
  }

  /** The number whose bits are v, least significant first. */
  ghost function Val(v: string): nat {
    if v == "" then 0 else BitOf(v[0]) + 2 * Val(v[1..])
  }

  function Reversed(v: string): string {
    if v == "" then "" else Reversed(v[1..]) + [v[0]]
  }

  lemma {:induction false} ValBound(v: string)
    ensures Val(v) < Pow2(|v|)
  {
    if v != "" {
      ValBound(v[1..]);
    }
  }

  lemma {:induction false} ValUpdate(v: string, i: nat, c: char)
    requires i < |v|
    ensures Val(v[i := c]) == Val(v) + Pow2(i) * BitOf(c) - Pow2(i) * BitOf(v[i])
  {
    if i == 0 {
      assert v[0 := c][1..] == v[1..];
    } else {
      assert v[i := c][1..] == v[1..][i-1 := c];
      ValUpdate(v[1..], i - 1, c);
    }
  }

  lemma {:induction false} ReversedIsBin(v: string)
    requires Binary(v)
    ensures Reversed(v) == Bin(Val(v), |v|)
  {
    if v != "" {
      ReversedIsBin(v[1..]);
    }
  }

  lemma {:induction false} AllZeros(v: string)
    requires forall i :: 0 <= i < |v| ==> v[i] == '0'
    ensures Val(v) == 0
  {
    if v != "" {
      AllZeros(v[1..]);
    }
  }

  lemma CarryStops(v: string, i: nat)
    requires i < |v| && v[i] == '0'
    ensures Val(v[i := '1']) == Val(v) + Pow2(i)
  {
    ValUpdate(v, i, '1');
  }

  lemma CarryGoesOn(v: string, i: nat)
    requires i < |v| && v[i] == '1'
    ensures Val(v[i := '0']) + Pow2(i + 1) == Val(v) + Pow2(i)
  {
    ValUpdate(v, i, '0');
  }

  /** One round of the ripple: add one to v; the result is the carry out of the last place, toggle[bits]. */
  method Increment(v: array<char>) returns (carry: nat)
    requires Binary(v[..])
    modifies v
    ensures Binary(v[..]) && carry <= 1
    ensures Val(v[..]) + Pow2(v.Length) * carry == old(Val(v[..])) + 1
  {
    var bits := v.Length;
    var toggle := new nat[bits + 1];
    for k := 0 to bits + 1
      invariant v[..] == old(v[..])
      invariant forall j :: 0 <= j < k ==> toggle[j] == if j == 0 then 1 else 0
    {
      toggle[k] := if k == 0 then 1 else 0;
    }
    var i := 0;
    while i < bits && toggle[i] == 1
      invariant 0 <= i <= bits && Binary(v[..])
      invariant toggle[i] <= 1 && forall j :: i < j <= bits ==> toggle[j] == 0
      invariant Val(v[..]) + (if toggle[i] == 1 then Pow2(i) else 0) == old(Val(v[..])) + 1
    {
      ghost var before := v[..];
      if v[i] == '0' {
        CarryStops(before, i);
        v[i] := '1';
        assert v[..] == before[i := '1'];
        toggle[i+1] := 0;
      } else {
        CarryGoesOn(before, i);
        v[i] := '0';
        assert v[..] == before[i := '0'];
        toggle[i+1] := 1;
      }
      i := i + 1;
    }
    carry := toggle[bits];
  }

  /** All binary numbers of the given width, in order; no numbers at all for width 0. */
  method BinaryRange(bits: nat) returns (l: seq<string>)
    ensures |l| == if bits == 0 then 0 else Pow2(bits)
    ensures forall k :: 0 <= k < |l| ==> l[k] == Bin(k, bits) && Int2Bin(k, bits) == Ok(l[k])
  {
    l := [];
    var v := new char[bits](_ => '0');
    AllZeros(v[..]);
    var carry := if bits == 0 then 1 else 0;   // toggle[bits] of [1] + [0] * bits
    while carry != 1
      invariant Binary(v[..]) && carry <= 1 && v.Length == bits
      invariant bits == 0 ==> carry == 1 && l == []
      invariant bits > 0 ==> Val(v[..]) + Pow2(bits) * carry == |l|
      invariant bits > 0 ==> |l| <= Pow2(bits)
      invariant forall k :: 0 <= k < |l| ==> l[k] == Bin(k, bits)
      decreases Pow2(bits) - |l|, 1 - carry
    {
      ReversedIsBin(v[..]);
      ValBound(v[..]);
      l := l + [Reversed(v[..])];
      carry := Increment(v);
      ValBound(v[..]);
    }
    if bits > 0 {
      ValBound(v[..]);
    }
    forall k | 0 <= k < |l| ensures Int2Bin(k, bits) == Ok(l[k]) {
      Int2BinIs(k, bits);
    }
  }

  // ---------- int2bin and bin2int

  datatype Outcome = Ok(text: string) | ValueError | KeyError

  /** The hexadecimal digits of a number, highest first. */
  function HexDigits(i: nat): (ds: seq<nat>)
    ensures ds != [] && forall k :: 0 <= k < |ds| ==> ds[k] < 16
  {
    if i < 16 then [i] else HexDigits(i / 16) + [i % 16]
  }

  const HEX2BIN := ["0000", "0001", "0010", "0011", "0100", "0101", "0110", "0111",
                    "1000", "1001", "1010", "1011", "1100", "1101", "1110", "1111"]

  function Expand(ds: seq<nat>): string
    requires forall k :: 0 <= k < |ds| ==> ds[k] < 16
  {
    if ds == [] then "" else Expand(ds[..|ds|-1]) + HEX2BIN[ds[|ds|-1]]
  }

  function Zeros(n: nat): string {
    if n == 0 then "" else "0" + Zeros(n - 1)
  }

  /** int2bin. A negative number leaves an 'x' behind its sign, which the table lacks; for n == 0 Python's
      slices [:-n] and [-n:] are empty and everything. */
  function Int2Bin(i: int, n: nat): Outcome {
    if i < 0 then KeyError else ToWidth(Expand(HexDigits(i)), n)
  }

  /** Shrink the result to n places, raising if that loses a one; then pad it with zeros. */
  function ToWidth(result: string, n: nat): Outcome {
    var cut := if n == 0 || |result| <= n then 0 else |result| - n;
    if '1' in result[..cut] then ValueError
    else
      var low := result[cut..];
      Ok(Zeros(if |low| < n then n - |low| else 0) + low)
  }

  /** The number that a string of zeros and ones stands for. */
  function Number(s: string): nat {
    if s == "" then 0 else 2 * Number(s[..|s|-1]) + BitOf(s[|s|-1])
  }

  /** bin2int; no digits at all raise. */
  function Bin2Int(s: string): Option<nat>
    requires Binary(s)
  {
    if s == "" then None else Some(Number(s))
  }

  lemma BinMore(a: nat, b: nat, w: nat)
    requires b < 2
    ensures Bin(2 * a + b, w + 1) == Bin(a, w) + [BitChar(b)]
  {
    assert (2 * a + b) / 2 == a && (2 * a + b) % 2 == b;
  }

  lemma FourBits(a: nat, b3: nat, b2: nat, b1: nat, b0: nat, w: nat)
    requires b3 < 2 && b2 < 2 && b1 < 2 && b0 < 2
    ensures Bin(16 * a + 8 * b3 + 4 * b2 + 2 * b1 + b0, w + 4)
         == Bin(a, w) + [BitChar(b3), BitChar(b2), BitChar(b1), BitChar(b0)]
  {
    BinMore(a, b3, w);
    var a3 := 2 * a + b3;
    BinMore(a3, b2, w + 1);
    var a2 := 2 * a3 + b2;
    BinMore(a2, b1, w + 2);
    var a1 := 2 * a2 + b1;
    BinMore(a1, b0, w + 3);
    assert 2 * a1 + b0 == 16 * a + 8 * b3 + 4 * b2 + 2 * b1 + b0;
  }

  lemma HexTable(d: nat)
    requires d < 16
    ensures HEX2BIN[d] == [BitChar(d / 8), BitChar(d / 4 % 2), BitChar(d / 2 % 2), BitChar(d % 2)]
  {
  }

  lemma NibbleBin(a: nat, d: nat, w: nat)
    requires d < 16
    ensures Bin(16 * a + d, w + 4) == Bin(a, w) + HEX2BIN[d]
  {
    var b3, b2, b1, b0 := d / 8, d / 4 % 2, d / 2 % 2, d % 2;
    assert d == 8 * b3 + 4 * b2 + 2 * b1 + b0;
    FourBits(a, b3, b2, b1, b0, w);
    HexTable(d);
  }

  lemma Pow2Nibble(w: nat)
    ensures Pow2(w + 4) == 16 * Pow2(w)
  {
    assert Pow2(w + 4) == 2 * Pow2(w + 3);
    assert Pow2(w + 3) == 2 * Pow2(w + 2);
    assert Pow2(w + 2) == 2 * Pow2(w + 1);
  }

  lemma {:induction false} ExpandIsBin(i: nat)
    ensures Expand(HexDigits(i)) == Bin(i, 4 * |HexDigits(i)|) && i < Pow2(4 * |HexDigits(i)|)
  {
    if i < 16 {
      NibbleBin(0, i, 0);
      Pow2Nibble(0);
      assert [i][..0] == [];
      assert Expand([i]) == "" + HEX2BIN[i];
    } else {
      ExpandIsBin(i / 16);
      ExpandMore(i / 16, i % 16, HexDigits(i / 16));
    }
  }

  lemma ExpandMore(a: nat, d: nat, ds: seq<nat>)
    requires d < 16 && forall k :: 0 <= k < |ds| ==> ds[k] < 16
    requires Expand(ds) == Bin(a, 4 * |ds|) && a < Pow2(4 * |ds|)
    ensures Expand(ds + [d]) == Bin(16 * a + d, 4 * |ds + [d]|) && 16 * a + d < Pow2(4 * |ds + [d]|)
  {
    NibbleBin(a, d, 4 * |ds|);
    Pow2Nibble(4 * |ds|);
    ExpandAppend(ds, d);
  }

  lemma ExpandAppend(ds: seq<nat>, d: nat)
    requires d < 16 && forall k :: 0 <= k < |ds| ==> ds[k] < 16
    ensures Expand(ds + [d]) == Expand(ds) + HEX2BIN[d]
  {
    assert (ds + [d])[..|ds|] == ds;
  }

  function Shift(k: nat, n: nat): nat {
    if n == 0 then k else Shift(k / 2, n - 1)
  }

  lemma {:induction false} BinSplit(k: nat, m: nat, n: nat)
    ensures Bin(k, m + n) == Bin(Shift(k, n), m) + Bin(k, n)
  {
    if n > 0 {
      BinSplit(k / 2, m, n - 1);
    }
  }

  lemma {:induction false} ShiftBound(k: nat, m: nat, n: nat)
    ensures k < Pow2(m + n) ==> Shift(k, n) < Pow2(m)
    ensures Shift(k, n) == 0 <==> k < Pow2(n)
  {
    if n > 0 {
      ShiftBound(k / 2, m, n - 1);
    }
  }

  lemma {:induction false} HasOne(k: nat, n: nat)
    requires k < Pow2(n)
    ensures '1' in Bin(k, n) <==> k != 0
  {
    if n > 0 {
      HasOne(k / 2, n - 1);
    }
  }

  lemma ZeroExtend(k: nat, n: nat, m: nat, w: nat)
    requires k < Pow2(n) && w == m + n
    ensures Bin(k, w) == Zeros(m) + Bin(k, n)
  {
    BinSplit(k, m, n);
    ShiftBound(k, m, n);
    BinOfZero(m);
  }

  lemma {:induction false} BinOfZero(m: nat)
    ensures Bin(0, m) == Zeros(m)
  {
    if m > 0 {
      BinOfZero(m - 1);
      ZerosEnd(m);
    }
  }

  lemma {:induction false} ZerosEnd(m: nat)
    requires m > 0
    ensures Zeros(m) == Zeros(m - 1) + "0"
  {
    if m > 1 {
      ZerosEnd(m - 1);
    }
  }

  /** For n >= 1, int2bin gives the n-bit representation exactly when there is one, and else raises. */
  lemma Int2BinIs(i: nat, n: nat)
    requires n >= 1
    ensures Int2Bin(i, n) == if i < Pow2(n) then Ok(Bin(i, n)) else ValueError
  {
    ExpandIsBin(i);
    FitsWidth(i, 4 * |HexDigits(i)|, n);
  }

  lemma {:induction false} HexDigitsFewest(i: nat)
    ensures |HexDigits(i)| > 1 ==> i >= Pow2(4 * (|HexDigits(i)| - 1))
  {
    if i >= 16 {
      HexDigitsFewest(i / 16);
      var k := |HexDigits(i / 16)|;
      if k > 1 {
        Pow2Nibble(4 * (k - 1));
      } else {
        Pow2Nibble(0);
      }
    }
  }

  /** For width 0 the result is as many hexadecimal digits as the number has, four places each; a negative number
      raises. */
  lemma Int2BinOtherwise(i: int, n: nat)
    ensures i < 0 ==> Int2Bin(i, n) == KeyError
    ensures i >= 0 ==> exists k: nat :: k >= 1 && Int2Bin(i, 0) == Ok(Bin(i, 4 * k)) && i < Pow2(4 * k)
                                        && (k > 1 ==> i >= Pow2(4 * (k - 1)))
  {
    if i >= 0 {
      ExpandIsBin(i);
      HexDigitsFewest(i);
      var result := Expand(HexDigits(i));
      assert result[0..] == result && Zeros(0) == "" && "" + result == result;
      assert Int2Bin(i, 0) == Ok(Bin(i, 4 * |HexDigits(i)|));
    }
  }

  lemma FitsWidth(i: nat, w: nat, n: nat)
    requires n >= 1 && i < Pow2(w)
    ensures ToWidth(Bin(i, w), n) == if i < Pow2(n) then Ok(Bin(i, n)) else ValueError
  {
    if w <= n {
      Padded(i, w, n);
    } else {
      CutOff(i, w, n);
      assert Zeros(0) + Bin(i, n) == Bin(i, n);
    }
  }

  lemma ToWidthPads(s: string, n: nat, padded: string)
    requires 1 <= n && |s| <= n && padded == Zeros(n - |s|) + s
    ensures ToWidth(s, n) == Ok(padded)
  {
    assert s[0..] == s;
  }

  lemma Padded(i: nat, w: nat, n: nat)
    requires 1 <= n && w <= n && i < Pow2(w)
    ensures i < Pow2(n) && ToWidth(Bin(i, w), n) == Ok(Bin(i, n))
  {
    PowMonotone(w, n);
    ZeroExtend(i, w, n - w, n);
    ToWidthPads(Bin(i, w), n, Bin(i, n));
  }

  /** Cutting the top off a long enough representation loses a one exactly when the number is too large. */
  lemma CutOff(i: nat, w: nat, n: nat)
    requires n <= w && i < Pow2(w)
    ensures Bin(i, w)[w-n..] == Bin(i, n)
    ensures '1' in Bin(i, w)[..w-n] <==> i >= Pow2(n)
  {
    var m := w - n;
    BinSplit(i, m, n);
    ShiftBound(i, m, n);
    HasOne(Shift(i, n), m);
    assert Bin(i, w)[..m] == Bin(Shift(i, n), m);
  }

  lemma {:induction false} PowMonotone(m: nat, n: nat)
    requires m <= n
    ensures Pow2(m) <= Pow2(n)
    decreases n
  {
    if m < n {
      PowMonotone(m, n - 1);
    }
  }

  lemma {:induction false} NumberOfBin(i: nat, n: nat)
    requires i < Pow2(n)
    ensures Binary(Bin(i, n)) && Number(Bin(i, n)) == i
  {
    if n > 0 {
      NumberOfBin(i / 2, n - 1);
    }
  }

  lemma {:induction false} BinOfNumber(s: string)
    requires Binary(s)
    ensures Number(s) < Pow2(|s|) && Bin(Number(s), |s|) == s
  {
    if s != "" {
      var n := |s| - 1;
      BinOfNumber(s[..n]);
      BinMore(Number(s[..n]), BitOf(s[n]), n);
      assert s == s[..n] + [s[n]];
    }
  }

  /** bin2int gives back every number that int2bin can write. */
  lemma Bin2IntInverts(i: nat, n: nat)
    requires n >= 1
    ensures Int2Bin(i, n).Ok? <==> i < Pow2(n)
    ensures i < Pow2(n) ==> Binary(Int2Bin(i, n).text) && Bin2Int(Int2Bin(i, n).text) == Some(i)
  {
    Int2BinIs(i, n);
    if i < Pow2(n) {
      NumberOfBin(i, n);
    }
  }

  /** And int2bin, at the same width, gives back every string that bin2int can read. */
  lemma Int2BinInverts(s: string)
    requires Binary(s) && s != ""
    ensures Bin2Int(s).Some? && Int2Bin(Bin2Int(s).value, |s|) == Ok(s)
  {
    BinOfNumber(s);
    Int2BinIs(Number(s), |s|);
  }

  // ---------- Gray code

  function Xor(a: nat, b: nat): nat {
    if a == 0 && b == 0 then 0 else One(a % 2 != b % 2) + 2 * Xor(a / 2, b / 2)
  }

  /** Every bit of a number, combined with the next higher one by exclusive or. */
  function GrayEncode(i: nat): nat {
    Xor(i, i / 2)
  }

  lemma GrayStep(i: nat)
    ensures GrayEncode(i) == One(i % 2 != i / 2 % 2) + 2 * GrayEncode(i / 2)
  {
  }

  /** Each bit of the code tells whether two neighbouring bits of the number differ. */
  lemma {:induction false} GrayBit(i: nat, k: nat)
    ensures Bit(GrayEncode(i), k) == One(Bit(i, k) != Bit(i, k + 1))
  {
    GrayStep(i);
    if k > 0 {
      GrayBit(i / 2, k - 1);
      Halves(GrayEncode(i), GrayEncode(i / 2), One(i % 2 != i / 2 % 2));
    }
  }

  ghost function GrayDecode(g: nat): nat {
    if g == 0 then 0
    else
      var h := GrayDecode(g / 2);
      2 * h + One(g % 2 != h % 2)
  }

  lemma {:induction false} GrayDecodes(i: nat)
    ensures GrayDecode(GrayEncode(i)) == i
  {
    if i > 0 {
      var g, h := GrayEncode(i), GrayEncode(i / 2);
      GrayOf(i, i / 2, i % 2);
      Halves(g, h, One(i % 2 != i / 2 % 2));
      GrayDecodes(i / 2);
    }
  }

  lemma Halves(i: nat, j: nat, b: nat)
    requires i == 2 * j + b && b < 2
    ensures i / 2 == j && i % 2 == b
  {
  }

  /** The code of a number from that of its half. */
  lemma GrayOf(i: nat, j: nat, b: nat)
    requires i == 2 * j + b && b < 2
    ensures GrayEncode(i) == 2 * GrayEncode(j) + One(b != j % 2)
  {
    Halves(i, j, b);
    GrayStep(i);
  }

  lemma {:induction false} GrayEncodes(g: nat)
    ensures GrayEncode(GrayDecode(g)) == g
  {
    if g > 0 {
      var h := GrayDecode(g / 2);
      var bit := One(g % 2 != h % 2);
      GrayEncodes(g / 2);
      GrayOf(GrayDecode(g), h, bit);
      assert One(bit != h % 2) == g % 2;
    }
  }

  lemma {:induction false} GrayRange(i: nat, n: nat)
    ensures i < Pow2(n) <==> GrayEncode(i) < Pow2(n)
  {
    if n > 0 {
      GrayStep(i);
      GrayRange(i / 2, n - 1);
    } else if i > 0 {
      GrayDecodes(i);
    }
  }

  /** In how many places two strings of equal length differ. */
  ghost function Differences(a: string, b: string): nat
    requires |a| == |b|
  {
    if a == "" then 0
    else Differences(a[..|a|-1], b[..|b|-1]) + One(a[|a|-1] != b[|b|-1])
  }

  lemma {:induction false} NoDifference(a: string)
    ensures Differences(a, a) == 0
  {
    if a != "" {
      NoDifference(a[..|a|-1]);
    }
  }

  lemma BinOf(i: nat, j: nat, b: nat, n: nat)
    requires n > 0 && i == 2 * j + b && b < 2
    ensures Bin(i, n) == Bin(j, n - 1) + [BitChar(b)]
  {
    Halves(i, j, b);
  }

  lemma DifferencesMore(s: string, t: string, a: string, b: string, c: char, d: char)
    requires s == a + [c] && t == b + [d] && |a| == |b|
    ensures Differences(s, t) == Differences(a, b) + One(c != d)
  {
    assert s[..|a|] == a && t[..|b|] == b;
  }

  lemma LastBitDiffers(a: nat, b: nat, c: nat, d: nat, e: nat, n: nat)
    requires n > 0 && a == 2 * c + d && b == 2 * c + e && d < 2 && e < 2 && d != e
    ensures Differences(Bin(a, n), Bin(b, n)) == 1
  {
    var front := Bin(c, n - 1);
    BinOf(a, c, d, n);
    BinOf(b, c, e, n);
    NoDifference(front);
    DifferencesMore(Bin(a, n), Bin(b, n), front, front, BitChar(d), BitChar(e));
  }

  lemma SameLastBit(a: nat, b: nat, c: nat, d: nat, e: nat, n: nat)
    requires n > 0 && a == 2 * c + e && b == 2 * d + e && e < 2
    ensures Differences(Bin(a, n), Bin(b, n)) == Differences(Bin(c, n - 1), Bin(d, n - 1))
  {
    BinOf(a, c, e, n);
    BinOf(b, d, e, n);
    DifferencesMore(Bin(a, n), Bin(b, n), Bin(c, n - 1), Bin(d, n - 1), BitChar(e), BitChar(e));
  }

  /** The codes of an even number and its successor share their half. */
  lemma GrayAfterEven(i: nat, j: nat, n: nat)
    requires i == 2 * j && n > 0
    ensures Differences(Bin(GrayEncode(i), n), Bin(GrayEncode(i + 1), n)) == 1
  {
    GrayOf(i, j, 0);
    GrayOf(i + 1, j, 1);
    LastBitDiffers(GrayEncode(i), GrayEncode(i + 1), GrayEncode(j), One(0 != j % 2), One(1 != j % 2), n);
  }

  lemma ParityFlips(j: nat)
    ensures One(0 != (j + 1) % 2) == One(1 != j % 2)
  {
  }

  /** Those of an odd number and its successor end alike. */
  lemma GrayAfterOdd(i: nat, j: nat, n: nat)
    requires i == 2 * j + 1 && n > 0
    ensures Differences(Bin(GrayEncode(i), n), Bin(GrayEncode(i + 1), n))
         == Differences(Bin(GrayEncode(j), n - 1), Bin(GrayEncode(j + 1), n - 1))
  {
    GrayOf(i, j, 1);
    GrayOf(i + 1, j + 1, 0);
    ParityFlips(j);
    SameLastBit(GrayEncode(i), GrayEncode(i + 1), GrayEncode(j), GrayEncode(j + 1), One(1 != j % 2), n);
  }

  /** The n-bit strings of neighbouring Gray codes differ in exactly one place. */
  lemma {:induction false} GrayNeighbours(i: nat, n: nat)
    requires i + 1 < Pow2(n)
    ensures Differences(Bin(GrayEncode(i), n), Bin(GrayEncode(i + 1), n)) == 1
    decreases n
  {
    var j := i / 2;
    if i % 2 == 0 {
      GrayAfterEven(i, j, n);
    } else {
      GrayNeighbours(j, n - 1);
      GrayAfterOdd(i, j, n);
    }
  }
}
