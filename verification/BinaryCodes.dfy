/** Binary strings and Gray code: int2bin, bin2int, binary_range, gray_encode and lsb in bindings/python/rad_util.py. */
module BinaryCodes {

  datatype Result<+T> = Ok(value: T) | Err

  function Pow2(n: nat): nat {
    if n == 0 then 1 else 2 * Pow2(n - 1)
  }

  lemma {:induction false} Pow2Sum(a: nat, b: nat)
    ensures Pow2(a + b) == Pow2(a) * Pow2(b) && Pow2(a) > 0
  {
    if a > 0 {
      Pow2Sum(a - 1, b);
    }
  }

  // ---- strings of binary digits ----

  predicate IsBinary(s: string) {
    forall i :: 0 <= i < |s| ==> s[i] == '0' || s[i] == '1'
  }

  function Bit(c: char): nat {
    if c == '1' then 1 else 0
  }

  /** bin2int on a string of binary digits, most significant first. */
  function Bin2Int(s: string): nat
    requires IsBinary(s)
  {
    if s == [] then 0 else 2 * Bin2Int(s[..|s| - 1]) + Bit(s[|s| - 1])
  }

  lemma {:induction false} Bin2IntConcat(a: string, b: string)
    requires IsBinary(a) && IsBinary(b)
    ensures IsBinary(a + b) && Bin2Int(a + b) == Bin2Int(a) * Pow2(|b|) + Bin2Int(b)
  {
    hide Bin2Int;
    if b == [] {
      NoBits();
      assert a + b == a;
    } else {
      var n := |b| - 1;
      Bin2IntConcat(a, b[..n]);
      assert (a + b)[..|a + b| - 1] == a + b[..n];
      LastBit(a + b);
      LastBit(b);
    }
  }

  lemma NoBits()
    ensures Bin2Int([]) == 0
  {
  }

  lemma LastBit(s: string)
    requires IsBinary(s) && s != []
    ensures Bin2Int(s) == 2 * Bin2Int(s[..|s| - 1]) + Bit(s[|s| - 1])
  {
  }

  lemma {:induction false} Bin2IntBound(s: string)
    requires IsBinary(s)
    ensures Bin2Int(s) < Pow2(|s|)
    ensures Bin2Int(s) == 0 <==> '1' !in s
  {
    if s != [] {
      var n := |s| - 1;
      Bin2IntBound(s[..n]);
      assert s == s[..n] + [s[n]];
    }
  }

  lemma {:induction false} Bin2IntInjective(s: string, t: string)
    requires IsBinary(s) && IsBinary(t) && |s| == |t| && Bin2Int(s) == Bin2Int(t)
    ensures s == t
  {
    if s != [] {
      var n := |s| - 1;
      Bin2IntInjective(s[..n], t[..n]);
      assert s == s[..n] + [s[n]] && t == t[..n] + [t[n]];
    }
  }

  // ---- int2bin ----

  /** The hexadecimal digits of i, as hex() writes them. */
  function HexDigits(i: nat): (d: seq<nat>)
    ensures forall k :: 0 <= k < |d| ==> d[k] < 16
  {
    if i < 16 then [i] else HexDigits(i / 16) + [i % 16]
  }

  function BitChar(b: bool): char {
    if b then '1' else '0'
  }

  /** The entry of the hex2bin table. */
  function Nibble(d: nat): string
    requires d < 16
  {
    [BitChar(d / 8 == 1), BitChar(d / 4 % 2 == 1), BitChar(d / 2 % 2 == 1), BitChar(d % 2 == 1)]
  }

  function Expand(digits: seq<nat>): string
    requires forall k :: 0 <= k < |digits| ==> digits[k] < 16
  {
    if digits == [] then "" else Expand(digits[..|digits| - 1]) + Nibble(digits[|digits| - 1])
  }

  function Zeros(n: nat): string {
    seq(n, _ => '0')
  }

  /** Follows the source, with Python's reading of [:-n] and [-n:]: for n = 0 nothing is cut off or checked.
      A negative i is not in the form the table expects, and fails. */
  function Int2Bin(i: int, n: nat): Result<string> {
    if i < 0 then Err
    else
      var result := Expand(HexDigits(i));
      var cut := if n == 0 || n >= |result| then 0 else |result| - n;
      if '1' in result[..cut] then Err
      else
        var kept := result[cut..];
        Ok(Zeros(if n > |kept| then n - |kept| else 0) + kept)
  }

  lemma NibbleValue(d: nat)
    requires d < 16
    ensures IsBinary(Nibble(d)) && Bin2Int(Nibble(d)) == d
  {
    var s := Nibble(d);
    assert s[..3][..2][..1][..0] == [];
    assert Bin2Int(s[..3][..2][..1]) == Bit(s[0]);
    assert Bin2Int(s[..3][..2]) == 2 * Bit(s[0]) + Bit(s[1]);
    assert Bin2Int(s[..3]) == 4 * Bit(s[0]) + 2 * Bit(s[1]) + Bit(s[2]);
  }

  lemma NibbleWidth(d: nat)
    requires d < 16
    ensures |Nibble(d)| == 4 && Pow2(|Nibble(d)|) == 16
  {
    assert Pow2(2) == 4;
  }

  lemma {:induction false} ExpandValue(i: nat)
    ensures IsBinary(Expand(HexDigits(i))) && Bin2Int(Expand(HexDigits(i))) == i
  {
    hide Bin2Int, Nibble, Pow2;
    var d := HexDigits(i);
    var n := |d| - 1;
    NibbleValue(d[n]);
    if i < 16 {
      assert d[..0] == [];
      assert "" + Nibble(d[n]) == Nibble(d[n]);
    } else {
      ExpandValue(i / 16);
      assert d[..n] == HexDigits(i / 16) && d[n] == i % 16;
      Bin2IntConcat(Expand(d[..n]), Nibble(d[n]));
      NibbleWidth(d[n]);
    }
  }

  lemma ZerosValue(n: nat, s: string)
    requires IsBinary(s)
    ensures IsBinary(Zeros(n) + s) && Bin2Int(Zeros(n) + s) == Bin2Int(s)
  {
    Bin2IntBound(Zeros(n));
    Bin2IntConcat(Zeros(n), s);
  }

  lemma CutValue(s: string, cut: nat)
    requires IsBinary(s) && cut <= |s|
    ensures Bin2Int(s) == Bin2Int(s[..cut]) * Pow2(|s| - cut) + Bin2Int(s[cut..])
    ensures Bin2Int(s[cut..]) < Pow2(|s| - cut)
    ensures '1' in s[..cut] <==> Bin2Int(s[..cut]) >= 1
  {
    assert s == s[..cut] + s[cut..];
    Bin2IntConcat(s[..cut], s[cut..]);
    Bin2IntBound(s[..cut]);
    Bin2IntBound(s[cut..]);
  }

  lemma AtLeastOnce(a: nat, p: nat)
    requires a >= 1
    ensures a * p >= p
  {
  }

  lemma {:induction false} Pow2Mono(a: nat, b: nat)
    requires a <= b
    ensures Pow2(a) <= Pow2(b)
  {
    if a < b {
      Pow2Mono(a, b - 1);
    }
  }

  /** For n >= 1 and i >= 0: n digits whose value is i when i < 2^n, and an error otherwise. */
  lemma Int2BinIff(i: nat, n: nat)
    requires n >= 1
    ensures Int2Bin(i, n).Ok? <==> i < Pow2(n)
    ensures Int2Bin(i, n).Ok? ==>
      |Int2Bin(i, n).value| == n && IsBinary(Int2Bin(i, n).value) && Bin2Int(Int2Bin(i, n).value) == i
  {
    hide Expand, HexDigits, Pow2, Bin2Int;
    var result := Expand(HexDigits(i));
    ExpandValue(i);
    var cut := if n >= |result| then 0 else |result| - n;
    CutValue(result, cut);
    if '1' in result[..cut] {
      AtLeastOnce(Bin2Int(result[..cut]), Pow2(n));
    } else {
      Pow2Mono(|result| - cut, n);
      assert Bin2Int(result[..cut]) == 0;
      ZerosValue(n - |result[cut..]|, result[cut..]);
    }
  }

  /** With n = 0 nothing is refused: the result is the whole hexadecimal expansion, at least four digits. */
  lemma Int2BinZeroWidth(i: nat)
    ensures Int2Bin(i, 0).Ok? && IsBinary(Int2Bin(i, 0).value)
    ensures Bin2Int(Int2Bin(i, 0).value) == i && |Int2Bin(i, 0).value| >= 4
  {
    ExpandValue(i);
    var d := HexDigits(i);
    assert Zeros(0) + Expand(d) == Expand(d);
  }

  /** The two conversions undo each other: int2bin of i at width n is the one string of n digits whose value is i. */
  lemma Int2BinInvertsBin2Int(i: nat, n: nat, s: string)
    requires n >= 1
    ensures Int2Bin(i, n) == Ok(s) <==> |s| == n && IsBinary(s) && Bin2Int(s) == i
  {
    hide Int2Bin, Bin2Int;
    Int2BinIff(i, n);
    if |s| == n && IsBinary(s) && Bin2Int(s) == i {
      Bin2IntBound(s);
      Bin2IntInjective(Int2Bin(i, n).value, s);
    }
  }

  // ---- binary_range ----

  function Reversed(s: string): (r: string)
    ensures |r| == |s| && forall i :: 0 <= i < |s| ==> r[i] == s[|s| - 1 - i]
  {
    if s == [] then [] else Reversed(s[1..]) + [s[0]]
  }

  /** The value of digits held least significant first. */
  function LowFirst(v: string): nat
    requires IsBinary(v)
  {
    if v == [] then 0 else Bit(v[0]) + 2 * LowFirst(v[1..])
  }

  lemma {:induction false} ReversedValue(v: string)
    requires IsBinary(v)
    ensures IsBinary(Reversed(v)) && Bin2Int(Reversed(v)) == LowFirst(v)
  {
    if v != [] {
      ReversedValue(v[1..]);
      var r := Reversed(v);
      assert r[..|r| - 1] == Reversed(v[1..]);
    }
  }

  /** Digits i and above as before; below, ones have become zeros. */
  predicate Carried(before: string, v: string, i: nat) {
    && i <= |v| == |before| && v[i..] == before[i..]
    && forall k :: 0 <= k < i ==> before[k] == '1' && v[k] == '0'
  }

  lemma {:induction false} CarriedValue(before: string, v: string, i: nat)
    requires IsBinary(before) && IsBinary(v) && Carried(before, v, i)
    ensures LowFirst(before) == LowFirst(v) + Pow2(i) - 1
    decreases i
  {
    if i == 0 {
      assert v[0..] == v && before[0..] == before;
    } else {
      var b, w := before[1..], v[1..];
      assert w[i - 1..] == v[i..] && b[i - 1..] == before[i..];
      CarriedValue(b, w, i - 1);
    }
  }

  lemma {:induction false} SetBit(v: string, i: nat)
    requires IsBinary(v) && i < |v| && v[i] == '0'
    ensures IsBinary(v[i := '1']) && LowFirst(v[i := '1']) == LowFirst(v) + Pow2(i)
    decreases i
  {
    if i == 0 {
      assert v[0 := '1'][1..] == v[1..];
    } else {
      assert v[i := '1'][1..] == v[1..][i - 1 := '1'];
      SetBit(v[1..], i - 1);
    }
  }

  lemma {:induction false} AllZeros(v: string)
    requires forall k :: 0 <= k < |v| ==> v[k] == '0'
    ensures IsBinary(v) && LowFirst(v) == 0
  {
    if v != [] {
      AllZeros(v[1..]);
    }
  }

  /** One ripple of the counter: `overflow` is toggle[bits] afterwards. */
  method Increment(v0: string) returns (v: string, overflow: bool)
    requires IsBinary(v0) && v0 != ""
    ensures |v| == |v0| && IsBinary(v)
    ensures if overflow then LowFirst(v) == 0 && LowFirst(v0) == Pow2(|v0|) - 1 else LowFirst(v) == LowFirst(v0) + 1
  {
    v := v0;
    var bits := |v0|;
    var toggle := [1] + seq(bits, _ => 0);
    var i := 0;
    while i < bits && toggle[i] == 1
      invariant i <= bits == |v| && |toggle| == bits + 1
      invariant forall k :: i < k <= bits ==> toggle[k] == 0
      invariant toggle[i] == 1 ==> Carried(v0, v, i)
      invariant toggle[i] != 1 ==> i >= 1 && v0[i - 1] == '0' && Carried(v0, v[i - 1 := '0'], i - 1) && v[i - 1] == '1'
      invariant IsBinary(v)
    {
      if v[i] == '0' {
        assert v[i := '1'][i := '0'] == v;
        v := v[i := '1'];
        toggle := toggle[i + 1 := 0];
      } else {
        v := v[i := '0'];
        toggle := toggle[i + 1 := 1];
      }
      i := i + 1;
    }
    overflow := toggle[bits] == 1;
    if toggle[i] == 1 {
      AllZeros(v);
      CarriedValue(v0, v, bits);
    } else {
      var w := v[i - 1 := '0'];
      CarriedValue(v0, w, i - 1);
      SetBit(w, i - 1);
      assert w[i - 1 := '1'] == v;
    }
  }

  /** All n-digit strings in order; for n = 0 the source returns an empty list, since toggle[0] is already 1. */
  method BinaryRange(bits: nat) returns (l: seq<string>)
    ensures bits == 0 ==> l == []
    ensures bits > 0 ==> |l| == Pow2(bits)
    ensures bits > 0 ==> forall k :: 0 <= k < |l| ==> Int2Bin(k, bits) == Ok(l[k])
  {
    hide Int2Bin, LowFirst, Pow2;
    l := [];
    if bits == 0 {
      return;
    }
    var v := Zeros(bits);
    AllZeros(v);
    var overflow := false;
    Pow2Sum(bits, 0);
    while !overflow
      invariant |v| == bits && IsBinary(v)
      invariant if overflow then |l| == Pow2(bits) else |l| == LowFirst(v) < Pow2(bits)
      invariant forall k :: 0 <= k < |l| ==> Int2Bin(k, bits) == Ok(l[k])
      decreases Pow2(bits) - |l|, !overflow
    {
      ReversedValue(v);
      Int2BinInvertsBin2Int(Bin2Int(Reversed(v)), bits, Reversed(v));
      l := l + [Reversed(v)];
      v, overflow := Increment(v);
      LowFirstBound(v);
    }
  }

  lemma LowFirstBound(v: string)
    requires IsBinary(v)
    ensures LowFirst(v) < Pow2(|v|)
  {
    ReversedValue(v);
    Bin2IntBound(Reversed(v));
  }

  // ---- Gray code ----

  /** The distance to 0 or -1, whichever has the same sign. */
  function Magnitude(x: int): nat {
    if x >= 0 then x else -1 - x
  }

  /** Exclusive or of two's complement integers of any size. */
  function Xor(a: int, b: int): int
    decreases Magnitude(a) + Magnitude(b)
  {
    if Magnitude(a) + Magnitude(b) == 0 then (if a == b then 0 else -1)
    else 2 * Xor(a / 2, b / 2) + (a + b) % 2
  }

  /** And of two's complement integers. */
  function And(a: int, b: int): int
    decreases Magnitude(a) + Magnitude(b)
  {
    if Magnitude(a) + Magnitude(b) == 0 then (if a == -1 && b == -1 then -1 else 0)
    else 2 * And(a / 2, b / 2) + (a % 2) * (b % 2)
  }

  /** i ^ (i >> 1) */
  function GrayEncode(i: int): int {
    Xor(i, i / 2)
  }

  function GrayDecode(g: nat): nat {
    if g == 0 then 0
    else
      var d := GrayDecode(g / 2);
      2 * d + (g + d) % 2
  }

  lemma {:induction false} XorStep(a: int, b: int)
    ensures Xor(a, b) == 2 * Xor(a / 2, b / 2) + (a + b) % 2
  {
  }

  lemma {:induction false} GrayStep(i: int)
    ensures GrayEncode(i) == 2 * GrayEncode(i / 2) + (i + i / 2) % 2
  {
    hide Xor;
    XorStep(i, i / 2);
  }

  /** Binary digit k of a two's complement integer. */
  function BitAt(x: int, k: nat): int
    decreases k
  {
    if k == 0 then x % 2 else BitAt(x / 2, k - 1)
  }

  lemma {:induction false} XorBits(a: int, b: int, k: nat)
    ensures BitAt(Xor(a, b), k) == if BitAt(a, k) == BitAt(b, k) then 0 else 1
    decreases k
  {
    hide Xor;
    XorStep(a, b);
    Parity(a, b);
    if k > 0 {
      XorBits(a / 2, b / 2, k - 1);
    }
  }

  /** Each digit of the code says whether that digit of the number differs from the next higher one. */
  lemma GrayBits(i: int, k: nat)
    ensures BitAt(GrayEncode(i), k) == if BitAt(i, k) == BitAt(i, k + 1) then 0 else 1
  {
    hide Xor;
    XorBits(i, i / 2, k);
  }

  lemma {:induction false} GrayNonNegative(i: int)
    ensures GrayEncode(i) >= 0
    decreases Magnitude(i)
  {
    if Magnitude(i) > 0 {
      GrayStep(i);
      GrayNonNegative(i / 2);
    }
  }

  lemma GrayBase()
    ensures GrayEncode(0) == 0 && GrayEncode(-1) == 0
  {
  }

  lemma Parity(a: int, b: int)
    ensures (a + b) % 2 == if a % 2 == b % 2 then 0 else 1
  {
  }

  /** i and its complement have the same code. */
  lemma {:induction false} GrayComplement(i: int)
    ensures GrayEncode(-1 - i) == GrayEncode(i)
    decreases Magnitude(i)
  {
    hide GrayEncode;
    GrayBase();
    if Magnitude(i) > 0 {
      var d, j := i / 2, -1 - i;
      GrayStep(i);
      GrayStep(j);
      assert j / 2 == -1 - d && j % 2 == 1 - i % 2 && (-1 - d) % 2 == 1 - d % 2;
      GrayComplement(d);
      Parity(i, d);
      Parity(j, -1 - d);
    }
  }

  /** Decoding inverts encoding on the natural numbers. */
  lemma {:induction false} GrayRoundTrip(i: nat)
    ensures GrayEncode(i) >= 0 && GrayDecode(GrayEncode(i)) == i
    decreases i
  {
    hide GrayEncode;
    GrayBase();
    GrayNonNegative(i);
    if i > 0 {
      var d, g := i / 2, GrayEncode(i);
      GrayStep(i);
      GrayRoundTrip(d);
      Parity(i, d);
      assert g / 2 == GrayEncode(d) && g % 2 == (i + d) % 2;
      Parity(g, d);
      DecodeStep(g);
    }
  }

  lemma {:induction false} DecodeStep(g: nat)
    ensures GrayDecode(g) == 2 * GrayDecode(g / 2) + (g + GrayDecode(g / 2)) % 2
  {
  }

  lemma UndoParity(g: int, d: int, i: int)
    requires i == 2 * d + (g + d) % 2
    ensures i / 2 == d && (i + d) % 2 == g % 2
  {
  }

  lemma GrayStepTo(i: int, d: int, g: int)
    requires i / 2 == d && (i + d) % 2 == g % 2 && GrayEncode(d) == g / 2
    ensures GrayEncode(i) == g
  {
    hide GrayEncode;
    GrayStep(i);
  }

  /** ... and encoding inverts decoding, so the code is onto. */
  lemma {:induction false} GrayOnto(g: nat)
    ensures GrayEncode(GrayDecode(g)) == g
    decreases g
  {
    hide GrayEncode, Magnitude;
    if g == 0 {
      GrayBase();
    } else {
      hide GrayDecode;
      var i, d := GrayDecode(g), GrayDecode(g / 2);
      GrayOnto(g / 2);
      DecodeStep(g);
      UndoParity(g, d, i);
      GrayStepTo(i, d, g);
    }
  }

  /** Over all integers two codes agree exactly for equal or complementary numbers; on 0, 1, 2, ... it is injective. */
  lemma GrayEqualIff(a: int, b: int)
    ensures GrayEncode(a) == GrayEncode(b) <==> a == b || a == -1 - b
  {
    hide GrayEncode;
    var m, n := Magnitude(a), Magnitude(b);
    GrayComplement(a);
    GrayComplement(b);
    GrayRoundTrip(m);
    GrayRoundTrip(n);
  }

  /** [0, 2^n) is mapped onto itself. */
  lemma {:induction false} GrayRange(i: nat, n: nat)
    ensures GrayEncode(i) < Pow2(n) <==> i < Pow2(n)
    decreases n
  {
    hide GrayEncode;
    GrayNonNegative(i);
    if n == 0 {
      GrayBase();
      GrayRoundTrip(i);
    } else {
      var d := i / 2;
      GrayStep(i);
      GrayNonNegative(d);
      GrayRange(d, n - 1);
    }
  }

  /** The two numbers differ in exactly one bit. */
  ghost predicate OneBitApart(a: int, b: int) {
    exists k: nat :: Xor(a, b) == Pow2(k)
  }

  lemma Pow2Base(k: nat)
    ensures Pow2(0) == 1 && Pow2(k + 1) == 2 * Pow2(k)
  {
  }

  /** From an even number to the next only the last bit changes. */
  lemma GrayEvenOdd(i: int)
    requires i % 2 == 0
    ensures Xor(GrayEncode(i), GrayEncode(i + 1)) == 1
  {
    hide GrayEncode, Xor;
    var d, g, h := i / 2, GrayEncode(i), GrayEncode(i + 1);
    GrayStep(i);
    GrayStep(i + 1);
    Parity(i, d);
    Parity(i + 1, d);
    assert (i + 1) / 2 == d;
    assert g / 2 == GrayEncode(d) == h / 2 && g % 2 != h % 2;
    XorStep(g, h);
    Parity(g, h);
    XorSelf(GrayEncode(d));
  }

  /** From an odd number to the next the change is that of the halves, one place up. */
  lemma GrayOddEven(i: int)
    requires i % 2 == 1
    ensures Xor(GrayEncode(i), GrayEncode(i + 1)) == 2 * Xor(GrayEncode(i / 2), GrayEncode(i / 2 + 1))
  {
    hide GrayEncode, Xor;
    var d, g, h := i / 2, GrayEncode(i), GrayEncode(i + 1);
    GrayStep(i);
    GrayStep(i + 1);
    assert (i + 1) / 2 == d + 1;
    Parity(i, d);
    Parity(i + 1, d + 1);
    assert g / 2 == GrayEncode(d) && h / 2 == GrayEncode(d + 1) && g % 2 == h % 2;
    XorStep(g, h);
    Parity(g, h);
  }

  /** Neighbours differ in exactly one bit, except -1 and 0, which have the same code. */
  lemma {:induction false} GrayNeighbours(i: int)
    ensures OneBitApart(GrayEncode(i), GrayEncode(i + 1)) <==> i != -1
    decreases Magnitude(i) + Magnitude(i + 1)
  {
    hide GrayEncode, Xor, Pow2;
    if i == -1 {
      GrayBase();
      XorSelf(0);
      forall k: nat ensures Pow2(k) != 0 {
        Pow2Sum(k, 0);
      }
    } else if i % 2 == 0 {
      GrayEvenOdd(i);
      Pow2Base(0);
    } else {
      var d := i / 2;
      assert d != -1;
      GrayNeighbours(d);
      var k: nat :| Xor(GrayEncode(d), GrayEncode(d + 1)) == Pow2(k);
      GrayOddEven(i);
      Pow2Base(k);
      assert Xor(GrayEncode(i), GrayEncode(i + 1)) == Pow2(k + 1);
    }
  }

  lemma {:induction false} XorSelf(a: int)
    ensures Xor(a, a) == 0
    decreases Magnitude(a)
  {
    if Magnitude(a) > 0 {
      XorSelf(a / 2);
    }
  }

  /** x & (2^n - 1) */
  function Lsb(x: int, n: nat): int {
    And(x, Pow2(n) - 1)
  }

  /** The n least significant bits are the remainder modulo 2^n, also of a negative number. */
  lemma {:induction false} LsbIsRemainder(x: int, n: nat)
    ensures Pow2(n) > 0 && Lsb(x, n) == x % Pow2(n)
    decreases n
  {
    Pow2Sum(n, 0);
    if n == 0 {
      AndZero(x);
    } else {
      LsbIsRemainder(x / 2, n - 1);
      Pow2Sum(n - 1, 0);
      var m := Pow2(n) - 1;
      assert m / 2 == Pow2(n - 1) - 1 && m % 2 == 1;
      hide And;
      AndStep(x, m);
      HalfRemainder(x, Pow2(n - 1));
    }
  }

  lemma {:induction false} AndStep(a: int, b: int)
    ensures And(a, b) == 2 * And(a / 2, b / 2) + (a % 2) * (b % 2)
  {
  }

  lemma {:induction false} AndZero(x: int)
    ensures And(x, 0) == 0
    decreases Magnitude(x)
  {
    if Magnitude(x) > 0 {
      AndZero(x / 2);
    }
  }

  lemma HalfRemainder(x: int, p: nat)
    requires p > 0
    ensures x % (2 * p) == 2 * (x / 2 % p) + x % 2
  {
    var q, r := x / 2 / p, x / 2 % p;
    assert x / 2 == q * p + r;
    assert x == q * (2 * p) + (2 * r + x % 2);
    RemainderUnique(x, 2 * p, q, 2 * r + x % 2);
  }

  lemma RemainderUnique(x: int, m: nat, q: int, r: int)
    requires m > 0 && 0 <= r < m && x == q * m + r
    ensures x % m == r
  {
    var q', r' := x / m, x % m;
    if q > q' {
      AtLeastOnce(q - q', m);
    } else if q < q' {
      AtLeastOnce(q' - q, m);
    }
  }
}
