/** Distance in units in the last place (equivalent/capture/compare.py) over the
    interchange formats of section 3.4 of IEEE 754-2019.

    An encoding is its bit pattern read as an unsigned integer. The formats are
    binary32 and binary64; the reasoning is generic in the two field widths. */
module Ulp {
  import opened Wrappers

  function Pow2(n: nat): (r: nat)
    ensures r >= 1
  {
    if n == 0 then 1 else 2 * Pow2(n - 1)
  }

  function Times(a: nat, b: nat): nat {
    a * b
  }

  function Quotient(a: nat, b: nat): nat
    requires b >= 1
  {
    a / b
  }

  function InUnits(n: int, unit: real): real {
    n as real * unit
  }

  /** `exponent` and `fraction` are field widths in bits; the sign is one more. */
  datatype Format = Format(exponent: nat, fraction: nat) {
    function Sign(): (s: nat)
      ensures s >= 1
    {
      Pow2(exponent + fraction)
    }

    /** The magnitude field of an infinity: the exponent field all ones. */
    function Infinity(): nat { Times(Pow2(exponent) - 1, Pow2(fraction)) }

    predicate Encoding(b: nat) { b < 2 * Sign() }

    predicate Negative(b: nat) { b >= Sign() }

    function Magnitude(b: nat): nat { if Negative(b) then b - Sign() else b }

    predicate Finite(b: nat) { Encoding(b) && Magnitude(b) < Infinity() }

    /** In units of the least subnormal: the fraction field alone while the
        exponent field is zero, with the implicit leading bit after that. */
    function Assembled(e: nat, f: nat): nat {
      if e == 0 then f else Times(Pow2(fraction) + f, Pow2(e - 1))
    }

    function Scaled(magnitude: nat): nat {
      Assembled(Quotient(magnitude, Pow2(fraction)), magnitude % Pow2(fraction))
    }

    function Signed(b: nat): int {
      if Negative(b) then 0 - Scaled(Magnitude(b)) else Scaled(Magnitude(b))
    }

    /** The least positive number of the format: two to the power
        2 - 2^(exponent-1) - fraction. */
    function Unit(): (u: real)
      ensures u > 0.0
    {
      4.0 / Pow2((if exponent == 0 then 1 else Pow2(exponent - 1)) + fraction) as real
    }

    /** The real number a finite encoding stands for. */
    function Value(b: nat): real {
      InUnits(Signed(b), Unit())
    }

    /** Negative encodings complemented, the others with the sign bit set. */
    function Mapped(b: nat): nat
      requires Encoding(b)
    {
      if Negative(b) then 2 * Sign() - 1 - b else b + Sign()
    }

    function Unmapped(m: nat): nat
      requires Encoding(m)
    {
      if Negative(m) then m - Sign() else 2 * Sign() - 1 - m
    }

    function Distance(a: nat, b: nat): nat
      requires Encoding(a) && Encoding(b)
    {
      var x, y := Mapped(a), Mapped(b);
      if x >= y then x - y else y - x
    }

    function PositiveZero(): nat { 0 }

    function NegativeZero(): nat { Sign() }
  }

  const BINARY32 := Format(8, 23)
  const BINARY64 := Format(11, 52)

  /** The formats an array's item size, in bytes, has a distance for. */
  function FormatOf(itemsize: nat): Option<Format> {
    if itemsize == 4 then Some(BINARY32)
    else if itemsize == 8 then Some(BINARY64)
    else None
  }

  // ---------------------------------------------------------------- the bits really do that

  /** Bits from the least significant up. */
  function FromBits(bits: seq<bool>): nat {
    if bits == [] then 0 else (if bits[0] then 1 else 0) + 2 * FromBits(bits[1..])
  }

  function Complement(bits: seq<bool>): (r: seq<bool>)
    ensures |r| == |bits|
  {
    seq(|bits|, i requires 0 <= i < |bits| => !bits[i])
  }

  /** What the source computes with a mask, a complement and an or. */
  function MappedBits(bits: seq<bool>): seq<bool>
    requires bits != []
  {
    var top := |bits| - 1;
    if bits[top] then Complement(bits) else bits[top := true]
  }

  lemma {:induction false} ComplementSubtracts(bits: seq<bool>)
    ensures FromBits(Complement(bits)) == Pow2(|bits|) - 1 - FromBits(bits)
  {
    if bits != [] {
      assert Complement(bits)[1..] == Complement(bits[1..]);
      ComplementSubtracts(bits[1..]);
    }
  }

  lemma {:induction false} TopBit(bits: seq<bool>)
    requires bits != []
    ensures FromBits(bits) < Pow2(|bits|)
    ensures bits[|bits| - 1] <==> FromBits(bits) >= Pow2(|bits| - 1)
    ensures !bits[|bits| - 1] ==>
      FromBits(bits[|bits| - 1 := true]) == FromBits(bits) + Pow2(|bits| - 1)
  {
    if |bits| > 1 {
      var top := |bits| - 1;
      TopBit(bits[1..]);
      assert bits[1..][top - 1 := true] == bits[top := true][1..];
    } else {
      assert bits[1..] == [] && bits[0 := true][1..] == [];
    }
  }

  /** The arithmetic `Mapped` is the bit operation on every encoding of the width. */
  lemma MappedBitsIsMapped(fmt: Format, bits: seq<bool>)
    requires |bits| == 1 + fmt.exponent + fmt.fraction
    ensures fmt.Encoding(FromBits(bits))
    ensures FromBits(MappedBits(bits)) == fmt.Mapped(FromBits(bits))
  {
    TopBit(bits);
    ComplementSubtracts(bits);
  }

  // ---------------------------------------------------------------- a bijection

  lemma MappedIsABijection(fmt: Format, b: nat)
    requires fmt.Encoding(b)
    ensures fmt.Encoding(fmt.Mapped(b)) && fmt.Unmapped(fmt.Mapped(b)) == b
    ensures fmt.Encoding(fmt.Unmapped(b)) && fmt.Mapped(fmt.Unmapped(b)) == b
  {
  }

  // ---------------------------------------------------------------- increasing in the value

  lemma Distributes(a: nat, d: nat, c: nat)
    ensures (a + d) * c == a * c + d * c
  {
  }

  lemma AtLeastOnce(d: nat, c: nat)
    requires d >= 1
    ensures d * c >= c
  {
    Distributes(d - 1, 1, c);
  }

  lemma TimesGrows(a: nat, b: nat, c: nat)
    requires a < b && c >= 1
    ensures Times(a, c) < Times(b, c)
  {
    Distributes(a, b - a, c);
    AtLeastOnce(b - a, c);
  }

  lemma NextQuotient(u: nat, p: nat)
    requires p >= 1
    ensures u % p + 1 < p ==> Quotient(u + 1, p) == Quotient(u, p) && (u + 1) % p == u % p + 1
    ensures u % p + 1 == p ==> Quotient(u + 1, p) == Quotient(u, p) + 1 && (u + 1) % p == 0
  {
    var q, r := u / p, u % p;
    assert u == q * p + r;
    if r + 1 < p {
      DivModIs(u + 1, p, q, r + 1);
    } else {
      assert (q + 1) * p == q * p + p;
      DivModIs(u + 1, p, q + 1, 0);
    }
  }

  lemma DivModIs(u: nat, p: nat, q: nat, r: nat)
    requires p >= 1 && r < p && u == q * p + r
    ensures u / p == q && u % p == r
  {
    var q', r' := u / p, u % p;
    if q' < q {
      Distributes(q', q - q', p);
      AtLeastOnce(q - q', p);
    } else if q' > q {
      Distributes(q, q' - q, p);
      AtLeastOnce(q' - q, p);
    }
  }

  lemma ScaledStep(fmt: Format, u: nat)
    ensures fmt.Scaled(u) < fmt.Scaled(u + 1)
  {
    var p := Pow2(fmt.fraction);
    var e, f := Quotient(u, p), u % p;
    NextQuotient(u, p);
    if f + 1 < p {
      if e > 0 {
        TimesGrows(p + f, p + f + 1, Pow2(e - 1));
      }
    } else if e > 0 {
      TimesGrows(p + f, 2 * p, Pow2(e - 1));
      assert Times(2 * p, Pow2(e - 1)) == Times(p, Pow2(e));
    }
  }

  lemma {:induction false} ScaledIncreases(fmt: Format, u: nat, v: nat)
    requires u < v
    ensures fmt.Scaled(u) < fmt.Scaled(v)
    decreases v - u
  {
    ScaledStep(fmt, u);
    if u + 1 < v {
      ScaledIncreases(fmt, u + 1, v);
    }
  }

  lemma ScaledZero(fmt: Format, u: nat)
    ensures fmt.Scaled(u) == 0 <==> u == 0
  {
    var p := Pow2(fmt.fraction);
    DivModIs(0, p, 0, 0);
    if u > 0 {
      ScaledIncreases(fmt, 0, u);
    }
  }

  lemma ScalingKeepsOrder(x: int, y: int, unit: real)
    requires unit > 0.0
    ensures x < y <==> InUnits(x, unit) < InUnits(y, unit)
  {
    var d := y as real - x as real;
    assert y as real * unit == x as real * unit + d * unit;
    assert d > 0.0 ==> d * unit > 0.0;
    assert d <= 0.0 ==> d * unit <= 0.0;
  }

  lemma SignedOrder(fmt: Format, x: nat, y: nat)
    requires fmt.Finite(x) && fmt.Finite(y)
    ensures fmt.Mapped(x) < fmt.Mapped(y) <==>
      fmt.Signed(x) < fmt.Signed(y) || (x == fmt.NegativeZero() && y == fmt.PositiveZero())
  {
    var u, v := fmt.Magnitude(x), fmt.Magnitude(y);
    ScaledZero(fmt, u);
    ScaledZero(fmt, v);
    if u < v {
      ScaledIncreases(fmt, u, v);
    } else if v < u {
      ScaledIncreases(fmt, v, u);
    }
  }

  lemma ValueOrder(fmt: Format, x: nat, y: nat)
    ensures fmt.Signed(x) < fmt.Signed(y) <==> fmt.Value(x) < fmt.Value(y)
  {
    ScalingKeepsOrder(fmt.Signed(x), fmt.Signed(y), fmt.Unit());
  }

  /** The map is strictly increasing in the decoded value; the one pair it
      separates without a difference in value is the two zeros. */
  lemma MappedIncreasesWithValue(fmt: Format, x: nat, y: nat)
    requires fmt.Finite(x) && fmt.Finite(y)
    ensures fmt.Mapped(x) < fmt.Mapped(y) <==>
      fmt.Value(x) < fmt.Value(y) || (x == fmt.NegativeZero() && y == fmt.PositiveZero())
  {
    SignedOrder(fmt, x, y);
    ValueOrder(fmt, x, y);
  }

  /** Nothing that is not a number, and no infinity, lies between two finite numbers. */
  lemma BetweenFiniteIsFinite(fmt: Format, x: nat, z: nat, y: nat)
    requires fmt.Finite(x) && fmt.Finite(y) && fmt.Encoding(z)
    requires fmt.Mapped(x) <= fmt.Mapped(z) <= fmt.Mapped(y)
    ensures fmt.Finite(z)
  {
  }

  // ---------------------------------------------------------------- the distance

  lemma Pow2Values()
    ensures Pow2(10) == 1024 && Pow2(20) == 1048576
    ensures Pow2(32) == 0x1_0000_0000 && Pow2(64) == 0x1_0000_0000_0000_0000
  {
    Pow2Adds(10, 10);
    Pow2Adds(20, 10);
    assert Pow2(2) == 4;
    Pow2Adds(30, 2);
    Pow2Adds(32, 32);
  }

  lemma {:induction false} Pow2Adds(a: nat, b: nat)
    ensures Pow2(a + b) == Pow2(a) * Pow2(b)
  {
    if a != 0 {
      Pow2Adds(a - 1, b);
      assert Pow2(a + b) == 2 * (Pow2(a - 1) * Pow2(b)) == (2 * Pow2(a - 1)) * Pow2(b);
    }
  }

  /** A metric on encodings. */
  lemma DistanceIsAMetric(fmt: Format, a: nat, b: nat, c: nat)
    requires fmt.Encoding(a) && fmt.Encoding(b) && fmt.Encoding(c)
    ensures fmt.Distance(a, b) == fmt.Distance(b, a)
    ensures fmt.Distance(a, b) == 0 <==> a == b
    ensures fmt.Distance(a, c) <= fmt.Distance(a, b) + fmt.Distance(b, c)
  {
    MappedIsABijection(fmt, a);
    MappedIsABijection(fmt, b);
  }

  /** Subtracting low from high never wraps: the distance fits the width it is held in. */
  lemma DistanceFits(itemsize: nat, a: nat, b: nat)
    requires FormatOf(itemsize).Some?
    requires FormatOf(itemsize).value.Encoding(a) && FormatOf(itemsize).value.Encoding(b)
    ensures FormatOf(itemsize).value.Distance(a, b) < Pow2(8 * itemsize)
    ensures Pow2(8 * itemsize) <= 0x1_0000_0000_0000_0000
  {
    Pow2Values();
    var fmt := FormatOf(itemsize).value;
    assert fmt.exponent + fmt.fraction + 1 == 8 * itemsize;
    assert Pow2(8 * itemsize) == 2 * fmt.Sign();
    MappedIsABijection(fmt, a);
    MappedIsABijection(fmt, b);
  }

  /** The encodings met on the way up from `x`, one per unit of distance. */
  ghost function Passed(fmt: Format, x: nat, d: nat): set<nat>
    requires fmt.Encoding(x) && fmt.Encoding(fmt.Mapped(x) + d)
  {
    set z | 0 <= z < 2 * fmt.Sign() && fmt.Mapped(x) < fmt.Mapped(z) <= fmt.Mapped(x) + d
  }

  lemma {:induction false} PassedOneByOne(fmt: Format, x: nat, d: nat)
    requires fmt.Encoding(x) && fmt.Encoding(fmt.Mapped(x) + d)
    ensures |Passed(fmt, x, d)| == d
  {
    if d == 0 {
      assert Passed(fmt, x, d) == {};
    } else {
      PassedOneByOne(fmt, x, d - 1);
      var last := fmt.Unmapped(fmt.Mapped(x) + d);
      MappedIsABijection(fmt, fmt.Mapped(x) + d);
      forall z | z in Passed(fmt, x, d) && z !in Passed(fmt, x, d - 1) ensures z == last {
        MappedIsABijection(fmt, z);
      }
      assert Passed(fmt, x, d) == Passed(fmt, x, d - 1) + {last};
    }
  }

  /** The distance counts the encodings passed, every one of them a finite number. */
  lemma DistanceCountsEncodings(fmt: Format, x: nat, y: nat)
    requires fmt.Finite(x) && fmt.Finite(y) && fmt.Mapped(x) <= fmt.Mapped(y)
    ensures fmt.Encoding(fmt.Mapped(x) + fmt.Distance(x, y))
    ensures |Passed(fmt, x, fmt.Distance(x, y))| == fmt.Distance(x, y)
    ensures forall z :: z in Passed(fmt, x, fmt.Distance(x, y)) ==> fmt.Finite(z)
  {
    MappedIsABijection(fmt, y);
    PassedOneByOne(fmt, x, fmt.Distance(x, y));
    forall z | z in Passed(fmt, x, fmt.Distance(x, y)) ensures fmt.Finite(z) {
      BetweenFiniteIsFinite(fmt, x, z, y);
    }
  }

  /** The numbers, as opposed to encodings, above `x` and up to `d` steps on. */
  ghost function ValuesPassed(fmt: Format, x: nat, d: nat): set<int>
    requires fmt.Encoding(x) && fmt.Encoding(fmt.Mapped(x) + d)
  {
    set z | z in Passed(fmt, x, d) && fmt.Signed(z) > fmt.Signed(x) :: fmt.Signed(z)
  }

  predicate CrossesZero(fmt: Format, x: nat, y: nat) {
    fmt.Negative(x) && !fmt.Negative(y)
  }

  /** Counted in numbers rather than encodings, a distance across zero is one
      less: negative and positive zero are two encodings of one number. */
  lemma {:induction false} DistanceCountsValues(fmt: Format, x: nat, y: nat)
    requires fmt.Finite(x) && fmt.Finite(y) && fmt.Mapped(x) <= fmt.Mapped(y)
    ensures fmt.Encoding(fmt.Mapped(x) + fmt.Distance(x, y))
    ensures |ValuesPassed(fmt, x, fmt.Distance(x, y))| ==
            fmt.Distance(x, y) - (if CrossesZero(fmt, x, y) then 1 else 0)
    decreases fmt.Distance(x, y)
  {
    var d := fmt.Distance(x, y);
    MappedIsABijection(fmt, y);
    if d == 0 {
      MappedIsABijection(fmt, x);
      assert ValuesPassed(fmt, x, d) == {};
    } else {
      var w := fmt.Unmapped(fmt.Mapped(y) - 1);
      MappedIsABijection(fmt, fmt.Mapped(y) - 1);
      BetweenFiniteIsFinite(fmt, x, w, y);
      DistanceCountsValues(fmt, x, w);
      LastValue(fmt, x, w, y);
    }
  }

  /** One more step passes one more encoding. */
  lemma OneMorePassed(fmt: Format, x: nat, y: nat, d: nat)
    requires fmt.Encoding(x) && fmt.Encoding(y) && d >= 1 && fmt.Mapped(y) == fmt.Mapped(x) + d
    ensures fmt.Encoding(fmt.Mapped(x) + d)
    ensures Passed(fmt, x, d) == Passed(fmt, x, d - 1) + {y}
  {
    MappedIsABijection(fmt, y);
    forall z | z in Passed(fmt, x, d) ensures z == y || z in Passed(fmt, x, d - 1) {
      MappedIsABijection(fmt, z);
    }
  }

  lemma BelowTheLast(fmt: Format, x: nat, y: nat, d: nat)
    requires fmt.Finite(x) && fmt.Finite(y) && d >= 1 && fmt.Mapped(y) == fmt.Mapped(x) + d
    requires fmt.Encoding(fmt.Mapped(x) + (d - 1))
    ensures forall z :: z in Passed(fmt, x, d - 1) ==> fmt.Signed(z) <= fmt.Signed(y)
    ensures fmt.Signed(y) > 0 || fmt.Negative(y) ==>
      forall z :: z in Passed(fmt, x, d - 1) ==> fmt.Signed(z) < fmt.Signed(y)
  {
    ScaledZero(fmt, fmt.Magnitude(y));
    forall z | z in Passed(fmt, x, d - 1)
      ensures fmt.Signed(z) <= fmt.Signed(y)
      ensures fmt.Signed(y) > 0 || fmt.Negative(y) ==> fmt.Signed(z) < fmt.Signed(y)
    {
      BetweenFiniteIsFinite(fmt, x, z, y);
      SignedOrder(fmt, z, y);
      ScaledZero(fmt, fmt.Magnitude(z));
    }
  }

  lemma LastValue(fmt: Format, x: nat, w: nat, y: nat)
    requires fmt.Finite(x) && fmt.Finite(w) && fmt.Finite(y)
    requires fmt.Mapped(x) <= fmt.Mapped(w) && fmt.Mapped(y) == fmt.Mapped(w) + 1
    ensures var d := fmt.Distance(x, y);
      fmt.Encoding(fmt.Mapped(x) + d) && fmt.Encoding(fmt.Mapped(x) + (d - 1)) &&
      |ValuesPassed(fmt, x, d)| == |ValuesPassed(fmt, x, d - 1)| +
        (if CrossesZero(fmt, w, y) then 0 else 1)
  {
    var d := fmt.Distance(x, y);
    MappedIsABijection(fmt, w);
    MappedIsABijection(fmt, y);
    OneMorePassed(fmt, x, y, d);
    BelowTheLast(fmt, x, y, d);
    if CrossesZero(fmt, w, y) {
      ZerosAreNeighbours(fmt, w, y);
      SignedOrder(fmt, x, w);
      NothingNewAtZero(fmt, x, w, y, d);
    } else {
      SignedOrder(fmt, w, y);
      SignedOrder(fmt, x, w);
      ScaledZero(fmt, fmt.Magnitude(y));
      OneMoreValue(fmt, x, y, d);
    }
  }

  lemma ZerosAreNeighbours(fmt: Format, w: nat, y: nat)
    requires fmt.Finite(w) && fmt.Finite(y) && CrossesZero(fmt, w, y)
    requires fmt.Mapped(y) == fmt.Mapped(w) + 1
    ensures w == fmt.NegativeZero() && y == fmt.PositiveZero()
    ensures fmt.Signed(w) == 0 && fmt.Signed(y) == 0
  {
    ScaledZero(fmt, fmt.Magnitude(w));
    ScaledZero(fmt, fmt.Magnitude(y));
  }

  lemma OneMoreValue(fmt: Format, x: nat, y: nat, d: nat)
    requires d >= 1 && fmt.Encoding(x)
    requires fmt.Encoding(fmt.Mapped(x) + d) && fmt.Encoding(fmt.Mapped(x) + (d - 1))
    requires Passed(fmt, x, d) == Passed(fmt, x, d - 1) + {y} && fmt.Signed(x) < fmt.Signed(y)
    requires forall z :: z in Passed(fmt, x, d - 1) ==> fmt.Signed(z) < fmt.Signed(y)
    ensures |ValuesPassed(fmt, x, d)| == |ValuesPassed(fmt, x, d - 1)| + 1
  {
    assert ValuesPassed(fmt, x, d) == ValuesPassed(fmt, x, d - 1) + {fmt.Signed(y)};
  }

  lemma NothingNewAtZero(fmt: Format, x: nat, w: nat, y: nat, d: nat)
    requires fmt.Finite(x) && fmt.Finite(w) && d >= 1
    requires fmt.Encoding(fmt.Mapped(x) + d) && fmt.Encoding(fmt.Mapped(x) + (d - 1))
    requires fmt.Mapped(w) == fmt.Mapped(x) + (d - 1)
    requires Passed(fmt, x, d) == Passed(fmt, x, d - 1) + {y}
    requires fmt.Signed(w) == fmt.Signed(y) && (x == w || fmt.Signed(x) <= fmt.Signed(w))
    ensures ValuesPassed(fmt, x, d) == ValuesPassed(fmt, x, d - 1)
  {
    if fmt.Signed(y) > fmt.Signed(x) {
      assert w in Passed(fmt, x, d - 1);
    }
  }

  // ---------------------------------------------------------------- the array form

  datatype UlpError = UnsupportedItemSize

  predicate Encodings(fmt: Format, a: seq<nat>) {
    forall i :: 0 <= i < |a| ==> fmt.Encoding(a[i])
  }

  function MappedAll(fmt: Format, a: seq<nat>): (r: seq<nat>)
    requires Encodings(fmt, a)
    ensures |r| == |a|
    ensures forall i :: 0 <= i < |a| ==> r[i] == fmt.Mapped(a[i])
  {
    seq(|a|, i requires 0 <= i < |a| => fmt.Mapped(a[i]))
  }

  /** Both arrays are mapped first, and then subtracted low from high. */
  method UlpDiff(itemsize: nat, ref: seq<nat>, got: seq<nat>) returns (r: Result<seq<nat>, UlpError>)
    requires |ref| == |got|
    requires FormatOf(itemsize).Some? ==>
      Encodings(FormatOf(itemsize).value, ref) && Encodings(FormatOf(itemsize).value, got)
    ensures r.Err? <==> itemsize != 4 && itemsize != 8
    ensures r.Ok? ==> |r.value| == |ref|
    ensures r.Ok? ==> forall i :: 0 <= i < |ref| ==>
              r.value[i] == FormatOf(itemsize).value.Distance(ref[i], got[i])
  {
    if FormatOf(itemsize).None? {
      return Err(UnsupportedItemSize);
    }
    var fmt := FormatOf(itemsize).value;
    var ordered: seq<seq<nat>> := [];
    var arrays := [ref, got];
    for k := 0 to |arrays|
      invariant |ordered| == k
      invariant forall j :: 0 <= j < k ==> ordered[j] == MappedAll(fmt, arrays[j])
    {
      ordered := ordered + [MappedAll(fmt, arrays[k])];
    }
    var x, y := ordered[0], ordered[1];
    r := Ok(seq(|ref|, i requires 0 <= i < |ref| && |x| == |ref| && |y| == |ref| =>
      if x[i] >= y[i] then x[i] - y[i] else y[i] - x[i]));
  }
}
