/** The one comparator (equivalent/capture/compare.py): per variable, per case.

    The absolute and relative metrics are taken over the reals; only the
    distance in units in the last place is modelled on the bits. */
module Compare {
  import opened Wrappers
  import opened Ulp

  /** A floating-point element type of some size in bytes, or any other type,
      whose elements are answers rather than measurements. */
  datatype DType = Float(itemsize: nat) | Exact(name: string)

  /** Elements are bit patterns, in the one order arrays are walked in. */
  datatype Array = Array(shape: seq<nat>, dtype: DType, data: seq<nat>)

  function Volume(shape: seq<nat>): nat {
    if shape == [] then 1 else Times(shape[0], Volume(shape[1..]))
  }

  predicate ValidArray(a: Array) {
    && |a.data| == Volume(a.shape)
    && (a.dtype.Float? && FormatOf(a.dtype.itemsize).Some? ==>
         Encodings(FormatOf(a.dtype.itemsize).value, a.data))
  }

  /** What a policy file may hold where a number belongs. */
  datatype Number = Absent | Truth(b: bool) | Text | NotFinite | Fractional(r: real) | Whole(i: int)

  datatype Tolerance = NoMapping | Mapping(abs: Number, rel: Number, ulp: Number)

  datatype Problem =
    | NotAMapping
    | NotARealNumber(field: string)
    | NotFiniteAndNonnegative(field: string)
    | UlpNotANonnegativeInteger

  datatype CompareError = NoBand(variable: string) | UnsupportedFloat

  function AsReal(n: Number): real {
    match n
    case Fractional(r) => r
    case Whole(i) => i as real
    case _ => 0.0
  }

  function RealProblem(field: string, n: Number): Option<Problem> {
    match n
    case Absent => Some(NotARealNumber(field))
    case Truth(_) => Some(NotARealNumber(field))
    case Text => Some(NotARealNumber(field))
    case NotFinite => Some(NotFiniteAndNonnegative(field))
    case Fractional(r) => if r < 0.0 then Some(NotFiniteAndNonnegative(field)) else None
    case Whole(i) => if i < 0 then Some(NotFiniteAndNonnegative(field)) else None
  }

  function ToleranceProblem(tol: Tolerance): Option<Problem> {
    if tol.NoMapping? then Some(NotAMapping)
    else if RealProblem("abs", tol.abs).Some? then RealProblem("abs", tol.abs)
    else if RealProblem("rel", tol.rel).Some? then RealProblem("rel", tol.rel)
    else if tol.ulp.Whole? && tol.ulp.i >= 0 then None
    else Some(UlpNotANonnegativeInteger)
  }

  // ---------------------------------------------------------------- one element

  function Abs(r: real): real { if r < 0.0 then -r else r }

  /** The floor of the relative metric's denominator: the least positive normal
      number, whose magnitude field is one in the exponent and zero after it. */
  function Tiny(fmt: Format): (t: real)
    ensures t > 0.0
  {
    TinyIsPositive(fmt);
    InUnits(Pow2(fmt.fraction), fmt.Unit())
  }

  lemma TinyIsPositive(fmt: Format)
    ensures InUnits(Pow2(fmt.fraction), fmt.Unit()) > 0.0
  {
    ScalingKeepsOrder(0, Pow2(fmt.fraction), fmt.Unit());
    assert InUnits(0, fmt.Unit()) == 0.0;
  }

  function Denominator(fmt: Format, ref: nat): (d: real)
    ensures d > 0.0
  {
    var a, t := Abs(fmt.Value(ref)), Tiny(fmt);
    if a > t then a else t
  }

  function Ratio(a: real, b: real): real
    requires b > 0.0
  {
    a / b
  }

  /** How far a submitted element is from the expected one. */
  function Error(fmt: Format, ref: nat, got: nat): real { Abs(fmt.Value(got) - fmt.Value(ref)) }

  lemma AbsIsScaled(fmt: Format, b: nat)
    ensures Abs(fmt.Value(b)) == InUnits(fmt.Scaled(fmt.Magnitude(b)), fmt.Unit())
  {
    ScalingKeepsOrder(fmt.Signed(b), 0, fmt.Unit());
    ScalingKeepsOrder(0, fmt.Signed(b), fmt.Unit());
    assert InUnits(0, fmt.Unit()) == 0.0;
  }

  lemma TinyIsTheLeastNormal(fmt: Format)
    ensures fmt.Scaled(Pow2(fmt.fraction)) == Pow2(fmt.fraction)
  {
    DivModIs(Pow2(fmt.fraction), Pow2(fmt.fraction), 1, 0);
  }

  lemma ScaledReachesTiny(fmt: Format, magnitude: nat)
    ensures fmt.Scaled(magnitude) >= Pow2(fmt.fraction) <==> magnitude >= Pow2(fmt.fraction)
  {
    TinyIsTheLeastNormal(fmt);
    if magnitude < Pow2(fmt.fraction) {
      ScaledIncreases(fmt, magnitude, Pow2(fmt.fraction));
    } else if magnitude > Pow2(fmt.fraction) {
      ScaledIncreases(fmt, Pow2(fmt.fraction), magnitude);
    }
  }

  /** The floor is not the smallest positive number of the type but the smallest normal one: it leaves
      the expected value alone exactly when that is normal. */
  lemma FloorLeavesNormalsAlone(fmt: Format, ref: nat)
    ensures Denominator(fmt, ref) == Abs(fmt.Value(ref)) <==> fmt.Magnitude(ref) >= Pow2(fmt.fraction)
  {
    AbsIsScaled(fmt, ref);
    ScaledReachesTiny(fmt, fmt.Magnitude(ref));
    ScalingKeepsOrder(fmt.Scaled(fmt.Magnitude(ref)), Pow2(fmt.fraction), fmt.Unit());
  }

  lemma SmallerOverLarger(a: real, d: real)
    requires 0.0 < a < d
    ensures Ratio(a, d) < Ratio(a, a)
  {
    var x := a / d;
    assert x * d == a && a / a == 1.0;
    var y := 1.0 - x;
    assert y * d == d - a;
    assert y <= 0.0 ==> y * d <= 0.0;
  }

  /** So between numbers the type can represent it does widen a comparison, against any expected value
      that is subnormal and not zero, and against no other. */
  lemma FloorWidensExactlySubnormals(fmt: Format, ref: nat)
    requires fmt.Finite(ref) && Abs(fmt.Value(ref)) > 0.0
    ensures (exists got :: fmt.Finite(got) && Ratio(Error(fmt, ref, got), Denominator(fmt, ref)) < Ratio(Error(fmt, ref, got), Abs(fmt.Value(ref))))
      <==> fmt.Magnitude(ref) < Pow2(fmt.fraction)
  {
    FloorLeavesNormalsAlone(fmt, ref);
    if fmt.Magnitude(ref) < Pow2(fmt.fraction) {
      var zero := fmt.PositiveZero();
      ZeroIsFinite(fmt, ref);
      SmallerOverLarger(Abs(fmt.Value(ref)), Denominator(fmt, ref));
      assert Error(fmt, ref, zero) == Abs(fmt.Value(ref));
    }
  }

  lemma ZeroIsFinite(fmt: Format, ref: nat)
    requires fmt.Finite(ref)
    ensures fmt.Finite(fmt.PositiveZero()) && fmt.Value(fmt.PositiveZero()) == 0.0
  {
    DivModIs(0, Pow2(fmt.fraction), 0, 0);
  }

  /** Both finite, and within any one of the three bands. */
  predicate Acceptable(fmt: Format, tol: Tolerance, ref: nat, got: nat)
    requires tol.Mapping? && tol.ulp.Whole? && fmt.Encoding(ref) && fmt.Encoding(got)
  {
    var error := Error(fmt, ref, got);
    && fmt.Finite(ref) && fmt.Finite(got)
    && (error <= AsReal(tol.abs)
        || Ratio(error, Denominator(fmt, ref)) <= AsReal(tol.rel)
        || fmt.Distance(ref, got) <= tol.ulp.i)
  }

  // ---------------------------------------------------------------- one variable

  /** `nBad` and `n` are reported only once the arrays could be lined up. */
  datatype Report = Report(pass: bool, nBad: Option<nat>, n: Option<nat>)

  function CountTrue(s: seq<bool>): nat {
    if s == [] then 0 else (if s[0] then 1 else 0) + CountTrue(s[1..])
  }

  lemma {:induction false} CountTrueIsZero(s: seq<bool>)
    ensures CountTrue(s) == 0 <==> forall i :: 0 <= i < |s| ==> !s[i]
  {
    if s != [] {
      CountTrueIsZero(s[1..]);
      if CountTrue(s) == 0 {
        forall i | 0 <= i < |s| ensures !s[i] {
          assert i > 0 ==> s[i] == s[1..][i - 1];
        }
      } else if !s[0] {
        var i :| 0 <= i < |s[1..]| && s[1..][i];
        assert s[i + 1];
      }
    }
  }

  function Differing(ref: seq<nat>, got: seq<nat>): (r: seq<bool>)
    requires |ref| == |got|
    ensures |r| == |ref| && forall i :: 0 <= i < |r| ==> (r[i] <==> ref[i] != got[i])
  {
    seq(|ref|, i requires 0 <= i < |ref| => ref[i] != got[i])
  }

  function Unacceptable(fmt: Format, tol: Tolerance, ref: seq<nat>, got: seq<nat>): (r: seq<bool>)
    requires |ref| == |got| && tol.Mapping? && tol.ulp.Whole?
    requires Encodings(fmt, ref) && Encodings(fmt, got)
    ensures |r| == |ref|
    ensures forall i :: 0 <= i < |r| ==> (r[i] <==> !Acceptable(fmt, tol, ref[i], got[i]))
  {
    seq(|ref|, i requires 0 <= i < |ref| => !Acceptable(fmt, tol, ref[i], got[i]))
  }

  function CompareVariable(ref: Array, got: Array, tol: Tolerance): Result<Report, CompareError>
    requires ValidArray(ref) && ValidArray(got)
  {
    if ref.shape != got.shape || ref.dtype != got.dtype then Ok(Report(false, None, None))
    else
      var n := |ref.data|;
      if ref.dtype.Exact? then
        var bad := CountTrue(Differing(ref.data, got.data));
        Ok(Report(bad == 0, Some(bad), Some(n)))
      else if ToleranceProblem(tol).Some? then Ok(Report(false, Some(n), Some(n)))
      else if n == 0 then Ok(Report(true, Some(0), Some(0)))
      else
        match FormatOf(ref.dtype.itemsize)
        case None => Err(UnsupportedFloat)
        case Some(fmt) =>
          var bad := CountTrue(Unacceptable(fmt, tol, ref.data, got.data));
          Ok(Report(bad == 0, Some(bad), Some(n)))
  }

  predicate Passes(ref: Array, got: Array, tol: Tolerance)
    requires ValidArray(ref) && ValidArray(got)
  {
    var r := CompareVariable(ref, got, tol);
    r.Ok? && r.value.pass
  }

  /** A bound a policy can state: a real number that is finite and not negative. */
  predicate IsBound(n: Number) {
    (n.Fractional? && n.r >= 0.0) || (n.Whole? && n.i >= 0)
  }

  /** A band is usable exactly when it is a mapping with two such bounds and a whole, nonnegative number of
      units; otherwise the problem names the first field at fault, missing or boolean ones as no numbers. */
  lemma BandIsUsableExactly(tol: Tolerance)
    ensures ToleranceProblem(tol).None? <==>
      tol.Mapping? && IsBound(tol.abs) && IsBound(tol.rel) && tol.ulp.Whole? && tol.ulp.i >= 0
    ensures tol.Mapping? && ToleranceProblem(tol).Some? ==>
      var field, n := if IsBound(tol.abs) then "rel" else "abs", if IsBound(tol.abs) then tol.rel else tol.abs;
      ToleranceProblem(tol).value ==
        if IsBound(n) then UlpNotANonnegativeInteger
        else if n.Absent? || n.Truth? || n.Text? then NotARealNumber(field)
        else NotFiniteAndNonnegative(field)
  {
    assert "abs" != "rel";
  }

  ghost predicate AtMost(x: real, n: Number) {
    (n.Fractional? && x <= n.r) || (n.Whole? && x <= n.i as real)
  }

  /** The relative error: what times the floored magnitude is the absolute one. */
  lemma RatioAtMost(a: real, b: real, r: real)
    requires b > 0.0
    ensures Ratio(a, b) <= r <==> a <= r * b
  {
    var q := Ratio(a, b);
    assert q * b == a;
    if q <= r {
      assert (r - q) * b >= 0.0;
    } else {
      assert (q - r) * b > 0.0;
    }
  }

  lemma AsRealBounds(x: real, n: Number)
    requires IsBound(n)
    ensures x <= AsReal(n) <==> AtMost(x, n)
  {
  }

  /** An element is acceptable exactly when both numbers are finite and the answer is within the absolute
      bound, or within the relative one, or within so many steps. */
  lemma AcceptableExactly(fmt: Format, tol: Tolerance, ref: nat, got: nat)
    requires ToleranceProblem(tol).None? && fmt.Encoding(ref) && fmt.Encoding(got)
    ensures var error := Abs(fmt.Value(got) - fmt.Value(ref));
      Acceptable(fmt, tol, ref, got) <==>
        && fmt.Finite(ref) && fmt.Finite(got)
        && (AtMost(error, tol.abs) || AtMost(Ratio(error, Denominator(fmt, ref)), tol.rel) || fmt.Distance(ref, got) <= tol.ulp.i)
  {
    BandIsUsableExactly(tol);
    var error := Error(fmt, ref, got);
    AsRealBounds(error, tol.abs);
    AsRealBounds(Ratio(error, Denominator(fmt, ref)), tol.rel);
  }

  /** A variable passes only if every element is acceptable. */
  lemma PassingMeansEveryElement(ref: Array, got: Array, tol: Tolerance, fmt: Format)
    requires ValidArray(ref) && ValidArray(got) && ref.shape == got.shape && ref.dtype == got.dtype
    requires ref.dtype.Float? && FormatOf(ref.dtype.itemsize) == Some(fmt) && ToleranceProblem(tol).None?
    ensures Passes(ref, got, tol) <==>
      forall i :: 0 <= i < |ref.data| ==> Acceptable(fmt, tol, ref.data[i], got.data[i])
  {
    CountTrueIsZero(Unacceptable(fmt, tol, ref.data, got.data));
  }

  lemma PassingMeansEqual(ref: Array, got: Array, tol: Tolerance)
    requires ValidArray(ref) && ValidArray(got) && ref.dtype.Exact?
    ensures Passes(ref, got, tol) <==> ref == got
  {
    if ref.shape == got.shape && ref.dtype == got.dtype {
      CountTrueIsZero(Differing(ref.data, got.data));
      assert ref.data == got.data <==> forall i :: 0 <= i < |ref.data| ==> ref.data[i] == got.data[i];
    }
  }

  /** Passing and a bad count of zero are one thing, except that an empty
      floating-point variable under an unusable band fails with no bad element. */
  lemma PassesExactlyWhenNoneBad(ref: Array, got: Array, tol: Tolerance)
    requires ValidArray(ref) && ValidArray(got) && ref.shape == got.shape && ref.dtype == got.dtype
    requires CompareVariable(ref, got, tol).Ok?
    ensures var r := CompareVariable(ref, got, tol).value;
      (r.pass <==> r.nBad == Some(0)) <==>
      !(ref.dtype.Float? && ref.data == [] && ToleranceProblem(tol).Some?)
  {
  }

  /** What it takes for a variable to pass, of any two arrays: one shape, one type, and elements that are
      equal, or of a floating-point type each acceptable under a usable band. */
  ghost predicate Agreeing(ref: Array, got: Array, tol: Tolerance)
    requires ValidArray(ref) && ValidArray(got)
  {
    && got.shape == ref.shape && got.dtype == ref.dtype
    && (ref.dtype.Exact? ==> got.data == ref.data)
    && (ref.dtype.Float? ==>
          && ToleranceProblem(tol).None?
          && (ref.data == []
              || (FormatOf(ref.dtype.itemsize).Some?
                  && forall i :: 0 <= i < |ref.data| ==>
                       Acceptable(FormatOf(ref.dtype.itemsize).value, tol, ref.data[i], got.data[i]))))
  }

  lemma PassesExactly(ref: Array, got: Array, tol: Tolerance)
    requires ValidArray(ref) && ValidArray(got)
    ensures Passes(ref, got, tol) <==> Agreeing(ref, got, tol)
  {
    if got.shape == ref.shape && got.dtype == ref.dtype {
      if ref.dtype.Exact? {
        PassingMeansEqual(ref, got, tol);
      } else if ToleranceProblem(tol).None? && ref.data != [] && FormatOf(ref.dtype.itemsize).Some? {
        PassingMeansEveryElement(ref, got, tol, FormatOf(ref.dtype.itemsize).value);
      }
    }
  }

  /** The elements that count as bad under a usable band: those that differ, or that no band accepts. */
  ghost function BadOnes(ref: Array, got: Array, tol: Tolerance): set<nat>
    requires ValidArray(ref) && ValidArray(got) && got.shape == ref.shape && got.dtype == ref.dtype
    requires ref.dtype.Float? && ref.data != [] ==> ToleranceProblem(tol).None? && FormatOf(ref.dtype.itemsize).Some?
  {
    set i: nat | i < |ref.data| &&
      (if ref.dtype.Exact? then ref.data[i] != got.data[i]
       else !Acceptable(FormatOf(ref.dtype.itemsize).value, tol, ref.data[i], got.data[i]))
  }

  lemma {:induction false} CountTrueFrom(s: seq<bool>, k: nat)
    requires k <= |s|
    ensures CountTrue(s[k..]) == |set i: nat | k <= i < |s| && s[i]|
    decreases |s| - k
  {
    var here := set i: nat | k <= i < |s| && s[i];
    if k == |s| {
      assert here == {};
    } else {
      CountTrueFrom(s, k + 1);
      var rest := set i: nat | k + 1 <= i < |s| && s[i];
      assert s[k..][1..] == s[k + 1..];
      assert here == rest + (if s[k] then {k} else {});
    }
  }

  lemma CountTrueIsTheSize(s: seq<bool>)
    ensures CountTrue(s) == |set i: nat | i < |s| && s[i]|
  {
    CountTrueFrom(s, 0);
    assert s[0..] == s;
    assert (set i: nat | 0 <= i < |s| && s[i]) == set i: nat | i < |s| && s[i];
  }

  /** What a report says: nothing but a fail when the arrays cannot be lined up, else how many elements
      there are and how many of them are bad. It is missing only for a type the distance refuses. */
  lemma ReportsExactly(ref: Array, got: Array, tol: Tolerance)
    requires ValidArray(ref) && ValidArray(got)
    ensures var r := CompareVariable(ref, got, tol);
      var aligned := got.shape == ref.shape && got.dtype == ref.dtype;
      && (r.Err? <==> aligned && ref.dtype.Float? && ToleranceProblem(tol).None? && ref.data != [] && FormatOf(ref.dtype.itemsize).None?)
      && (!aligned ==> r == Ok(Report(false, None, None)))
      && (aligned && r.Ok? ==>
            && r.value.n == Some(|ref.data|)
            && r.value.nBad == Some(if ref.dtype.Float? && ToleranceProblem(tol).Some? then |ref.data| else |BadOnes(ref, got, tol)|))
  {
    if got.shape == ref.shape && got.dtype == ref.dtype && CompareVariable(ref, got, tol).Ok? {
      if ref.dtype.Exact? {
        CountTrueIsTheSize(Differing(ref.data, got.data));
        assert BadOnes(ref, got, tol) == set i: nat | i < |Differing(ref.data, got.data)| && Differing(ref.data, got.data)[i];
      } else if ToleranceProblem(tol).None? && ref.data != [] {
        var bad := Unacceptable(FormatOf(ref.dtype.itemsize).value, tol, ref.data, got.data);
        CountTrueIsTheSize(bad);
        assert BadOnes(ref, got, tol) == set i: nat | i < |bad| && bad[i];
      } else if ref.data == [] {
        assert BadOnes(ref, got, tol) == {};
      }
    }
  }

  /** An array agrees with itself exactly when the policy has something to say about it. */
  predicate Judgeable(a: Array, tol: Tolerance)
    requires ValidArray(a)
  {
    a.dtype.Exact? ||
    (ToleranceProblem(tol).None? &&
     (a.data == [] ||
      (FormatOf(a.dtype.itemsize).Some? &&
       forall i :: 0 <= i < |a.data| ==> FormatOf(a.dtype.itemsize).value.Finite(a.data[i]))))
  }

  lemma AgreesWithItself(a: Array, tol: Tolerance)
    requires ValidArray(a)
    ensures Passes(a, a, tol) <==> Judgeable(a, tol)
  {
    if a.dtype.Exact? {
      PassingMeansEqual(a, a, tol);
    } else if ToleranceProblem(tol).None? && a.data != [] && FormatOf(a.dtype.itemsize).Some? {
      var fmt := FormatOf(a.dtype.itemsize).value;
      PassingMeansEveryElement(a, a, tol, fmt);
      forall i | 0 <= i < |a.data| && fmt.Finite(a.data[i])
        ensures Acceptable(fmt, tol, a.data[i], a.data[i])
      {
        assert Abs(fmt.Value(a.data[i]) - fmt.Value(a.data[i])) == 0.0;
      }
    }
  }

  // ---------------------------------------------------------------- one case

  type Case = map<string, Array>

  predicate ValidCase(c: Case) {
    forall v :: v in c ==> ValidArray(c[v])
  }

  /** A mapping's keys, listed once each in the order it is walked. */
  ghost predicate Lists<T>(names: seq<string>, m: map<string, T>) {
    && (forall i, j :: 0 <= i < j < |names| ==> names[i] != names[j])
    && (forall v :: v in names <==> v in m)
  }

  /** The band consulted: none for a variable that is not floating-point. */
  function BandFor(ref: Array, v: string, tols: map<string, Tolerance>): Option<Tolerance> {
    if ref.dtype.Exact? then Some(NoMapping)
    else if v in tols then Some(tols[v])
    else None
  }

  /** The comparison of one expected variable: a report, or the exception raised. */
  function VariableOutcome(expected: Case, got: Case, tols: map<string, Tolerance>, v: string):
    Result<Report, CompareError>
    requires ValidCase(expected) && ValidCase(got) && v in expected
  {
    if v !in got then Ok(Report(false, None, None))
    else
      match BandFor(expected[v], v, tols)
      case None => Err(NoBand(v))
      case Some(tol) => CompareVariable(expected[v], got[v], tol)
  }

  datatype CaseReport = CaseReport(pass: bool, perVar: map<string, Report>, extra: set<string>)

  ghost predicate CaseRaises(expected: Case, got: Case, tols: map<string, Tolerance>)
    requires ValidCase(expected) && ValidCase(got)
  {
    exists v :: v in expected && VariableOutcome(expected, got, tols, v).Err?
  }

  ghost predicate CasePasses(expected: Case, got: Case, tols: map<string, Tolerance>)
    requires ValidCase(expected) && ValidCase(got)
  {
    forall v :: v in expected ==>
      VariableOutcome(expected, got, tols, v).Ok? && VariableOutcome(expected, got, tols, v).value.pass
  }

  /** The reports so far: those of the variables already walked, each its own. */
  ghost predicate Reported(expected: Case, got: Case, tols: map<string, Tolerance>,
                           done: seq<string>, perVar: map<string, Report>)
    requires ValidCase(expected) && ValidCase(got)
  {
    && (forall v :: v in perVar <==> v in done)
    && (forall v :: v in perVar ==>
          v in expected && VariableOutcome(expected, got, tols, v) == Ok(perVar[v]))
  }

  lemma ReportedOneMore(expected: Case, got: Case, tols: map<string, Tolerance>,
                        done: seq<string>, perVar: map<string, Report>, v: string)
    requires ValidCase(expected) && ValidCase(got) && v in expected
    requires Reported(expected, got, tols, done, perVar)
    requires VariableOutcome(expected, got, tols, v).Ok?
    ensures Reported(expected, got, tols, done + [v],
              perVar[v := VariableOutcome(expected, got, tols, v).value])
  {
    assert forall w :: w in done + [v] <==> w in done || w == v;
  }

  lemma ReportedWhole(expected: Case, names: seq<string>, got: Case, tols: map<string, Tolerance>,
                      perVar: map<string, Report>)
    requires ValidCase(expected) && ValidCase(got) && Lists(names, expected)
    requires Reported(expected, got, tols, names, perVar)
    ensures perVar.Keys == expected.Keys && !CaseRaises(expected, got, tols)
    ensures (forall v :: v in perVar ==> perVar[v].pass) <==> CasePasses(expected, got, tols)
  {
    assert forall v :: v in expected ==> v in perVar;
  }

  /** The first of the names whose comparison raises, and what it raises. */
  ghost predicate FirstRaised(expected: Case, names: seq<string>, got: Case, tols: map<string, Tolerance>, e: CompareError)
    requires ValidCase(expected) && ValidCase(got) && Lists(names, expected)
  {
    exists k :: 0 <= k < |names| && VariableOutcome(expected, got, tols, names[k]) == Err(e) &&
                AllOk(expected, names[..k], got, tols)
  }

  ghost predicate AllOk(expected: Case, names: seq<string>, got: Case, tols: map<string, Tolerance>)
    requires ValidCase(expected) && ValidCase(got) && forall v :: v in names ==> v in expected
  {
    forall v :: v in names ==> VariableOutcome(expected, got, tols, v).Ok?
  }

  /** Every expected variable is judged, none skipped, and an extra one decides nothing. */
  method CompareCase(expected: Case, names: seq<string>, got: Case, tols: map<string, Tolerance>)
    returns (r: Result<CaseReport, CompareError>)
    requires ValidCase(expected) && ValidCase(got) && Lists(names, expected)
    ensures r.Err? <==> CaseRaises(expected, got, tols)
    ensures r.Err? ==> FirstRaised(expected, names, got, tols, r.error)
    ensures r.Ok? ==> (r.value.pass <==> CasePasses(expected, got, tols))
    ensures r.Ok? ==> r.value.perVar.Keys == expected.Keys && r.value.extra == got.Keys - expected.Keys
    ensures r.Ok? ==> forall v :: v in expected ==>
              VariableOutcome(expected, got, tols, v) == Ok(r.value.perVar[v])
  {
    var perVar: map<string, Report> := map[];
    for i := 0 to |names|
      invariant Reported(expected, got, tols, names[..i], perVar)
    {
      var v := names[i];
      assert v in names && names[..i + 1] == names[..i] + [v];
      var outcome := VariableOutcome(expected, got, tols, v);
      if outcome.Err? {
        assert AllOk(expected, names[..i], got, tols);
        return Err(outcome.error);
      }
      ReportedOneMore(expected, got, tols, names[..i], perVar, v);
      perVar := perVar[v := outcome.value];
    }
    assert names[..|names|] == names;
    ReportedWhole(expected, names, got, tols, perVar);
    r := Ok(CaseReport(forall v :: v in perVar ==> perVar[v].pass, perVar, got.Keys - expected.Keys));
  }

  /** A case passes exactly when every expected variable was submitted and agrees under its own band: of
      another shape or type, or missing, none does. */
  lemma CasePassesExactly(expected: Case, got: Case, tols: map<string, Tolerance>)
    requires ValidCase(expected) && ValidCase(got)
    ensures CasePasses(expected, got, tols) <==>
      forall v :: v in expected ==>
        && v in got && (expected[v].dtype.Float? ==> v in tols)
        && Agreeing(expected[v], got[v], if expected[v].dtype.Float? then tols[v] else NoMapping)
  {
    forall v | v in expected && v in got && (expected[v].dtype.Float? ==> v in tols) {
      PassesExactly(expected[v], got[v], if expected[v].dtype.Float? then tols[v] else NoMapping);
    }
  }

  /** It raises exactly when some submitted floating-point variable has no band, or cannot be judged for
      its size though it could be lined up. */
  lemma CaseRaisesExactly(expected: Case, got: Case, tols: map<string, Tolerance>)
    requires ValidCase(expected) && ValidCase(got)
    ensures CaseRaises(expected, got, tols) <==>
      exists v :: v in expected && v in got && expected[v].dtype.Float?
        && (v !in tols
            || (got[v].shape == expected[v].shape && got[v].dtype == expected[v].dtype && ToleranceProblem(tols[v]).None?
                && expected[v].data != [] && FormatOf(expected[v].dtype.itemsize).None?))
    ensures forall v :: v in expected ==>
      (VariableOutcome(expected, got, tols, v) == Err(NoBand(v)) <==>
        v in got && expected[v].dtype.Float? && v !in tols)
    ensures forall v, u :: v in expected && VariableOutcome(expected, got, tols, v) == Err(NoBand(u)) ==> u == v
  {
    forall v | v in expected && v in got {
      ReportsExactly(expected[v], got[v], if expected[v].dtype.Float? && v in tols then tols[v] else NoMapping);
    }
  }
}
