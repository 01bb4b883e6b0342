/** Scoring one mutant (services/builder/mutate.py), and its agreement with the
    comparator about what was noticed. */
module Mutation {
  import opened Wrappers
  import opened Compare

  /** Identical bit patterns, whatever the element type is. */
  predicate BitwiseEqual(expected: Array, got: Array) {
    expected.shape == got.shape && expected.dtype == got.dtype && expected.data == got.data
  }

  datatype Status =
    | Missing(variable: string)           // killed: an answer was not written
    | OutsideTheBand(outside: seq<string>) // killed: an answer left its band
    | Equivalent
    | Gap(changed: seq<string>)
  {
    predicate Killed() { Missing? || OutsideTheBand? }
  }

  function BandOf(ref: Array, v: string, bands: map<string, Tolerance>): Tolerance {
    if ref.dtype.Float? && v in bands then bands[v] else NoMapping
  }

  ghost predicate Unchanged(expected: Case, got: Case) {
    forall v :: v in expected ==> v in got && BitwiseEqual(expected[v], got[v])
  }

  /** An expected variable the comparator would reject, asked only of what changed. */
  ghost predicate Noticed(expected: Case, got: Case, bands: map<string, Tolerance>, v: string)
    requires ValidCase(expected) && ValidCase(got)
  {
    v in expected &&
    (v !in got ||
     (!BitwiseEqual(expected[v], got[v]) &&
      !Passes(expected[v], got[v], BandOf(expected[v], v, bands))))
  }

  ghost predicate RaisesNowhere(expected: Case, got: Case, bands: map<string, Tolerance>)
    requires ValidCase(expected) && ValidCase(got)
  {
    forall v :: v in expected && v in got ==>
      CompareVariable(expected[v], got[v], BandOf(expected[v], v, bands)).Ok?
  }

  ghost function ChangedOnes(expected: Case, got: Case): set<string> {
    set v | v in expected && v in got && !BitwiseEqual(expected[v], got[v])
  }

  ghost function NoticedOnes(expected: Case, got: Case, bands: map<string, Tolerance>): set<string>
    requires ValidCase(expected) && ValidCase(got)
  {
    set v | v in expected && Noticed(expected, got, bands, v)
  }

  lemma WholeWalk(expected: Case, names: seq<string>, got: Case, bands: map<string, Tolerance>)
    requires ValidCase(expected) && ValidCase(got) && Lists(names, expected)
    requires forall v :: v in expected ==> v in got
    ensures Among(names, ChangedOnes(expected, got)) == [] <==> Unchanged(expected, got)
    ensures Among(names, NoticedOnes(expected, got, bands)) == [] <==> forall v :: !Noticed(expected, got, bands, v)
    ensures Unchanged(expected, got) ==> forall v :: !Noticed(expected, got, bands, v)
  {
    var changed, noticed := ChangedOnes(expected, got), NoticedOnes(expected, got, bands);
    NoneAmong(names, changed);
    NoneAmong(names, noticed);
    assert Unchanged(expected, got) <==> changed == {} by {
      if v :| v in expected && !BitwiseEqual(expected[v], got[v]) {
        assert v in changed;
      }
    }
    if v :| Noticed(expected, got, bands, v) {
      assert v in noticed;
    }
  }

  /** What a status names: the first expected variable without an answer; every changed answer no band
      accepts; every changed answer. The lists are in the order of the names. */
  ghost predicate NamesExactly(status: Status, expected: Case, names: seq<string>, got: Case, bands: map<string, Tolerance>)
    requires ValidCase(expected) && ValidCase(got)
  {
    match status
    case Missing(v) => exists k :: 0 <= k < |names| && names[k] == v && v !in got && AllIn(names[..k], got)
    case OutsideTheBand(outside) => outside == Among(names, NoticedOnes(expected, got, bands))
    case Equivalent => true
    case Gap(changed) => changed == Among(names, ChangedOnes(expected, got))
  }

  ghost predicate AllIn(names: seq<string>, got: Case) {
    forall v :: v in names ==> v in got
  }

  /** A changed answer whose comparison raises. */
  ghost predicate Raising(expected: Case, got: Case, bands: map<string, Tolerance>, v: string)
    requires ValidCase(expected) && ValidCase(got)
  {
    v in expected && v in got && !BitwiseEqual(expected[v], got[v]) &&
    CompareVariable(expected[v], got[v], BandOf(expected[v], v, bands)).Err?
  }

  /** Some changed answer raises before any is found missing. */
  ghost predicate RaisesFirst(expected: Case, names: seq<string>, got: Case, bands: map<string, Tolerance>)
    requires ValidCase(expected) && ValidCase(got)
  {
    exists k :: 0 <= k < |names| && Raising(expected, got, bands, names[k]) && AllIn(names[..k], got)
  }

  /** Nothing among the names is missing or raises. */
  ghost predicate Quiet(expected: Case, names: seq<string>, got: Case, bands: map<string, Tolerance>)
    requires ValidCase(expected) && ValidCase(got)
  {
    forall v :: v in names ==> v in got && !Raising(expected, got, bands, v)
  }

  lemma StopsAt(expected: Case, names: seq<string>, got: Case, bands: map<string, Tolerance>, i: nat)
    requires ValidCase(expected) && ValidCase(got)
    requires i <= |names| && Quiet(expected, names[..i], got, bands)
    ensures i == |names| || names[i] !in got ==> !RaisesFirst(expected, names, got, bands)
    ensures i < |names| && Raising(expected, got, bands, names[i]) ==> RaisesFirst(expected, names, got, bands)
  {
    forall k | 0 <= k < i ensures !Raising(expected, got, bands, names[k]) {
      assert names[k] in names[..i];
    }
    forall k | i < k < |names| ensures names[i] in names[..k] {
      assert names[..k][i] == names[i];
    }
    if i < |names| && Raising(expected, got, bands, names[i]) {
      assert AllIn(names[..i], got);
    }
  }

  /** The lists once the first `i` names have been walked. */
  ghost predicate Walked(expected: Case, names: seq<string>, got: Case, bands: map<string, Tolerance>, i: nat,
                         changed: seq<string>, outside: seq<string>)
    requires ValidCase(expected) && ValidCase(got) && i <= |names|
  {
    && Quiet(expected, names[..i], got, bands)
    && changed == Among(names[..i], ChangedOnes(expected, got))
    && outside == Among(names[..i], NoticedOnes(expected, got, bands))
  }

  lemma WalkedOneMore(expected: Case, names: seq<string>, got: Case, bands: map<string, Tolerance>, i: nat,
                      changed: seq<string>, outside: seq<string>)
    requires ValidCase(expected) && ValidCase(got) && i < |names| && names[i] in expected && names[i] in got
    requires Walked(expected, names, got, bands, i, changed, outside) && !Raising(expected, got, bands, names[i])
    ensures BitwiseEqual(expected[names[i]], got[names[i]]) ==>
      Walked(expected, names, got, bands, i + 1, changed, outside)
    ensures !BitwiseEqual(expected[names[i]], got[names[i]]) ==>
      Walked(expected, names, got, bands, i + 1, changed + [names[i]],
        if Noticed(expected, got, bands, names[i]) then outside + [names[i]] else outside)
  {
    QuietOneMore(expected, names, got, bands, i);
    var v := names[i];
    AmongOneMore(names, ChangedOnes(expected, got), i);
    AmongOneMore(names, NoticedOnes(expected, got, bands), i);
    assert v in ChangedOnes(expected, got) <==> !BitwiseEqual(expected[v], got[v]);
    assert v in NoticedOnes(expected, got, bands) <==> Noticed(expected, got, bands, v);
  }

  lemma QuietOneMore(expected: Case, names: seq<string>, got: Case, bands: map<string, Tolerance>, i: nat)
    requires ValidCase(expected) && ValidCase(got) && i < |names| && names[i] in got
    requires Quiet(expected, names[..i], got, bands) && !Raising(expected, got, bands, names[i])
    ensures Quiet(expected, names[..i + 1], got, bands)
  {
    assert names[..i + 1] == names[..i] + [names[i]];
  }

  lemma WalkedAll(expected: Case, names: seq<string>, got: Case, bands: map<string, Tolerance>,
                  changed: seq<string>, outside: seq<string>)
    requires ValidCase(expected) && ValidCase(got) && Lists(names, expected)
    requires Walked(expected, names, got, bands, |names|, changed, outside)
    ensures !RaisesFirst(expected, names, got, bands)
    ensures changed == Among(names, ChangedOnes(expected, got)) && outside == Among(names, NoticedOnes(expected, got, bands))
    ensures changed == [] <==> Unchanged(expected, got)
    ensures outside == [] <==> forall v :: !Noticed(expected, got, bands, v)
    ensures outside != [] ==> changed != []
  {
    assert names[..|names|] == names;
    StopsAt(expected, names, got, bands, |names|);
    WholeWalk(expected, names, got, bands);
  }

  lemma StopsAtMissing(expected: Case, names: seq<string>, got: Case, bands: map<string, Tolerance>, i: nat)
    requires ValidCase(expected) && ValidCase(got) && Lists(names, expected)
    requires i < |names| && Quiet(expected, names[..i], got, bands) && names[i] !in got
    ensures !RaisesFirst(expected, names, got, bands)
    ensures Noticed(expected, got, bands, names[i]) && !Unchanged(expected, got)
    ensures NamesExactly(Missing(names[i]), expected, names, got, bands)
  {
    StopsAt(expected, names, got, bands, i);
    assert names[i] in expected && AllIn(names[..i], got);
  }

  /** Walks the expected variables by name; raises where the comparator does. */
  method Classify(expected: Case, names: seq<string>, got: Case, bands: map<string, Tolerance>)
    returns (r: Result<Status, CompareError>)
    requires ValidCase(expected) && ValidCase(got) && Lists(names, expected)
    ensures r.Err? <==> RaisesFirst(expected, names, got, bands)
    ensures r.Ok? ==> (r.value.Killed() <==> exists v :: Noticed(expected, got, bands, v))
    ensures r.Ok? ==> (r.value.Equivalent? <==> Unchanged(expected, got))
    ensures r.Ok? ==> (r.value.Gap? <==>
              !Unchanged(expected, got) && forall v :: !Noticed(expected, got, bands, v))
    ensures r.Ok? ==> NamesExactly(r.value, expected, names, got, bands)
  {
    var changed: seq<string> := [];
    var outside: seq<string> := [];
    for i := 0 to |names|
      invariant Walked(expected, names, got, bands, i, changed, outside)
    {
      var v := names[i];
      assert v in names;
      if v !in got {
        StopsAtMissing(expected, names, got, bands, i);
        return Ok(Missing(v));
      }
      StopsAt(expected, names, got, bands, i);
      ghost var before := (changed, outside);
      if !BitwiseEqual(expected[v], got[v]) {
        changed := changed + [v];
        var outcome := CompareVariable(expected[v], got[v], BandOf(expected[v], v, bands));
        if outcome.Err? {
          return Err(outcome.error);
        }
        if !outcome.value.pass {
          outside := outside + [v];
        }
      }
      WalkedOneMore(expected, names, got, bands, i, before.0, before.1);
    }
    WalkedAll(expected, names, got, bands, changed, outside);
    if changed == [] {
      return Ok(Equivalent);
    }
    if outside != [] {
      return Ok(OutsideTheBand(outside));
    }
    r := Ok(Gap(changed));
  }

  lemma RaisesFirstRaises(expected: Case, names: seq<string>, got: Case, bands: map<string, Tolerance>)
    requires ValidCase(expected) && ValidCase(got) && RaisesFirst(expected, names, got, bands)
    ensures !RaisesNowhere(expected, got, bands)
  {
    var k :| 0 <= k < |names| && Raising(expected, got, bands, names[k]) && AllIn(names[..k], got);
    assert names[k] in expected && names[k] in got;
  }

  /** Every captured answer is one the policy can judge. */
  ghost predicate Judged(expected: Case, bands: map<string, Tolerance>)
    requires ValidCase(expected)
  {
    forall v :: v in expected ==> Judgeable(expected[v], BandOf(expected[v], v, bands))
  }

  lemma JudgedHasItsBand(expected: Case, got: Case, bands: map<string, Tolerance>, v: string)
    requires ValidCase(expected) && ValidCase(got) && Judged(expected, bands)
    requires v in expected && v in got
    ensures VariableOutcome(expected, got, bands, v) ==
            CompareVariable(expected[v], got[v], BandOf(expected[v], v, bands))
    ensures VariableOutcome(expected, got, bands, v).Ok?
  {
    assert Judgeable(expected[v], BandOf(expected[v], v, bands));
    if expected[v].dtype.Exact? {
      assert BandFor(expected[v], v, bands) == Some(NoMapping);
    }
  }

  /** Over judgeable answers neither reader raises, and a mutant is killed
      exactly when the comparator fails the case. */
  lemma KilledExactlyWhenTheCaseFails(expected: Case, got: Case, bands: map<string, Tolerance>)
    requires ValidCase(expected) && ValidCase(got) && Judged(expected, bands)
    ensures RaisesNowhere(expected, got, bands) && !CaseRaises(expected, got, bands)
    ensures (exists v :: Noticed(expected, got, bands, v)) <==> !CasePasses(expected, got, bands)
  {
    forall v | v in expected
      ensures VariableOutcome(expected, got, bands, v).Ok?
      ensures v in got ==> CompareVariable(expected[v], got[v], BandOf(expected[v], v, bands)).Ok?
      ensures Noticed(expected, got, bands, v) <==> !VariableOutcome(expected, got, bands, v).value.pass
    {
      if v in got {
        JudgedHasItsBand(expected, got, bands, v);
        if BitwiseEqual(expected[v], got[v]) {
          assert expected[v] == got[v];
          AgreesWithItself(expected[v], BandOf(expected[v], v, bands));
        }
      }
    }
  }

  /** The two readers tell one story about a submission. */
  ghost predicate Agree(expected: Case, got: Case, bands: map<string, Tolerance>)
    requires ValidCase(expected) && ValidCase(got)
  {
    && !CaseRaises(expected, got, bands)
    && ((exists v :: Noticed(expected, got, bands, v)) <==> !CasePasses(expected, got, bands))
  }

  /** Judgeable answers are exactly what it takes for them to agree on every
      submission: an answer that is not finite, or has no usable band, is a
      fail to the comparator even when the mutant left it untouched. */
  lemma AgreeOnEverySubmissionExactlyWhenJudged(expected: Case, bands: map<string, Tolerance>)
    requires ValidCase(expected)
    ensures Judged(expected, bands) <==>
      forall got: Case :: ValidCase(got) ==> Agree(expected, got, bands)
  {
    if Judged(expected, bands) {
      forall got: Case | ValidCase(got) ensures Agree(expected, got, bands) {
        KilledExactlyWhenTheCaseFails(expected, got, bands);
      }
    } else {
      var v :| v in expected && !Judgeable(expected[v], BandOf(expected[v], v, bands));
      AgreesWithItself(expected[v], BandOf(expected[v], v, bands));
      if BandFor(expected[v], v, bands).None? {
        assert VariableOutcome(expected, expected, bands, v).Err?;
      } else {
        UnjudgeableFailsItself(expected, bands, v);
      }
      assert !Agree(expected, expected, bands);
    }
  }

  lemma UnjudgeableFailsItself(expected: Case, bands: map<string, Tolerance>, v: string)
    requires ValidCase(expected) && v in expected && BandFor(expected[v], v, bands).Some?
    requires !Passes(expected[v], expected[v], BandOf(expected[v], v, bands))
    ensures !Agree(expected, expected, bands)
  {
    assert VariableOutcome(expected, expected, bands, v) ==
           CompareVariable(expected[v], expected[v], BandOf(expected[v], v, bands));
    forall w ensures !Noticed(expected, expected, bands, w) {
    }
  }
}
