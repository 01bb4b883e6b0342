/** The service itself, step by step: loops over rows and records, one append a claim, one log line a
    request. Each of its methods is proved to do what the functions of Gateway say. */
module RunService {
  import opened Wrappers
  import opened Catalog
  import opened Evidence
  import opened Gateway

  // ---------------------------------------------------------------- the builder's sidecar

  method TargetStillHeld(report: Report, target: Target) returns (held: bool)
    ensures held == TargetHeld(report, target)
  {
    var artifacts := target.Artifacts();
    for i := 0 to |artifacts|
      invariant forall k :: 0 <= k < i ==> ArtifactHeld(report, artifacts[k])
    {
      var a := artifacts[i];
      assert a in target.Artifacts();
      if a.path !in report.files {
        return false;
      }
      var stillThere := report.files[a.path];
      if !stillThere.verified || stillThere.digest != a.digest || stillThere.size != a.size {
        return false;
      }
    }
    held := true;
  }

  method RecordStillHeld(builder: BuilderState, record: BuildRecord, identity: nat) returns (held: bool)
    ensures held == RecordHeld(builder, record, identity)
  {
    if record.attempt == "" || record.targets == [] {
      return false;
    }
    var report := builder.ReportOn(record.attempt);
    if !report.ok || report.identity != identity {
      return false;
    }
    for i := 0 to |record.targets|
      invariant forall k :: 0 <= k < i ==> TargetHeld(report, record.targets[k])
    {
      var ok := TargetStillHeld(report, record.targets[i]);
      if !ok {
        return false;
      }
    }
    held := true;
  }

  /** Whether the builder confirms every file of every declared record. */
  method RecordsStillHeld(builder: Option<BuilderState>, records: seq<BuildRecord>, identity: nat) returns (held: bool)
    ensures held == RecordsHeld(builder, records, identity)
  {
    if builder.None? || records == [] {
      return false;
    }
    for i := 0 to |records|
      invariant forall k :: 0 <= k < i ==> RecordHeld(builder.value, records[k], identity)
    {
      var ok := RecordStillHeld(builder.value, records[i], identity);
      if !ok {
        return false;
      }
    }
    held := true;
  }

  // ---------------------------------------------------------------- the gate

  lemma {:induction false} MissingAmongOneMore(run: Run, required: seq<PredicateName>, p: PredicateName)
    ensures MissingAmong(run, required + [p]) == MissingAmong(run, required) + MissingAmong(run, [p])
    decreases |required|
  {
    if required == [] {
      assert [] + [p] == [p];
      assert MissingAmong(run, []) + MissingAmong(run, [p]) == MissingAmong(run, [p]);
    } else {
      assert (required + [p])[1..] == required[1..] + [p];
      MissingAmongOneMore(run, required[1..], p);
      assert (required + [p])[0] == required[0];
    }
  }

  lemma MissingOne(run: Run, p: PredicateName)
    ensures var row := RequirementStatus(run.claims, p, run.at.subjects.For(p), run.Materials(p));
      MissingAmong(run, [p]) == if row.status.Present? then [] else [row]
  {
    assert [p][1..] == [];
  }

  lemma MissingNext(run: Run, required: seq<PredicateName>, i: nat, row: Row)
    requires i < |required| && var p := required[i];
      row == RequirementStatus(run.claims, p, run.at.subjects.For(p), run.Materials(p))
    ensures row.status.Present? ==> MissingAmong(run, required[..i + 1]) == MissingAmong(run, required[..i])
    ensures !row.status.Present? ==> MissingAmong(run, required[..i + 1]) == MissingAmong(run, required[..i]) + [row]
  {
    assert required[..i + 1] == required[..i] + [required[i]];
    MissingAmongOneMore(run, required[..i], required[i]);
    MissingOne(run, required[i]);
  }

  method MissingPrerequisites(run: Run, required: seq<PredicateName>) returns (rows: seq<Row>)
    ensures rows == MissingAmong(run, required)
  {
    rows := [];
    for i := 0 to |required|
      invariant rows == MissingAmong(run, required[..i])
    {
      var p := required[i];
      var row := RequirementStatus(run.claims, p, run.at.subjects.For(p), run.Materials(p));
      MissingNext(run, required, i, row);
      if !row.status.Present? {
        rows := rows + [row];
      }
    }
    assert required[..|required|] == required;
  }

  method MissingRows(run: Run) returns (rows: seq<Row>)
    ensures rows == MissingRequirements(run)
  {
    rows := [];
    if RestsOnBuild(run.action) && run.buildClaim.None? {
      var row := RequirementStatus(run.claims, BuildPredicate(run.at.phase), run.at.subjects.tree, run.at.evidence);
      if !row.status.Present? {
        rows := [row];
      }
    }
    var more := MissingPrerequisites(run, Prerequisites(run.action));
    rows := rows + more;
  }

  /** The last claim of each emitted predicate, as far as there is one of each. */
  method FindDuplicates(run: Run, emitted: seq<PredicateName>) returns (existing: Option<seq<Claim>>)
    ensures existing.Some? <==> AllDuplicated(run, emitted)
    ensures existing.Some? ==> existing.value == DuplicatesOf(run, emitted)
  {
    var found: seq<Claim> := [];
    for i := 0 to |emitted|
      invariant |found| == i
      invariant forall k :: 0 <= k < i ==>
        DuplicateOf(run, emitted[k]).Some? && found[k] == run.claims[DuplicateOf(run, emitted[k]).value]
    {
      var one := DuplicateOf(run, emitted[i]);
      if one.None? {
        assert emitted[i] in emitted;
        return None;
      }
      found := found + [run.claims[one.value]];
    }
    existing := Some(found);
  }

  method FiledAlready(run: Run) returns (existing: seq<Claim>)
    ensures existing == ClaimsAlreadyFiled(run)
  {
    if !Deterministic(run.action) {
      return [];
    }
    var emitted := Emits(run.action);
    var found := FindDuplicates(run, emitted);
    if found.None? || emitted == [] {
      return [];
    }
    if run.Builds() {
      var held := RecordsStillHeld(run.builder, found.value[0].detail.records, run.identity);
      if !held {
        return [];
      }
    }
    existing := found.value;
  }

  // ---------------------------------------------------------------- recording

  lemma {:induction false} MaxIdOneMore(claims: seq<Claim>, c: Claim)
    requires c.id > MaxId(claims)
    ensures MaxId(claims + [c]) == c.id
  {
    assert (claims + [c])[..|claims|] == claims;
  }

  lemma WholeIsAPrefix<T>(s: seq<T>)
    ensures s[..|s|] == s
  {
  }

  lemma OneMore<T>(a: seq<T>, b: seq<T>, x: T)
    ensures a + b + [x] == a + (b + [x])
  {
  }

  predicate AllChecked(run: Run, results: seq<(PredicateName, CheckResult)>) {
    forall i :: 0 <= i < |results| ==> Checked(run, results[i].0, results[i].1)
  }

  lemma ClaimsFromOneMore(run: Run, results: seq<(PredicateName, CheckResult)>, i: nat, next: nat)
    requires i < |results| && AllChecked(run, results)
    ensures AllChecked(run, results[..i]) && AllChecked(run, results[..i + 1])
    ensures ClaimsFrom(run, results[..i + 1], next)
      == ClaimsFrom(run, results[..i], next) + [ClaimFrom(run, next + i, results[i].0, results[i].1)]
  {
    assert forall k :: 0 <= k < i ==> results[..i][k] == results[..i + 1][k];
  }

  /** What one request leaves in the request log. */
  datatype Outcome = LoggedClaim | LoggedRefused | LoggedDuplicate | LoggedError

  datatype LogLine = LogLine(action: ActionName, outcome: Outcome, claimId: Option<nat>, missing: seq<Row>)

  function OnlyId(claims: seq<Claim>): Option<nat> {
    if |claims| == 1 then Some(claims[0].id) else None
  }

  /** A request is logged once, unless it never reached the service. */
  function LinesFor(action: ActionName, response: Response): seq<LogLine> {
    match response
    case BadRequest => []
    case Unavailable => []
    case Errored => [LogLine(action, LoggedError, None, [])]
    case Refused(missing) => [LogLine(action, LoggedRefused, None, missing)]
    case Duplicate(existing) => [LogLine(action, LoggedDuplicate, OnlyId(existing), [])]
    case Filed(filed) => [LogLine(action, LoggedClaim, OnlyId(filed), [])]
  }

  class Service {
    var claims: seq<Claim>
    var requests: seq<LogLine>
    var builder: Option<BuilderState>

    constructor ()
      ensures claims == [] && requests == [] && builder == None
    {
      claims, requests, builder := [], [], None;
    }

    /** A run whose ledger and builder are this service's. */
    ghost predicate Serves(run: Run)
      reads this
    {
      run.claims == claims && run.builder == builder
    }

    method Log(action: ActionName, response: Response)
      modifies this`requests
      ensures requests == old(requests) + LinesFor(action, response)
    {
      requests := requests + LinesFor(action, response);
    }

    /** Builds again what the builder lost, if it did and may; only the builder moves. */
    method RestoreBuild(run: Run, e: Effects) returns (restored: Restored)
      requires Serves(run)
      modifies this`builder
      ensures restored == RestoredBuild(run, e) && Serves(restored.run)
    {
      if !RestsOnBuild(run.action) || run.buildClaim.None? {
        return Restored(run, None);
      }
      if run.cohort == {} {
        return Restored(run, Some(Unavailable));
      }
      var held := RecordsStillHeld(run.builder, run.buildClaim.value.detail.records, run.identity);
      if held {
        return Restored(run, None);
      }
      var build := ProducerOf(BuildPredicate(run.at.phase));
      if !run.Configured(Needs(build)) {
        return Restored(run, Some(Errored));
      }
      var required := Prerequisites(build);
      for i := 0 to |required|
        invariant forall k :: 0 <= k < i ==> ClaimToRestOn(run, required[k]).Some?
      {
        if ClaimToRestOn(run, required[i]).None? {
          return Restored(run, Some(Errored));
        }
      }
      var after := run.After(e.afterRebuild);
      builder := after.builder;
      if e.rebuilt.None? || e.rebuilt.value.verdict != Pass || e.rebuilt.value.BinaryMaterials() != run.cohort {
        return Restored(after, Some(Errored));
      }
      held := RecordsStillHeld(after.builder, e.rebuilt.value.records, run.identity);
      restored := Restored(after, if held then None else Some(Errored));
    }

    /** Every result is looked at before any is recorded. */
    method ResultsAcceptable(run: Run, results: seq<(PredicateName, CheckResult)>) returns (ok: bool)
      ensures ok <==> forall i :: 0 <= i < |results| ==> Kept(run, results[i].1) && Checked(run, results[i].0, results[i].1)
    {
      if run.Builds() {
        for i := 0 to |results|
          invariant forall k :: 0 <= k < i ==> Kept(run, results[k].1)
        {
          if results[i].1.verdict == Pass {
            var held := RecordsStillHeld(run.builder, results[i].1.records, run.identity);
            if !held {
              return false;
            }
          }
        }
      }
      for i := 0 to |results|
        invariant forall k :: 0 <= k < i ==> Checked(run, results[k].0, results[k].1)
      {
        if !Checked(run, results[i].0, results[i].1) {
          return false;
        }
      }
      ok := true;
    }

    /** One claim, with the next free id, at the end of the ledger. */
    method Record(run: Run, p: PredicateName, r: CheckResult) returns (c: Claim)
      requires Checked(run, p, r)
      modifies this`claims
      ensures c == ClaimFrom(run, MaxId(old(claims)) + 1, p, r) && claims == old(claims) + [c]
    {
      c := ClaimFrom(run, MaxId(claims) + 1, p, r);
      claims := claims + [c];
    }

    method DispatchAndRecord(run: Run, e: Effects) returns (response: Response, ghost done: Dispatched)
      requires Serves(run)
      modifies this`builder, this`claims
      ensures done == Gateway.DispatchAndRecord(run, e) && response == done.response && Serves(done.run)
    {
      done := Gateway.DispatchAndRecord(run, e);
      if !run.Configured(Needs(run.action)) {
        return Errored, done;
      }
      var after := run.After(e.afterCheck);
      builder := after.builder;
      match e.answer {
        case Raised => response := Errored;
        case Answered(results) =>
          var ok := ResultsAcceptable(after, results);
          if !ok {
            return Errored, done;
          }
          var filed := RecordAll(after, results);
          response := Filed(filed);
      }
    }

    /** The loop's body: the next claim of the specification, and the id after it free again. */
    method RecordNext(
      run: Run, results: seq<(PredicateName, CheckResult)>, i: nat, ghost next: nat, ghost was: seq<Claim>, filed: seq<Claim>
    ) returns (more: seq<Claim>)
      requires i < |results| && AllChecked(run, results)
      requires Recorded(run, results, i, next, was, filed)
      modifies this`claims
      ensures Recorded(run, results, i + 1, next, was, more)
    {
      ClaimsFromOneMore(run, results, i, next);
      ghost var before := claims;
      var c := Record(run, results[i].0, results[i].1);
      MaxIdOneMore(before, c);
      OneMore(was, filed, c);
      more := filed + [c];
    }

    /** `filed`, the claims of the first `i` results, were appended to `was`. */
    ghost predicate Recorded(
      run: Run, results: seq<(PredicateName, CheckResult)>, i: nat, next: nat, was: seq<Claim>, filed: seq<Claim>)
      requires i <= |results|
      reads this`claims
    {
      && AllChecked(run, results[..i]) && filed == ClaimsFrom(run, results[..i], next)
      && claims == was + filed && MaxId(claims) + 1 == next + i
    }

    method RecordAll(run: Run, results: seq<(PredicateName, CheckResult)>) returns (filed: seq<Claim>)
      requires AllChecked(run, results)
      modifies this`claims
      ensures filed == ClaimsFrom(run, results, MaxId(old(claims)) + 1) && claims == old(claims) + filed
    {
      filed := [];
      ghost var next, was := MaxId(claims) + 1, claims;
      assert results[..0] == [] && claims == was + [];
      for i := 0 to |results|
        invariant Recorded(run, results, i, next, was, filed)
      {
        filed := RecordNext(run, results, i, next, was, filed);
      }
      WholeIsAPrefix(results);
    }

    /** POST /run: the ledger, the builder and the answer are those of the specification, and the
        request log has gained the one line that goes with the answer. */
    method Execute(at: Context, now: nat, oracle: bool, request: Request, e: Effects) returns (response: Response)
      modifies this
      ensures (World(claims, at, now, builder, oracle), response)
        == Gateway.Execute(World(old(claims), at, now, old(builder), oracle), request, e)
      ensures requests == old(requests) + LinesFor(request.action, response)
    {
      if PhaseOfAction(request.action) != at.phase {
        return BadRequest;
      }
      var resolved := Resolve(World(claims, at, now, builder, oracle), request);
      response := Answer(resolved, e);
      Log(request.action, response);
    }

    method Answer(resolved: Run, e: Effects) returns (response: Response)
      requires Serves(resolved)
      modifies this`builder, this`claims
      ensures response == Executed(resolved, e).response && Serves(Executed(resolved, e).run)
    {
      var restored := RestoreBuild(resolved, e);
      var run := restored.run;
      if restored.stopped.Some? {
        return restored.stopped.value;
      }
      var missing := MissingRows(run);
      if missing != [] {
        return Refused(missing);
      }
      var existing := FiledAlready(run);
      if existing != [] {
        return Duplicate(existing);
      }
      ghost var done;
      response, done := DispatchAndRecord(run, e);
    }
  }
}
