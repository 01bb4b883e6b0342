/** One POST /run as a function of the ledger, the backends and what the checks answer: restore the
    build, refuse, answer from the ledger, or dispatch and record. */
module Gateway {
  import opened Wrappers
  import opened Workflow
  import opened Catalog
  import opened Evidence

  // ---------------------------------------------------------------- what the builder holds

  /** One retained file, as the builder reports it now. */
  datatype Retained = Retained(digest: nat, size: Option<nat>, verified: bool)

  datatype Report = Report(ok: bool, identity: nat, files: map<string, Retained>)

  datatype BuilderState = BuilderState(identity: nat, reports: map<string, Report>)
  {
    function ReportOn(attempt: string): Report {
      if attempt in reports then reports[attempt] else Report(false, identity, map[])
    }
  }

  predicate ArtifactHeld(report: Report, a: Artifact) {
    a.path in report.files && report.files[a.path] == Retained(a.digest, a.size, true)
  }

  predicate TargetHeld(report: Report, t: Target) {
    forall a :: a in t.Artifacts() ==> ArtifactHeld(report, a)
  }

  predicate RecordHeld(builder: BuilderState, record: BuildRecord, identity: nat) {
    && record.attempt != "" && record.targets != []
    && builder.ReportOn(record.attempt).ok && builder.ReportOn(record.attempt).identity == identity
    && forall t :: t in record.targets ==> TargetHeld(builder.ReportOn(record.attempt), t)
  }

  /** Whether the builder confirms every file of every record; no records are never confirmed. */
  predicate RecordsHeld(builder: Option<BuilderState>, records: seq<BuildRecord>, identity: nat) {
    && builder.Some? && records != []
    && forall r :: r in records ==> RecordHeld(builder.value, r, identity)
  }

  /** What is held names something: records the builder confirms declare at least one executable. */
  lemma HeldRecordsNameExecutables(builder: Option<BuilderState>, records: seq<BuildRecord>, identity: nat)
    requires RecordsHeld(builder, records, identity)
    ensures Executables(records) != {}
  {
    var r := records[0];
    assert r in records && RecordHeld(builder.value, r, identity);
    var t := r.targets[0];
    assert t in r.targets && t.executable in t.Artifacts();
    assert Executable(t.executable.digest) in Executables(records);
  }

  /** The builder has verified, under this identity, a file with these bytes. */
  ghost predicate Keeps(builder: BuilderState, identity: nat, s: Subject) {
    exists attempt, path ::
      && builder.ReportOn(attempt).ok && builder.ReportOn(attempt).identity == identity
      && path in builder.ReportOn(attempt).files
      && builder.ReportOn(attempt).files[path].verified && s == Executable(builder.ReportOn(attempt).files[path].digest)
  }

  /** And every executable they declare is there: the builder keeps a file with its bytes. */
  lemma HeldExecutablesAreKept(builder: Option<BuilderState>, records: seq<BuildRecord>, identity: nat, s: Subject)
    requires RecordsHeld(builder, records, identity) && s in Executables(records)
    ensures Keeps(builder.value, identity, s)
  {
    var r, t, a :| r in records && t in r.targets && a in t.Artifacts() && s == Executable(a.digest);
    var report := builder.value.ReportOn(r.attempt);
    assert RecordHeld(builder.value, r, identity) && TargetHeld(report, t) && ArtifactHeld(report, a);
    assert a.path in report.files && report.files[a.path].verified;
  }

  // ---------------------------------------------------------------- what checks answer

  datatype CheckResult = CheckResult(
    verdict: Verdict,
    detail: Detail,
    materials: set<Subject>,
    subjectKind: string,
    measuresOtherBinaries: bool,
    measured: set<nat>,
    records: seq<BuildRecord>)
  {
    function BinaryMaterials(): set<Subject> {
      (set d | d in measured :: Executable(d)) + Executables(records)
    }
  }

  /** A check raises, or answers about some predicate types, each once. */
  datatype Answer = Raised | Answered(results: seq<(PredicateName, CheckResult)>)

  /** Everything a request meets that the ledger does not decide: what rebuilding a lost build
      answers, what the check answers, and what the builder holds after each. */
  datatype Effects = Effects(rebuilt: Option<CheckResult>, afterRebuild: BuilderState, answer: Answer, afterCheck: BuilderState)

  datatype Response =
    | BadRequest
    | Unavailable
    | Errored
    | Refused(missing: seq<Row>)
    | Duplicate(existing: seq<Claim>)
    | Filed(filed: seq<Claim>)

  // ---------------------------------------------------------------- one request

  /** A request's context, fixed when it is resolved; only the builder moves under it. */
  datatype Run = Run(
    action: ActionName,
    configHash: nat,
    claims: seq<Claim>,
    at: Context,
    now: nat,
    builder: Option<BuilderState>,
    oracle: bool,
    identity: nat,
    buildClaim: Option<Claim>,
    cohort: set<Subject>)
  {
    function Materials(p: PredicateName): set<Subject> { MaterialsFor(claims, at, cohort, p) }

    predicate Configured(needs: set<Backend>) {
      (Builder in needs ==> builder.Some?) && (Oracle in needs ==> oracle)
    }

    predicate Builds() { BuildPredicate(at.phase) in Emits(action) }

    function After(b: BuilderState): Run { this.(builder := if builder.Some? then Some(b) else None) }
  }

  /** The ledger and what surrounds it. */
  datatype World = World(claims: seq<Claim>, at: Context, now: nat, builder: Option<BuilderState>, oracle: bool)

  datatype Request = Request(action: ActionName, configHash: nat)

  function Resolve(w: World, request: Request): Run {
    var build := CurrentBuild(w.claims, w.at);
    Run(request.action, request.configHash, w.claims, w.at, w.now, w.builder, w.oracle,
        if w.builder.Some? then w.builder.value.identity else 0,
        if build.Some? then Some(w.claims[build.value]) else None,
        Cohort(w.claims, w.at))
  }

  /** The latest claim a check of `run` reads for `p`, passing or not. */
  function ClaimToRestOn(run: Run, p: PredicateName): Option<nat> {
    Latest(run.claims, p, run.at.subjects.For(p), run.Materials(p))
  }

  /** A run whose build is confirmed or rebuilt, or what the request is answered with instead. */
  datatype Restored = Restored(run: Run, stopped: Option<Response>)

  function RestoredBuild(run: Run, e: Effects): Restored {
    if !RestsOnBuild(run.action) || run.buildClaim.None? then Restored(run, None)
    else if run.cohort == {} then Restored(run, Some(Unavailable))
    else if RecordsHeld(run.builder, run.buildClaim.value.detail.records, run.identity) then Restored(run, None)
    else
      var build := ProducerOf(BuildPredicate(run.at.phase));
      if !run.Configured(Needs(build)) || exists p :: p in Prerequisites(build) && ClaimToRestOn(run, p).None?
      then Restored(run, Some(Errored))
      else
        Restored(run.After(e.afterRebuild),
          if && e.rebuilt.Some? && e.rebuilt.value.verdict == Pass && e.rebuilt.value.BinaryMaterials() == run.cohort
             && RecordsHeld(run.After(e.afterRebuild).builder, e.rebuilt.value.records, run.identity)
          then None
          else Some(Errored))
  }

  function MissingAmong(run: Run, required: seq<PredicateName>): seq<Row> {
    if required == [] then []
    else
      var row := RequirementStatus(run.claims, required[0], run.at.subjects.For(required[0]), run.Materials(required[0]));
      (if row.status.Present? then [] else [row]) + MissingAmong(run, required[1..])
  }

  /** The rows a request is refused with. */
  function MissingRequirements(run: Run): seq<Row> {
    var row := RequirementStatus(run.claims, BuildPredicate(run.at.phase), run.at.subjects.tree, run.at.evidence);
    (if RestsOnBuild(run.action) && run.buildClaim.None? && !row.status.Present? then [row] else [])
    + MissingAmong(run, Prerequisites(run.action))
  }

  function DuplicateOf(run: Run, p: PredicateName): Option<nat> {
    FindDuplicate(run.claims, p, run.at.subjects.For(p), run.configHash, run.Materials(p))
  }

  predicate AllDuplicated(run: Run, emitted: seq<PredicateName>) {
    forall p :: p in emitted ==> DuplicateOf(run, p).Some?
  }

  function DuplicatesOf(run: Run, emitted: seq<PredicateName>): (r: seq<Claim>)
    requires AllDuplicated(run, emitted)
    ensures |r| == |emitted| && forall i :: 0 <= i < |r| ==> r[i] == run.claims[DuplicateOf(run, emitted[i]).value]
  {
    seq(|emitted|, i requires 0 <= i < |emitted| => run.claims[DuplicateOf(run, emitted[i]).value])
  }

  /** The claims that already answer an identical request, or none. */
  function ClaimsAlreadyFiled(run: Run): seq<Claim> {
    var emitted := Emits(run.action);
    if !Deterministic(run.action) || emitted == [] || !AllDuplicated(run, emitted) then []
    else
      var existing := DuplicatesOf(run, emitted);
      if run.Builds() && !RecordsHeld(run.builder, existing[0].detail.records, run.identity) then [] else existing
  }

  /** A result is refused when it is about no subject of the request, or passes on executables the
      current build did not name. */
  predicate Checked(run: Run, p: PredicateName, r: CheckResult) {
    && run.at.subjects.Named(r.subjectKind).Some?
    && (r.verdict == Pass && p !in FOUNDATION && !r.measuresOtherBinaries ==> r.BinaryMaterials() <= run.cohort)
  }

  predicate Kept(run: Run, r: CheckResult) {
    run.Builds() && r.verdict == Pass ==> RecordsHeld(run.builder, r.records, run.identity)
  }

  function MaxId(claims: seq<Claim>): (n: nat)
    ensures forall i :: 0 <= i < |claims| ==> claims[i].id <= n
  {
    if claims == [] then 0
    else
      var n := MaxId(claims[..|claims| - 1]);
      assert forall i :: 0 <= i < |claims| - 1 ==> claims[..|claims| - 1][i] == claims[i];
      if claims[|claims| - 1].id > n then claims[|claims| - 1].id else n
  }

  function ClaimFrom(run: Run, id: nat, p: PredicateName, r: CheckResult): Claim
    requires Checked(run, p, r)
  {
    Claim(id, run.now, run.at.subjects.Named(r.subjectKind).value, p, run.configHash, r.verdict, r.detail,
      run.at.evidence + (if p in FOUNDATION then {} else run.cohort) + r.BinaryMaterials() + r.materials,
      SCHEMA_VERSION)
  }

  /** The claims a dispatch appends, in the order of its results, with the next free ids. */
  function ClaimsFrom(run: Run, results: seq<(PredicateName, CheckResult)>, next: nat): (r: seq<Claim>)
    requires forall i :: 0 <= i < |results| ==> Checked(run, results[i].0, results[i].1)
    ensures |r| == |results|
    ensures forall i :: 0 <= i < |r| ==> r[i] == ClaimFrom(run, next + i, results[i].0, results[i].1)
  {
    seq(|results|, i requires 0 <= i < |results| => ClaimFrom(run, next + i, results[i].0, results[i].1))
  }

  datatype Dispatched = Dispatched(run: Run, response: Response)

  function DispatchAndRecord(run: Run, e: Effects): Dispatched {
    if !run.Configured(Needs(run.action)) then Dispatched(run, Errored)
    else
      var after := run.After(e.afterCheck);
      match e.answer
      case Raised => Dispatched(after, Errored)
      case Answered(results) =>
        if forall i :: 0 <= i < |results| ==> Kept(after, results[i].1) && Checked(after, results[i].0, results[i].1)
        then
          var filed := ClaimsFrom(after, results, MaxId(run.claims) + 1);
          Dispatched(after.(claims := run.claims + filed), Filed(filed))
        else Dispatched(after, Errored)
  }

  function PastTheRestore(run: Run, e: Effects): Dispatched {
    if MissingRequirements(run) != [] then Dispatched(run, Refused(MissingRequirements(run)))
    else if ClaimsAlreadyFiled(run) != [] then Dispatched(run, Duplicate(ClaimsAlreadyFiled(run)))
    else DispatchAndRecord(run, e)
  }

  function Executed(run: Run, e: Effects): Dispatched {
    var restored := RestoredBuild(run, e);
    if restored.stopped.Some? then Dispatched(restored.run, restored.stopped.value) else PastTheRestore(restored.run, e)
  }

  /** What POST /run does to the world, and what it answers. */
  function Execute(w: World, request: Request, e: Effects): (World, Response) {
    if PhaseOfAction(request.action) != w.at.phase then (w, BadRequest)
    else
      var done := Executed(Resolve(w, request), e);
      (w.(claims := done.run.claims, builder := done.run.builder), done.response)
  }

  // ---------------------------------------------------------------- the gate, in one statement each

  lemma {:induction false} MissingAmongExactly(run: Run, required: seq<PredicateName>)
    ensures MissingAmong(run, required) == []
      <==> forall p :: p in required ==> Met(run.claims, p, run.at.subjects.For(p), run.Materials(p))
    decreases |required|
  {
    if required != [] {
      MissingAmongExactly(run, required[1..]);
      assert forall p :: p in required <==> p == required[0] || p in required[1..];
    }
  }

  /** Nothing is missing exactly when every prerequisite is met in the request's own context, and a
      check that rests on a build has one to rest on. */
  lemma NothingMissingExactly(w: World, request: Request)
    ensures var run := Resolve(w, request);
      MissingRequirements(run) == [] <==>
        && (forall p :: p in Prerequisites(run.action) ==> MetNow(w.claims, w.at, p))
        && (RestsOnBuild(run.action) ==> CurrentBuild(w.claims, w.at).Some?)
  {
    MissingAmongExactly(Resolve(w, request), Prerequisites(request.action));
  }

  /** Restoring a build only ever moves the builder. */
  lemma RestoringKeepsTheRest(run: Run, e: Effects)
    ensures RestoredBuild(run, e).run == run.(builder := RestoredBuild(run, e).run.builder)
    ensures RestoredBuild(run, e).run.builder.Some? <==> run.builder.Some?
    ensures MissingRequirements(RestoredBuild(run, e).run) == MissingRequirements(run)
  {
    MissingIgnoresTheBuilder(run, RestoredBuild(run, e).run, Prerequisites(run.action));
  }

  /** A request that goes on past the restore finds at the builder records of nothing but the current
      build's executables, and of all of them but those a rebuild measured besides. */
  lemma RestoredBuildsAreHeld(w: World, request: Request, e: Effects)
    requires var run := Resolve(w, request);
      RestsOnBuild(run.action) && run.buildClaim.Some? && RestoredBuild(run, e).stopped.None?
    ensures Cohort(w.claims, w.at) != {}
    ensures exists records :: HeldAndOnly(RestoredBuild(Resolve(w, request), e).run, records, Measured(e))
  {
    var run := Resolve(w, request);
    var records := run.buildClaim.value.detail.records;
    if RecordsHeld(run.builder, records, run.identity) {
      assert HeldAndOnly(RestoredBuild(run, e).run, records, Measured(e));
    } else {
      assert HeldAndOnly(RestoredBuild(run, e).run, e.rebuilt.value.records, Measured(e));
    }
  }

  function Measured(e: Effects): set<Subject> {
    if e.rebuilt.Some? then set d | d in e.rebuilt.value.measured :: Executable(d) else {}
  }

  ghost predicate HeldAndOnly(run: Run, records: seq<BuildRecord>, measured: set<Subject>) {
    && RecordsHeld(run.builder, records, run.identity)
    && Executables(records) <= run.cohort <= Executables(records) + measured
  }

  lemma {:induction false} MissingIgnoresTheBuilder(run: Run, other: Run, required: seq<PredicateName>)
    requires other == run.(builder := other.builder)
    ensures MissingAmong(run, required) == MissingAmong(other, required)
    decreases |required|
  {
    if required != [] {
      MissingIgnoresTheBuilder(run, other, required[1..]);
    }
  }

  lemma DuplicatesIgnoreTheBuilder(run: Run, other: Run)
    requires !run.Builds() && other == run.(builder := other.builder)
    ensures ClaimsAlreadyFiled(other) == ClaimsAlreadyFiled(run)
  {
    var emitted := Emits(run.action);
    forall p ensures DuplicateOf(other, p) == DuplicateOf(run, p) {
    }
    assert AllDuplicated(other, emitted) == AllDuplicated(run, emitted);
    if AllDuplicated(run, emitted) {
      assert DuplicatesOf(other, emitted) == DuplicatesOf(run, emitted);
    }
  }

  /** And what the ledger would answer with. */
  lemma RestoringFindsTheSame(run: Run, e: Effects)
    ensures ClaimsAlreadyFiled(RestoredBuild(run, e).run) == ClaimsAlreadyFiled(run)
  {
    RestoringKeepsTheRest(run, e);
    if run.Builds() {
      ActionsAreOfOneKind(run.action, BuildPredicate(run.at.phase));
    } else {
      DuplicatesIgnoreTheBuilder(run, RestoredBuild(run, e).run);
    }
  }

  /** What was dispatched passed the gate on claims that were there before it, and what was filed is
      what the check answered. */
  ghost predicate Dispatchable(run: Run) {
    && (forall p :: p in Prerequisites(run.action) ==> Met(run.claims, p, run.at.subjects.For(p), run.Materials(p)))
    && (RestsOnBuild(run.action) ==> CurrentBuild(run.claims, run.at).Some? && run.cohort != {})
  }

  /** `filed` are the claims of `results`, with the next ids. */
  ghost predicate FiledFrom(run: Run, results: seq<(PredicateName, CheckResult)>, filed: seq<Claim>) {
    && |filed| == |results|
    && forall i :: 0 <= i < |filed| ==>
         && Checked(run, results[i].0, results[i].1) && Kept(run, results[i].1)
         && filed[i] == ClaimFrom(run, MaxId(run.claims) + 1 + i, results[i].0, results[i].1)
  }

  lemma DispatchAppends(run: Run, e: Effects)
    ensures var done := DispatchAndRecord(run, e);
      && done.run == run.(claims := done.run.claims, builder := done.run.builder)
      && (done.run.builder.Some? <==> run.builder.Some?)
      && (!done.response.Filed? ==> done.run.claims == run.claims && done.response == Errored)
      && (done.response.Filed? ==>
            && e.answer.Answered? && done.run.claims == run.claims + done.response.filed
            && FiledFrom(run.(builder := done.run.builder), e.answer.results, done.response.filed))
  {
    var after := run.After(e.afterCheck);
    if DispatchAndRecord(run, e).response.Filed? {
      assert after == run.(builder := DispatchAndRecord(run, e).run.builder);
    }
  }

  lemma ExecutedAppends(run: Run, e: Effects)
    ensures var done := Executed(run, e);
      && done.run == run.(claims := done.run.claims, builder := done.run.builder)
      && (done.run.builder.Some? <==> run.builder.Some?)
      && (!done.response.Filed? ==> done.run.claims == run.claims)
      && (done.response.Filed? ==>
            && MissingRequirements(run) == [] && RestoredBuild(run, e).stopped.None?
            && e.answer.Answered? && done.run.claims == run.claims + done.response.filed
            && FiledFrom(run.(builder := done.run.builder), e.answer.results, done.response.filed))
  {
    RestoringKeepsTheRest(run, e);
    DispatchAppends(RestoredBuild(run, e).run, e);
  }

  /** A request appends claims only by filing what a check answered, past the gate. */
  lemma OnlyDispatchAppends(w: World, request: Request, e: Effects)
    ensures var (w', response) := Execute(w, request, e);
      && w' == w.(claims := w'.claims, builder := w'.builder) && (w'.builder.Some? <==> w.builder.Some?)
      && (!response.Filed? ==> w'.claims == w.claims)
      && (response.Filed? ==>
            && w'.claims == w.claims + response.filed
            && PhaseOfAction(request.action) == w.at.phase && Dispatchable(Resolve(w, request)) && e.answer.Answered?
            && FiledFrom(Resolve(w, request).(builder := w'.builder), e.answer.results, response.filed))
  {
    if PhaseOfAction(request.action) == w.at.phase {
      ExecutedAppends(Resolve(w, request), e);
      NothingMissingExactly(w, request);
    }
  }

  // ---------------------------------------------------------------- what a check owes the gateway

  /** Materials a check may add of its own: inputs, never executables, observations or sentinels. */
  predicate IsInput(s: Subject) { s.Material? }

  /** The contract of the components: a check answers about what its action emits, each predicate
      once, on the subject the catalog says, and adds only inputs to the materials; the speedup check
      adds exactly the two observations it was handed. */
  predicate Honors(run: Run, results: seq<(PredicateName, CheckResult)>) {
    && (forall i :: 0 <= i < |results| ==> HonorsOne(run, results[i].0, results[i].1))
    && (forall i, j :: 0 <= i < j < |results| ==> results[i].0 != results[j].0)
  }

  predicate HonorsOne(run: Run, p: PredicateName, r: CheckResult) {
    && p in Emits(run.action) && r.subjectKind == SubjectKindOf(p)
    && (p != Performance_Speedup ==> forall s :: s in r.materials ==> IsInput(s))
    && (p == Performance_Speedup ==>
          && ClaimToRestOn(run, Timing_Port).Some? && ClaimToRestOn(run, Timing_Baseline).Some?
          && r.materials == {TimingMaterial(run.claims[ClaimToRestOn(run, Timing_Port).value]),
                             TimingMaterial(run.claims[ClaimToRestOn(run, Timing_Baseline).value])})
  }
}
