/** What POST /run answers, exactly, read from the ledger, the backends and what the checks said. */
module Answers {
  import opened Wrappers
  import opened Workflow
  import opened Catalog
  import opened Evidence
  import opened Gateway
  import opened RunService

  // ---------------------------------------------------------------- the build a request rests on

  /** Every file the records declare is retained under this identity: the same bytes, verified. */
  ghost predicate FilesHeld(builder: Option<BuilderState>, records: seq<BuildRecord>, identity: nat) {
    && builder.Some? && records != []
    && forall r :: r in records ==> AttemptHeld(builder.value, r, identity)
  }

  ghost predicate AttemptHeld(builder: BuilderState, r: BuildRecord, identity: nat) {
    && r.attempt != "" && r.targets != [] && r.attempt in builder.reports
    && builder.reports[r.attempt].ok && builder.reports[r.attempt].identity == identity
    && forall t, a :: t in r.targets && (a == t.executable || a in t.runtime) ==>
         a.path in builder.reports[r.attempt].files
         && builder.reports[r.attempt].files[a.path].digest == a.digest
         && builder.reports[r.attempt].files[a.path].size == a.size
         && builder.reports[r.attempt].files[a.path].verified
  }

  lemma ArtifactsAre(report: Report, t: Target)
    ensures TargetHeld(report, t) <==>
      forall a :: a == t.executable || a in t.runtime ==>
        a.path in report.files && report.files[a.path].digest == a.digest && report.files[a.path].size == a.size
        && report.files[a.path].verified
  {
    forall a ensures a in t.Artifacts() <==> a == t.executable || a in t.runtime {
      assert t.Artifacts()[0] == t.executable;
      if a in t.runtime {
        var i :| 0 <= i < |t.runtime| && t.runtime[i] == a;
        assert t.Artifacts()[i + 1] == a;
      }
    }
    forall a ensures ArtifactHeld(report, a) <==>
      a.path in report.files && report.files[a.path].digest == a.digest && report.files[a.path].size == a.size
      && report.files[a.path].verified
    {
    }
  }

  lemma AttemptHeldExactly(builder: BuilderState, r: BuildRecord, identity: nat)
    ensures RecordHeld(builder, r, identity) <==> AttemptHeld(builder, r, identity)
  {
    if r.attempt in builder.reports {
      forall t | t in r.targets {
        ArtifactsAre(builder.reports[r.attempt], t);
      }
    }
  }

  lemma HeldExactly(builder: Option<BuilderState>, records: seq<BuildRecord>, identity: nat)
    ensures RecordsHeld(builder, records, identity) <==> FilesHeld(builder, records, identity)
  {
    if builder.Some? {
      forall r ensures RecordHeld(builder.value, r, identity) <==> AttemptHeld(builder.value, r, identity) {
        AttemptHeldExactly(builder.value, r, identity);
      }
    }
  }

  function Identity(w: World): nat { if w.builder.Some? then w.builder.value.identity else 0 }

  /** The request's action rests on a build, and the tree has a current one. */
  ghost predicate OnABuild(w: World, request: Request) {
    RestsOnBuild(request.action) && CurrentBuild(w.claims, w.at).Some?
  }

  ghost predicate StillHeld(w: World)
    requires CurrentBuild(w.claims, w.at).Some?
  {
    FilesHeld(w.builder, w.claims[CurrentBuild(w.claims, w.at).value].detail.records, Identity(w))
  }

  /** There is a builder, and what the build itself rests on has current claims. */
  ghost predicate CanRebuild(w: World) {
    && w.builder.Some?
    && forall p :: p in Prerequisites(ProducerOf(BuildPredicate(w.at.phase))) ==>
         Latest(w.claims, p, w.at.subjects.For(p), Current(w.claims, w.at, p)).Some?
  }

  /** The rebuild passed, came to the very executables the claim named, and left them at the builder. */
  ghost predicate RebuiltTheSame(w: World, e: Effects) {
    && e.rebuilt.Some? && e.rebuilt.value.verdict == Pass
    && e.rebuilt.value.BinaryMaterials() == Cohort(w.claims, w.at)
    && FilesHeld(Some(e.afterRebuild), e.rebuilt.value.records, Identity(w))
  }

  /** The request gets past its build: it needs none, there is none to restore, or the one there is names
      executables that are held or rebuilt as they were. */
  ghost predicate BuildStands(w: World, request: Request, e: Effects) {
    OnABuild(w, request) ==> Cohort(w.claims, w.at) != {} && (StillHeld(w) || (CanRebuild(w) && RebuiltTheSame(w, e)))
  }

  lemma BuildsNeedTheBuilder(phase: string)
    ensures Needs(ProducerOf(BuildPredicate(phase))) == {Builder}
  {
  }

  lemma BuildsStandOnFoundations(w: World, request: Request)
    ensures forall p :: p in Prerequisites(ProducerOf(BuildPredicate(w.at.phase))) ==>
      ClaimToRestOn(Resolve(w, request), p) == Latest(w.claims, p, w.at.subjects.For(p), Current(w.claims, w.at, p))
  {
  }

  /** When restoring stops a request and with what, and when it moves the builder. */
  lemma RestoringExactly(w: World, request: Request, e: Effects)
    ensures var restored := RestoredBuild(Resolve(w, request), e);
      && (restored.stopped.None? <==> BuildStands(w, request, e))
      && (restored.stopped.Some? ==>
            restored.stopped.value == if Cohort(w.claims, w.at) == {} then Unavailable else Errored)
      && restored.run.builder ==
           if OnABuild(w, request) && Cohort(w.claims, w.at) != {} && !StillHeld(w) && CanRebuild(w)
           then Some(e.afterRebuild) else w.builder
  {
    BuildsNeedTheBuilder(w.at.phase);
    BuildsStandOnFoundations(w, request);
    if OnABuild(w, request) {
      HeldExactly(w.builder, w.claims[CurrentBuild(w.claims, w.at).value].detail.records, Identity(w));
      if e.rebuilt.Some? {
        HeldExactly(Some(e.afterRebuild), e.rebuilt.value.records, Identity(w));
      }
    }
  }

  // ---------------------------------------------------------------- refusals

  /** What a request cannot go on without, in the order it is told: the build a dependent check has not
      got, and its prerequisites. */
  function Wanting(w: World, required: seq<PredicateName>): (r: seq<PredicateName>)
    ensures forall p :: p in r <==> p in required && !MetNow(w.claims, w.at, p)
  {
    if required == [] then []
    else (if MetNow(w.claims, w.at, required[0]) then [] else [required[0]]) + Wanting(w, required[1..])
  }

  function WantingFor(w: World, request: Request): seq<PredicateName> {
    (if RestsOnBuild(request.action) && CurrentBuild(w.claims, w.at).None? then [BuildPredicate(w.at.phase)] else [])
    + Wanting(w, Prerequisites(request.action))
  }

  /** The rows a reader of status is shown for these. */
  ghost predicate RowsOf(w: World, wanting: seq<PredicateName>, rows: seq<Row>) {
    && |rows| == |wanting|
    && forall i :: 0 <= i < |rows| ==>
         rows[i] == CurrentRow(w.claims, w.at, wanting[i]) && rows[i].predicateType == wanting[i] && !rows[i].status.Present?
  }

  lemma {:induction false} MissingAreTheWanting(w: World, request: Request, required: seq<PredicateName>)
    ensures RowsOf(w, Wanting(w, required), MissingAmong(Resolve(w, request), required))
    decreases |required|
  {
    if required != [] {
      MissingAreTheWanting(w, request, required[1..]);
      MissingOneIs(w, request, required[0]);
    }
  }

  lemma MissingOneIs(w: World, request: Request, p: PredicateName)
    ensures var run := Resolve(w, request);
      RequirementStatus(run.claims, p, run.at.subjects.For(p), run.Materials(p)) == CurrentRow(w.claims, w.at, p)
  {
  }

  lemma BuildRowIs(w: World)
    ensures var build := BuildPredicate(w.at.phase);
      && RequirementStatus(w.claims, build, w.at.subjects.tree, w.at.evidence) == CurrentRow(w.claims, w.at, build)
      && (MetNow(w.claims, w.at, build) <==> CurrentBuild(w.claims, w.at).Some?)
  {
  }

  lemma RefusalRows(w: World, request: Request)
    ensures RowsOf(w, WantingFor(w, request), MissingRequirements(Resolve(w, request)))
  {
    MissingAreTheWanting(w, request, Prerequisites(request.action));
    BuildRowIs(w);
  }

  /** Only the builder may have moved. */
  lemma RefusalRowsStay(w: World, request: Request, e: Effects)
    ensures MissingRequirements(RestoredBuild(Resolve(w, request), e).run) == MissingRequirements(Resolve(w, request))
  {
    RestoringKeepsTheRest(Resolve(w, request), e);
  }

  // ---------------------------------------------------------------- answers from the ledger

  /** A claim that answers this request for `p`: of the type, on the subject, under the configuration,
      and current. */
  ghost predicate Answers(w: World, request: Request, p: PredicateName, c: Claim) {
    && c.predicateType == p && c.subject == w.at.subjects.For(p) && c.configHash == request.configHash
    && c.version == SCHEMA_VERSION && Current(w.claims, w.at, p) <= c.materials
  }

  /** The one appended last. */
  ghost predicate LastAnswer(w: World, request: Request, p: PredicateName, c: Claim) {
    exists k :: 0 <= k < |w.claims| && w.claims[k] == c && Answers(w, request, p, c)
      && forall j :: k < j < |w.claims| ==> !Answers(w, request, p, w.claims[j])
  }

  ghost predicate AllAnswered(w: World, request: Request) {
    forall p :: p in Emits(request.action) ==> exists c :: LastAnswer(w, request, p, c)
  }

  /** The ledger answers: the action's claims may be reused, there is one of each, and those of a build
      name what the builder still holds. */
  ghost predicate AnsweredBefore(w: World, request: Request) {
    && Deterministic(request.action) && AllAnswered(w, request)
    && (BuildPredicate(w.at.phase) in Emits(request.action) ==>
          forall c :: LastAnswer(w, request, BuildPredicate(w.at.phase), c) ==> FilesHeld(w.builder, c.detail.records, Identity(w)))
  }

  ghost predicate ExactlyTheAnswers(w: World, request: Request, existing: seq<Claim>) {
    && |existing| == |Emits(request.action)|
    && forall i :: 0 <= i < |existing| ==> LastAnswer(w, request, Emits(request.action)[i], existing[i])
  }

  lemma AnswersAre(w: World, request: Request, p: PredicateName, c: Claim)
    ensures Answers(w, request, p, c)
      <==> Selected(c, p, w.at.subjects.For(p), Current(w.claims, w.at, p)) && c.configHash == request.configHash
  {
  }

  lemma DuplicateAnswersLast(w: World, request: Request, p: PredicateName)
    ensures match DuplicateOf(Resolve(w, request), p)
      case Some(k) =>
        k < |w.claims| && Answers(w, request, p, w.claims[k]) && forall j :: k < j < |w.claims| ==> !Answers(w, request, p, w.claims[j])
      case None => forall j :: 0 <= j < |w.claims| ==> !Answers(w, request, p, w.claims[j])
  {
    var duplicate := FindDuplicate(w.claims, p, w.at.subjects.For(p), request.configHash, Current(w.claims, w.at, p));
    assert DuplicateOf(Resolve(w, request), p) == duplicate;
    forall j | 0 <= j < |w.claims| {
      AnswersAre(w, request, p, w.claims[j]);
    }
  }

  lemma DuplicateIs(w: World, request: Request, p: PredicateName)
    ensures match DuplicateOf(Resolve(w, request), p)
      case Some(k) => k < |w.claims| && (forall c :: LastAnswer(w, request, p, c) <==> c == w.claims[k])
      case None => forall c :: !LastAnswer(w, request, p, c)
  {
    DuplicateAnswersLast(w, request, p);
    if DuplicateOf(Resolve(w, request), p).Some? {
      var k := DuplicateOf(Resolve(w, request), p).value;
      assert LastAnswer(w, request, p, w.claims[k]);
    }
  }

  lemma DuplicatedExactly(w: World, request: Request, p: PredicateName)
    ensures DuplicateOf(Resolve(w, request), p).Some? <==> exists c :: LastAnswer(w, request, p, c)
  {
    DuplicateIs(w, request, p);
    var found := DuplicateOf(Resolve(w, request), p);
    if found.Some? {
      assert LastAnswer(w, request, p, w.claims[found.value]);
    }
  }

  lemma DuplicatesAreTheLast(w: World, request: Request)
    requires AllDuplicated(Resolve(w, request), Emits(request.action))
    ensures ExactlyTheAnswers(w, request, DuplicatesOf(Resolve(w, request), Emits(request.action)))
  {
    var emitted := Emits(request.action);
    forall i | 0 <= i < |emitted|
      ensures LastAnswer(w, request, emitted[i], DuplicatesOf(Resolve(w, request), emitted)[i])
    {
      DuplicateIs(w, request, emitted[i]);
    }
  }

  lemma OnlyBuildsEmitTheBuild(phase: string, a: ActionName)
    ensures Emits(a) != [] && (BuildPredicate(phase) in Emits(a) ==> Emits(a) == [BuildPredicate(phase)])
  {
    EntryIsSound(a);
    ProducersEmit(BuildPredicate(phase), a);
  }

  lemma LedgerAnswersExactly(w: World, request: Request)
    ensures var existing := ClaimsAlreadyFiled(Resolve(w, request));
      && (existing != [] <==> AnsweredBefore(w, request))
      && (existing != [] ==> ExactlyTheAnswers(w, request, existing))
  {
    var run, emitted := Resolve(w, request), Emits(request.action);
    OnlyBuildsEmitTheBuild(w.at.phase, request.action);
    forall p ensures DuplicateOf(run, p).Some? <==> exists c :: LastAnswer(w, request, p, c) {
      DuplicatedExactly(w, request, p);
    }
    if AllDuplicated(run, emitted) {
      DuplicatesAreTheLast(w, request);
      forall c ensures LastAnswer(w, request, emitted[0], c) <==> c == DuplicatesOf(run, emitted)[0] {
        DuplicateIs(w, request, emitted[0]);
      }
      HeldExactly(w.builder, DuplicatesOf(run, emitted)[0].detail.records, Identity(w));
    }
  }

  // ---------------------------------------------------------------- claims filed

  /** A result the service takes: about a subject the request has, of no executables but the current
      build's where it passes and measures those, and of a build the builder kept. */
  ghost predicate Taken(w: World, request: Request, e: Effects, p: PredicateName, r: CheckResult) {
    && r.subjectKind in {"tree", "frozen", "baseline_tree"}
    && (r.verdict == Pass && p !in FOUNDATION && !r.measuresOtherBinaries ==> r.BinaryMaterials() <= Cohort(w.claims, w.at))
    && (BuildPredicate(w.at.phase) in Emits(request.action) && r.verdict == Pass ==>
          w.builder.Some? && FilesHeld(Some(e.afterCheck), r.records, Identity(w)))
  }

  ghost predicate AllTaken(w: World, request: Request, e: Effects) {
    && (Builder in Needs(request.action) ==> w.builder.Some?) && (Oracle in Needs(request.action) ==> w.oracle)
    && e.answer.Answered?
    && forall i :: 0 <= i < |e.answer.results| ==> Taken(w, request, e, e.answer.results[i].0, e.answer.results[i].1)
  }

  /** The claim of one result: what the check said, about whom and on what, and the next id. */
  ghost predicate ClaimOf(w: World, request: Request, p: PredicateName, r: CheckResult, c: Claim) {
    && c.predicateType == p && c.verdict == r.verdict && c.detail == r.detail
    && c.configHash == request.configHash && c.ts == w.now && c.version == SCHEMA_VERSION
    && c.subject == (if r.subjectKind == "tree" then w.at.subjects.tree
                     else if r.subjectKind == "frozen" then w.at.subjects.frozen else w.at.subjects.baselineTree)
    && c.materials == w.at.evidence + (if p in FOUNDATION then {} else Cohort(w.claims, w.at)) + r.BinaryMaterials() + r.materials
  }

  ghost predicate ExactlyTheResults(w: World, request: Request, results: seq<(PredicateName, CheckResult)>, filed: seq<Claim>) {
    && |filed| == |results|
    && forall i :: 0 <= i < |filed| ==>
         filed[i].id == MaxId(w.claims) + 1 + i && ClaimOf(w, request, results[i].0, results[i].1, filed[i])
  }

  /** The executable is one the result measured, or a file of a record it came with. */
  ghost predicate IsBinaryOf(r: CheckResult, s: Subject) {
    s.Executable? &&
    (s.digest in r.measured
     || exists b, t, a :: b in r.records && t in b.targets && (a == t.executable || a in t.runtime) && a.digest == s.digest)
  }

  lemma FilesAreArtifacts(t: Target, a: Artifact)
    ensures a in t.Artifacts() <==> a == t.executable || a in t.runtime
  {
    assert t.Artifacts()[0] == t.executable && t.Artifacts()[1..] == t.runtime;
  }

  /** What a result's claims name besides their inputs. */
  lemma BinariesAre(r: CheckResult, s: Subject)
    ensures s in r.BinaryMaterials() <==> IsBinaryOf(r, s)
  {
    if s in Executables(r.records) {
      var b, t, a :| b in r.records && t in b.targets && a in t.Artifacts() && s == Executable(a.digest);
      FilesAreArtifacts(t, a);
      assert IsBinaryOf(r, s);
    }
    if IsBinaryOf(r, s) && s.digest !in r.measured {
      var b, t, a :| b in r.records && t in b.targets && (a == t.executable || a in t.runtime) && a.digest == s.digest;
      FilesAreArtifacts(t, a);
      assert s == Executable(a.digest) && s in Executables(r.records);
    }
  }

  lemma TakenExactly(w: World, request: Request, e: Effects, run: Run, p: PredicateName, r: CheckResult)
    requires run == Resolve(w, request).(builder := if w.builder.Some? then Some(e.afterCheck) else None)
    ensures Kept(run, r) && Checked(run, p, r) <==> Taken(w, request, e, p, r)
  {
    HeldExactly(run.builder, r.records, Identity(w));
  }

  lemma DispatchExactly(w: World, request: Request, e: Effects, builder: Option<BuilderState>)
    requires builder.Some? <==> w.builder.Some?
    ensures var done := DispatchAndRecord(Resolve(w, request).(builder := builder), e);
      && (done.response.Filed? <==> AllTaken(w, request, e))
      && (done.response.Filed? ==> ExactlyTheResults(w, request, e.answer.results, done.response.filed))
      && (done.response.Filed? || done.response == Errored)
  {
    var run := Resolve(w, request).(builder := builder);
    var after := run.After(e.afterCheck);
    assert after == Resolve(w, request).(builder := if w.builder.Some? then Some(e.afterCheck) else None);
    if e.answer.Answered? {
      forall i | 0 <= i < |e.answer.results|
        ensures Kept(after, e.answer.results[i].1) && Checked(after, e.answer.results[i].0, e.answer.results[i].1)
          <==> Taken(w, request, e, e.answer.results[i].0, e.answer.results[i].1)
      {
        TakenExactly(w, request, e, after, e.answer.results[i].0, e.answer.results[i].1);
      }
    }
  }

  // ---------------------------------------------------------------- the answer

  /** Past its build with nothing wanting. */
  ghost predicate Through(w: World, request: Request, e: Effects) {
    PhaseOfAction(request.action) == w.at.phase && BuildStands(w, request, e) && WantingFor(w, request) == []
  }

  lemma PastTheRestoreExactly(w: World, request: Request, e: Effects)
    requires BuildStands(w, request, e)
    ensures var run := RestoredBuild(Resolve(w, request), e).run;
      var response := PastTheRestore(run, e).response;
      && (response.Refused? <==> WantingFor(w, request) != [])
      && (response.Refused? ==> RowsOf(w, WantingFor(w, request), response.missing))
      && (response.Duplicate? <==> WantingFor(w, request) == [] && AnsweredBefore(w, request))
      && (response.Duplicate? ==> ExactlyTheAnswers(w, request, response.existing))
      && (response.Filed? <==> WantingFor(w, request) == [] && !AnsweredBefore(w, request) && AllTaken(w, request, e))
      && (response.Filed? ==> ExactlyTheResults(w, request, e.answer.results, response.filed))
      && !response.BadRequest? && !response.Unavailable?
  {
    var run := Resolve(w, request);
    var restored := RestoredBuild(run, e);
    RestoringExactly(w, request, e);
    RestoringKeepsTheRest(run, e);
    RefusalRows(w, request);
    RestoringFindsTheSame(Resolve(w, request), e);
    LedgerAnswersExactly(w, request);
    DispatchExactly(w, request, e, restored.run.builder);
  }

  /** Every answer there is, each with exactly when it is given and what it says. */
  lemma AnswersExactly(w: World, request: Request, e: Effects)
    ensures var response := Execute(w, request, e).1;
      var fits := PhaseOfAction(request.action) == w.at.phase;
      && (response.BadRequest? <==> !fits)
      && (response.Unavailable? <==> fits && OnABuild(w, request) && Cohort(w.claims, w.at) == {})
      && (response.Refused? <==> fits && BuildStands(w, request, e) && WantingFor(w, request) != [])
      && (response.Refused? ==> RowsOf(w, WantingFor(w, request), response.missing))
      && (response.Duplicate? <==> Through(w, request, e) && AnsweredBefore(w, request))
      && (response.Duplicate? ==> ExactlyTheAnswers(w, request, response.existing))
      && (response.Filed? <==> Through(w, request, e) && !AnsweredBefore(w, request) && AllTaken(w, request, e))
      && (response.Filed? ==> ExactlyTheResults(w, request, e.answer.results, response.filed))
  {
    if PhaseOfAction(request.action) == w.at.phase {
      RestoringExactly(w, request, e);
      if BuildStands(w, request, e) {
        PastTheRestoreExactly(w, request, e);
      }
    }
  }

  // ---------------------------------------------------------------- and what it leaves

  lemma DispatchMovesTheBuilder(run: Run, e: Effects)
    ensures DispatchAndRecord(run, e).run.builder ==
      if run.builder.Some? && run.Configured(Needs(run.action)) then Some(e.afterCheck) else run.builder
  {
  }

  /** A request comes to run its check: nothing stops, refuses or answers it, and its backends are there. */
  ghost predicate Dispatches(w: World, request: Request, e: Effects) {
    && Through(w, request, e) && !AnsweredBefore(w, request)
    && (Builder in Needs(request.action) ==> w.builder.Some?) && (Oracle in Needs(request.action) ==> w.oracle)
  }

  ghost predicate Rebuilds(w: World, request: Request) {
    && PhaseOfAction(request.action) == w.at.phase && OnABuild(w, request) && Cohort(w.claims, w.at) != {}
    && !StillHeld(w) && CanRebuild(w)
  }

  lemma BuilderPastTheRestore(w: World, request: Request, e: Effects)
    requires PhaseOfAction(request.action) == w.at.phase && BuildStands(w, request, e)
    ensures var restored := RestoredBuild(Resolve(w, request), e).run;
      PastTheRestore(restored, e).run.builder ==
        if Dispatches(w, request, e) && w.builder.Some? then Some(e.afterCheck) else restored.builder
  {
    var run := Resolve(w, request);
    var restored := RestoredBuild(run, e).run;
    RestoringKeepsTheRest(run, e);
    RefusalRows(w, request);
    RestoringFindsTheSame(Resolve(w, request), e);
    LedgerAnswersExactly(w, request);
    DispatchMovesTheBuilder(restored, e);
  }

  /** The ledger gains what was filed and nothing else, and the builder is what the last check that ran
      left it. */
  lemma LeavesExactly(w: World, request: Request, e: Effects)
    ensures var (w', response) := Execute(w, request, e);
      && w' == w.(claims := w'.claims, builder := w'.builder)
      && w'.claims == w.claims + (if response.Filed? then response.filed else [])
      && w'.builder ==
           if Dispatches(w, request, e) && w.builder.Some? then Some(e.afterCheck)
           else if Rebuilds(w, request) then Some(e.afterRebuild)
           else w.builder
  {
    OnlyDispatchAppends(w, request, e);
    assert w.claims + [] == w.claims;
    if PhaseOfAction(request.action) == w.at.phase {
      RestoringExactly(w, request, e);
      if BuildStands(w, request, e) {
        BuilderPastTheRestore(w, request, e);
      }
    }
  }

  /** The log line of an answer tells which it was, and of a refusal why. */
  lemma LoggedAsAnswered(action: ActionName, response: Response)
    ensures var lines := LinesFor(action, response);
      && (lines == [] <==> response.BadRequest? || response.Unavailable?)
      && (lines != [] ==>
            && |lines| == 1 && lines[0].action == action
            && (lines[0].outcome == LoggedRefused <==> response.Refused?)
            && (lines[0].outcome == LoggedDuplicate <==> response.Duplicate?)
            && (lines[0].outcome == LoggedClaim <==> response.Filed?)
            && lines[0].missing == (if response.Refused? then response.missing else [])
            && (lines[0].claimId.Some? <==>
                  || (response.Filed? && |response.filed| == 1 && lines[0].claimId == Some(response.filed[0].id))
                  || (response.Duplicate? && |response.existing| == 1 && lines[0].claimId == Some(response.existing[0].id))))
  {
  }
}
