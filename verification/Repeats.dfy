/** Asking twice: when the second of two identical requests is answered with the claims of the first. */
module Repeats {
  import opened Wrappers
  import opened Catalog
  import opened Evidence
  import opened Gateway
  import opened GatewayRuns

  // ---------------------------------------------------------------- what filing leaves alone

  ghost predicate Without(claims: seq<Claim>, p: PredicateName) {
    forall i :: 0 <= i < |claims| ==> claims[i].predicateType != p
  }

  lemma {:induction false} LatestIgnores(claims: seq<Claim>, more: seq<Claim>, p: PredicateName, subject: Subject, required: set<Subject>)
    requires Without(more, p)
    ensures Latest(claims + more, p, subject, required) == Latest(claims, p, subject, required)
    decreases |more|
  {
    if more == [] {
      assert claims + more == claims;
    } else {
      var n := |more| - 1;
      assert (claims + more)[..|claims + more| - 1] == claims + more[..n];
      LatestIgnores(claims, more[..n], p, subject, required);
    }
  }

  lemma MetIgnores(claims: seq<Claim>, more: seq<Claim>, p: PredicateName, subject: Subject, required: set<Subject>)
    requires Without(more, p)
    ensures Met(claims + more, p, subject, required) <==> Met(claims, p, subject, required)
    ensures LatestPassing(claims + more, p, subject, required) == LatestPassing(claims, p, subject, required)
  {
    LatestIgnores(claims, more, p, subject, required);
  }

  /** Claims that are no build leave the cohort as it was. */
  lemma CohortIgnores(claims: seq<Claim>, more: seq<Claim>, at: Context)
    requires Without(more, BuildPredicate(at.phase))
    ensures Cohort(claims + more, at) == Cohort(claims, at)
    ensures CurrentBuild(claims + more, at) == CurrentBuild(claims, at)
  {
    MetIgnores(claims, more, BuildPredicate(at.phase), at.subjects.tree, at.evidence);
  }

  lemma PerformanceIgnores(claims: seq<Claim>, more: seq<Claim>, at: Context, required: set<Subject>)
    requires Without(more, Timing_Port) && Without(more, Timing_Baseline)
    ensures PerformanceMaterials(claims + more, at, required) == PerformanceMaterials(claims, at, required)
  {
    MetIgnores(claims, more, Timing_Port, at.subjects.tree, required);
    MetIgnores(claims, more, Timing_Baseline, at.subjects.baselineTree, at.evidence);
  }

  /** The materials of a foundation claim never move; the others only with a build, or with a timing
      for the speedup. */
  lemma CurrentIgnores(claims: seq<Claim>, more: seq<Claim>, at: Context, p: PredicateName)
    requires p !in FOUNDATION ==> Without(more, BuildPredicate(at.phase))
    requires p == Performance_Speedup ==> Without(more, Timing_Port) && Without(more, Timing_Baseline)
    ensures Current(claims + more, at, p) == Current(claims, at, p)
  {
    if p !in FOUNDATION {
      CohortIgnores(claims, more, at);
      if p == Performance_Speedup {
        PerformanceIgnores(claims, more, at, Dependent(at.evidence, Cohort(claims, at)));
      }
    }
  }

  // ---------------------------------------------------------------- filed by one action

  /** Claims of the predicate types action `a` emits, and no two of one type. */
  ghost predicate EmittedBy(filed: seq<Claim>, a: ActionName) {
    && (forall i :: 0 <= i < |filed| ==> filed[i].predicateType in Emits(a))
    && (forall i, j :: 0 <= i < j < |filed| ==> filed[i].predicateType != filed[j].predicateType)
  }

  lemma EmittedByExcludes(filed: seq<Claim>, a: ActionName, p: PredicateName)
    requires EmittedBy(filed, a) && p !in Emits(a)
    ensures Without(filed, p)
  {
  }

  lemma PrerequisitesAreNotEmitted(a: ActionName, q: PredicateName)
    requires q in Prerequisites(a)
    ensures q !in Emits(a)
  {
    ProducersEmit(q, a);
    PrerequisitesAreLower(a, q);
  }

  /** An action does not change what its own claims must carry ... */
  lemma CurrentIsKept(claims: seq<Claim>, filed: seq<Claim>, at: Context, a: ActionName, p: PredicateName)
    requires EmittedBy(filed, a) && p in Emits(a)
    ensures Current(claims + filed, at, p) == Current(claims, at, p)
  {
    ActionsAreOfOneKind(a, p);
    ProducersEmit(p, a);
    ProducersEmit(Timing_Port, a);
    ProducersEmit(Timing_Baseline, a);
    if p !in FOUNDATION {
      BuildsAreNotEmitted(a, at.phase);
      EmittedByExcludes(filed, a, BuildPredicate(at.phase));
    }
    CurrentIgnores(claims, filed, at, p);
  }

  /** ... nor what its prerequisites are met by ... */
  lemma PrerequisiteIsKept(claims: seq<Claim>, filed: seq<Claim>, at: Context, a: ActionName, q: PredicateName)
    requires EmittedBy(filed, a) && q in Prerequisites(a)
    ensures MetNow(claims + filed, at, q) <==> MetNow(claims, at, q)
  {
    PrerequisitesAreNotEmitted(a, q);
    EmittedByExcludes(filed, a, q);
    SpeedupIsNoPrerequisite(a, q);
    if q !in FOUNDATION {
      PrerequisitesNeedTheBuild(a, q);
      BuildsAreNotEmitted(a, at.phase);
      EmittedByExcludes(filed, a, BuildPredicate(at.phase));
    }
    CurrentIgnores(claims, filed, at, q);
    MetIgnores(claims, filed, q, at.subjects.For(q), Current(claims, at, q));
  }

  /** ... nor the build it rests on. */
  lemma FilingKeepsTheGate(claims: seq<Claim>, filed: seq<Claim>, at: Context, a: ActionName)
    requires EmittedBy(filed, a)
    ensures forall q :: q in Prerequisites(a) ==> (MetNow(claims + filed, at, q) <==> MetNow(claims, at, q))
    ensures RestsOnBuild(a) ==> CurrentBuild(claims + filed, at) == CurrentBuild(claims, at)
  {
    forall q | q in Prerequisites(a) ensures MetNow(claims + filed, at, q) <==> MetNow(claims, at, q) {
      PrerequisiteIsKept(claims, filed, at, a, q);
    }
    if RestsOnBuild(a) {
      BuildsAreNotEmitted(a, at.phase);
      EmittedByExcludes(filed, a, BuildPredicate(at.phase));
      CohortIgnores(claims, filed, at);
    }
  }

  lemma BuildsAreNotEmitted(a: ActionName, phase: string)
    requires RestsOnBuild(a)
    ensures BuildPredicate(phase) !in Emits(a)
  {
    if BuildPredicate(phase) in Emits(a) {
      ActionsAreOfOneKind(a, BuildPredicate(phase));
    }
  }

  lemma SpeedupIsNoPrerequisite(a: ActionName, q: PredicateName)
    requires q in Prerequisites(a)
    ensures q != Performance_Speedup
  {
    PrerequisitesAreLower(a, q);
    RankIsBounded(a);
  }

  lemma RankIsBounded(a: ActionName)
    ensures ActionRank(a) <= Rank(Performance_Speedup)
  {
  }

  /** A filed claim is what an identical request finds. */
  lemma FiledIsFound(claims: seq<Claim>, filed: seq<Claim>, i: nat, subject: Subject, configHash: nat, required: set<Subject>)
    requires i < |filed| && forall j :: i < j < |filed| ==> filed[j].predicateType != filed[i].predicateType
    requires Selected(filed[i], filed[i].predicateType, subject, required) && filed[i].configHash == configHash
    ensures FindDuplicate(claims + filed, filed[i].predicateType, subject, configHash, required) == Some(|claims| + i)
  {
    var all, found := claims + filed, FindDuplicate(claims + filed, filed[i].predicateType, subject, configHash, required);
    assert all[|claims| + i] == filed[i];
    forall k | |claims| <= k < |all| ensures all[k] == filed[k - |claims|] {
    }
  }

  // ---------------------------------------------------------------- the second request

  /** What the first request filed: the claims of a component that honors its contract. */
  ghost predicate FiledHonestly(w: World, request: Request, e: Effects) {
    && Execute(w, request, e).1.Filed? && e.answer.Answered?
    && Honors(Resolve(w, request), e.answer.results) && AllInputs(w.at.evidence)
  }

  /** A filed claim is of its result's predicate, of the request's configuration, and current. */
  ghost predicate FiledAs(w: World, request: Request, c: Claim, p: PredicateName, r: CheckResult) {
    && c.predicateType == p && p in Emits(request.action) && c.configHash == request.configHash
    && c.verdict == r.verdict && c.detail == r.detail && c.ts == w.now
    && Selected(c, p, w.at.subjects.For(p), Current(w.claims, w.at, p))
  }

  lemma FromSelects(w: World, request: Request, builder: Option<BuilderState>, results: seq<(PredicateName, CheckResult)>,
                    filed: seq<Claim>, i: nat)
    requires Dispatchable(Resolve(w, request)) && Honors(Resolve(w, request), results) && i < |filed|
    requires FiledFrom(Resolve(w, request).(builder := builder), results, filed)
    ensures FiledAs(w, request, filed[i], results[i].0, results[i].1)
  {
    var run := Resolve(w, request);
    var (p, r) := results[i];
    assert HonorsOne(run, p, r);
    assert Checked(run.(builder := builder), p, r);
    ClaimCarriesItsContext(run, filed[i].id, p, r);
    assert filed[i] == ClaimFrom(run.(builder := builder), filed[i].id, p, r);
  }

  lemma FiledSelects(w: World, request: Request, e: Effects, i: nat)
    requires FiledHonestly(w, request, e)
    requires i < |Execute(w, request, e).1.filed|
    ensures i < |e.answer.results|
      && FiledAs(w, request, Execute(w, request, e).1.filed[i], e.answer.results[i].0, e.answer.results[i].1)
  {
    OnlyDispatchAppends(w, request, e);
    FromSelects(w, request, Execute(w, request, e).0.builder, e.answer.results, Execute(w, request, e).1.filed, i);
  }

  lemma MaterialsOfAClaim(run: Run, id: nat, p: PredicateName, r: CheckResult)
    requires Checked(run, p, r) && (p !in FOUNDATION ==> run.cohort != {})
    requires p == Performance_Speedup ==>
      r.materials == PerformanceMaterials(run.claims, run.at, Dependent(run.at.evidence, run.cohort))
    ensures MaterialsFor(run.claims, run.at, run.cohort, p) <= ClaimFrom(run, id, p, r).materials
  {
  }

  lemma ClaimCarriesItsContext(run: Run, id: nat, p: PredicateName, r: CheckResult)
    requires Dispatchable(run) && HonorsOne(run, p, r) && Checked(run, p, r)
    requires run.cohort == Cohort(run.claims, run.at)
    ensures Selected(ClaimFrom(run, id, p, r), p, run.at.subjects.For(p), Current(run.claims, run.at, p))
  {
    SubjectsOfTheCatalog(run.at.subjects, p);
    ActionsAreOfOneKind(run.action, p);
    if p == Performance_Speedup {
      ProducersEmit(p, run.action);
      SpeedupCarriesItsTimings(run, r);
    }
    MaterialsOfAClaim(run, id, p, r);
  }

  lemma SpeedupCarriesItsTimings(run: Run, r: CheckResult)
    requires Dispatchable(run) && run.action == PerformanceCheck && HonorsOne(run, Performance_Speedup, r) && run.cohort != {}
    ensures r.materials == PerformanceMaterials(run.claims, run.at, Dependent(run.at.evidence, run.cohort))
  {
    assert Prerequisites(PerformanceCheck) == [Timing_Port, Timing_Baseline];
    assert Timing_Port in Prerequisites(run.action) && Timing_Baseline in Prerequisites(run.action);
  }

  lemma FiledAreEmitted(w: World, request: Request, e: Effects)
    requires FiledHonestly(w, request, e)
    ensures EmittedBy(Execute(w, request, e).1.filed, request.action)
    ensures Execute(w, request, e).0.claims == w.claims + Execute(w, request, e).1.filed
    ensures Execute(w, request, e).0.at == w.at && PhaseOfAction(request.action) == w.at.phase
    ensures |e.answer.results| == |Execute(w, request, e).1.filed|
  {
    OnlyDispatchAppends(w, request, e);
    forall i | 0 <= i < |Execute(w, request, e).1.filed|
      ensures Execute(w, request, e).1.filed[i].predicateType == e.answer.results[i].0
      ensures Execute(w, request, e).1.filed[i].predicateType in Emits(request.action)
    {
      FiledSelects(w, request, e, i);
    }
  }

  /** The gate lets the second request through to the ledger as it let the first. */
  lemma GateOpensAgain(w: World, request: Request, e: Effects)
    requires FiledHonestly(w, request, e)
    ensures MissingRequirements(Resolve(Execute(w, request, e).0, request)) == []
  {
    var w' := Execute(w, request, e).0;
    OnlyDispatchAppends(w, request, e);
    FiledAreEmitted(w, request, e);
    FilingKeepsTheGate(w.claims, Execute(w, request, e).1.filed, w.at, request.action);
    NothingMissingExactly(w, request);
    GateStays(w, w', request);
  }

  lemma StopsAreNoAnswers(run: Run, e: Effects)
    ensures var stopped := RestoredBuild(run, e).stopped; stopped.Some? ==> !stopped.value.Duplicate?
  {
  }

  lemma LedgerAnswersFirst(run: Run, e: Effects)
    requires MissingRequirements(run) == []
    ensures PastTheRestore(run, e).response.Duplicate? <==> ClaimsAlreadyFiled(run) != []
    ensures PastTheRestore(run, e).response.Duplicate? ==>
      PastTheRestore(run, e) == Dispatched(run, Duplicate(ClaimsAlreadyFiled(run)))
  {
    DispatchAppends(run, e);
  }

  /** Past the restore and the gate the ledger decides, whatever the restore moved at the builder. */
  lemma LedgerAnswers(run: Run, e: Effects)
    requires MissingRequirements(run) == []
    ensures Executed(run, e).response.Duplicate? <==> RestoredBuild(run, e).stopped.None? && ClaimsAlreadyFiled(run) != []
    ensures Executed(run, e).response.Duplicate? ==>
      Executed(run, e).response.existing == ClaimsAlreadyFiled(run) && Executed(run, e).run.claims == run.claims
  {
    StopsAreNoAnswers(run, e);
    RestoringKeepsTheRest(run, e);
    RestoringFindsTheSame(run, e);
    LedgerAnswersFirst(RestoredBuild(run, e).run, e);
  }

  lemma GateStays(w: World, w': World, request: Request)
    requires Dispatchable(Resolve(w, request)) && w'.at == w.at
    requires forall q :: q in Prerequisites(request.action) ==> (MetNow(w'.claims, w.at, q) <==> MetNow(w.claims, w.at, q))
    requires RestsOnBuild(request.action) ==> CurrentBuild(w'.claims, w.at) == CurrentBuild(w.claims, w.at)
    ensures MissingRequirements(Resolve(w', request)) == []
  {
    NothingMissingExactly(w', request);
    forall q | q in Prerequisites(request.action) ensures MetNow(w.claims, w.at, q) {
      assert Met(w.claims, q, w.at.subjects.For(q), Resolve(w, request).Materials(q));
    }
  }

  ghost predicate AnsweredAll(a: ActionName, filed: seq<Claim>) {
    forall p :: p in Emits(a) ==> exists i :: 0 <= i < |filed| && filed[i].predicateType == p
  }

  /** What the first request filed for a predicate, the second finds. */
  lemma FoundAgain(w: World, run: Run, request: Request, filed: seq<Claim>, i: nat)
    requires run == Resolve(w.(claims := w.claims + filed, builder := run.builder), request)
    requires EmittedBy(filed, request.action) && i < |filed| && CurrentClaim(w, request, filed[i])
    ensures Finds(run, filed[i])
  {
    var p := filed[i].predicateType;
    CurrentIsKept(w.claims, filed, w.at, request.action, p);
    FiledIsFound(w.claims, filed, i, w.at.subjects.For(p), request.configHash, Current(w.claims, w.at, p));
    assert (w.claims + filed)[|w.claims| + i] == filed[i];
  }

  /** An identical request finds `c` for what `c` is about. */
  ghost predicate Finds(run: Run, c: Claim) {
    DuplicateOf(run, c.predicateType).Some? && run.claims[DuplicateOf(run, c.predicateType).value] == c
  }

  ghost predicate CurrentClaim(w: World, request: Request, c: Claim) {
    && c.configHash == request.configHash
    && Selected(c, c.predicateType, w.at.subjects.For(c.predicateType), Current(w.claims, w.at, c.predicateType))
  }

  /** Whether a build's own claim lets it be reused: its stored detail decodes to records the builder
      holds. Other actions have nothing to ask. */
  ghost predicate Reusable(run: Run, filed: seq<Claim>) {
    run.Builds() ==> exists c :: c in filed && HeldAs(run, c)
  }

  predicate HeldAs(run: Run, c: Claim) {
    c.predicateType == Emits(run.action)[0] && RecordsHeld(run.builder, c.detail.records, run.identity)
  }

  ghost predicate SameClaims(a: seq<Claim>, b: seq<Claim>) {
    (forall c :: c in a ==> c in b) && (forall c :: c in b ==> c in a)
  }

  /** The second of two identical requests appends nothing and answers with the very claims the first
      filed exactly when the build it rests on is still held or rebuilt as it was, the check answered
      every predicate its action emits and, for a build, the builder holds what the stored claim
      decodes to. */
  lemma RepeatedExactlyWhen(w: World, request: Request, e: Effects, again: Effects)
    requires FiledHonestly(w, request, e) && Deterministic(request.action)
    ensures var (w', first) := Execute(w, request, e);
      var (w'', second) := Execute(w', request, again);
      var run := Resolve(w', request);
      (w''.claims == w'.claims && second.Duplicate? && SameClaims(second.existing, first.filed))
      <==> (RestoredBuild(run, again).stopped.None? && AnsweredAll(request.action, first.filed) && Reusable(run, first.filed))
  {
    var w', filed := Execute(w, request, e).0, Execute(w, request, e).1.filed;
    var run := Resolve(w', request);
    GateOpensAgain(w, request, e);
    FiledAreEmitted(w, request, e);
    LedgerAnswers(run, again);
    forall i | 0 <= i < |filed| ensures CurrentClaim(w, request, filed[i]) {
      FiledSelects(w, request, e, i);
    }
    if AnsweredAll(request.action, filed) && Reusable(run, filed) {
      RepeatIsAnswered(w, run, request, filed);
    }
    if ClaimsAlreadyFiled(run) != [] && SameClaims(ClaimsAlreadyFiled(run), filed) {
      RepeatedMeansAnswered(run, filed);
    }
  }

  /** Read from the ledger, one claim an emitted predicate. */
  lemma AlreadyFiledIs(run: Run)
    requires ClaimsAlreadyFiled(run) != []
    ensures AllDuplicated(run, Emits(run.action)) && ClaimsAlreadyFiled(run) == DuplicatesOf(run, Emits(run.action))
    ensures run.Builds() ==> RecordsHeld(run.builder, ClaimsAlreadyFiled(run)[0].detail.records, run.identity)
  {
  }

  lemma RepeatedMeansAnswered(run: Run, filed: seq<Claim>)
    requires ClaimsAlreadyFiled(run) != [] && SameClaims(ClaimsAlreadyFiled(run), filed)
    ensures AnsweredAll(run.action, filed) && Reusable(run, filed)
  {
    AlreadyFiledIs(run);
    var emitted, existing := Emits(run.action), ClaimsAlreadyFiled(run);
    forall p | p in emitted ensures exists i :: 0 <= i < |filed| && filed[i].predicateType == p {
      var m :| 0 <= m < |emitted| && emitted[m] == p;
      assert existing[m] in filed;
      var i :| 0 <= i < |filed| && filed[i] == existing[m];
      assert filed[i].predicateType == p;
    }
    assert existing[0] in filed && existing[0].predicateType == emitted[0];
  }

  lemma RepeatIsAnswered(w: World, run: Run, request: Request, filed: seq<Claim>)
    requires run == Resolve(w.(claims := w.claims + filed, builder := run.builder), request)
    requires EmittedBy(filed, request.action) && Deterministic(request.action)
    requires forall i :: 0 <= i < |filed| ==> CurrentClaim(w, request, filed[i])
    requires AnsweredAll(request.action, filed) && Reusable(run, filed)
    ensures ClaimsAlreadyFiled(run) != [] && SameClaims(ClaimsAlreadyFiled(run), filed)
  {
    forall i | 0 <= i < |filed| ensures Finds(run, filed[i]) {
      FoundAgain(w, run, request, filed, i);
    }
    FoundAreTheFiled(run, filed);
  }

  lemma FoundAreTheFiled(run: Run, filed: seq<Claim>)
    requires Deterministic(run.action) && EmittedBy(filed, run.action)
    requires AnsweredAll(run.action, filed) && Reusable(run, filed)
    requires forall i :: 0 <= i < |filed| ==> Finds(run, filed[i])
    ensures ClaimsAlreadyFiled(run) != [] && SameClaims(ClaimsAlreadyFiled(run), filed)
  {
    var emitted := Emits(run.action);
    EntryIsSound(run.action);
    forall p | p in emitted ensures DuplicateOf(run, p).Some? && run.claims[DuplicateOf(run, p).value] in filed {
      var i :| 0 <= i < |filed| && filed[i].predicateType == p;
      assert Finds(run, filed[i]);
    }
    var existing := DuplicatesOf(run, emitted);
    DuplicatesAreTheFiled(run, filed);
    if run.Builds() {
      var c :| c in filed && HeldAs(run, c);
      assert Finds(run, c) && existing[0] == c;
    }
  }

  lemma DuplicatesAreTheFiled(run: Run, filed: seq<Claim>)
    requires AllDuplicated(run, Emits(run.action)) && EmittedBy(filed, run.action)
    requires forall p :: p in Emits(run.action) ==> run.claims[DuplicateOf(run, p).value] in filed
    requires forall i :: 0 <= i < |filed| ==> Finds(run, filed[i])
    ensures SameClaims(DuplicatesOf(run, Emits(run.action)), filed)
  {
    var emitted, existing := Emits(run.action), DuplicatesOf(run, Emits(run.action));
    forall c | c in existing ensures c in filed {
      var m :| 0 <= m < |existing| && existing[m] == c;
      assert emitted[m] in emitted;
    }
    forall c | c in filed ensures c in existing {
      var i :| 0 <= i < |filed| && filed[i] == c;
      var m :| 0 <= m < |emitted| && emitted[m] == c.predicateType;
      assert Finds(run, filed[i]) && existing[m] == c;
    }
  }

  /** So a build that passed is reused as long as the builder is the one that built it and the check
      wrote down the records it declared; one that failed, declaring none, is run again. */
  lemma BuildsAreReusedWhenTheyPassed(w: World, request: Request, e: Effects)
    requires FiledHonestly(w, request, e) && Resolve(w, request).Builds() && |e.answer.results| == 1
    requires var r := e.answer.results[0].1; r.detail.records == r.records && (r.verdict == Fail ==> r.records == [])
    requires w.builder.Some? && e.afterCheck.identity == w.builder.value.identity
    ensures var (w', first) := Execute(w, request, e);
      |first.filed| == 1 && (Reusable(Resolve(w', request), first.filed) <==> first.filed[0].verdict == Pass)
  {
    var w', filed := Execute(w, request, e).0, Execute(w, request, e).1.filed;
    OnlyDispatchAppends(w, request, e);
    FiledSelects(w, request, e, 0);
    BuildersEmitOne(request.action, w.at.phase);
    NoRestoreForBuilds(w, request, e);
    var r := e.answer.results[0].1;
    assert filed == [filed[0]] && filed[0].detail == r.detail && filed[0].verdict == r.verdict;
    assert Kept(Resolve(w, request).(builder := w'.builder), r);
    ReusableAlone(Resolve(w', request), filed[0]);
  }

  lemma ReusableAlone(run: Run, c: Claim)
    requires run.Builds()
    ensures Reusable(run, [c]) <==> HeldAs(run, c)
  {
    assert c in [c];
  }

  lemma BuildersEmitOne(a: ActionName, phase: string)
    requires BuildPredicate(phase) in Emits(a)
    ensures Emits(a) == [BuildPredicate(phase)] && !RestsOnBuild(a)
  {
    ProducersEmit(BuildPredicate(phase), a);
  }

  lemma NoRestoreForBuilds(w: World, request: Request, e: Effects)
    requires FiledHonestly(w, request, e) && Resolve(w, request).Builds() && w.builder.Some?
    ensures Execute(w, request, e).0.builder == Some(e.afterCheck)
  {
    BuildersEmitOne(request.action, w.at.phase);
  }
}
