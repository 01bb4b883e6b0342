/** With checks that pass and a builder that keeps what it built, a region that has failed nothing in
    its current context can always go on, and finitely many runs finish it. */
module Progress {
  import opened Wrappers
  import opened Workflow
  import opened Catalog
  import opened Evidence
  import opened Gateway
  import opened GatewayRuns
  import opened Repeats

  // ---------------------------------------------------------------- where progress starts from

  /** Needed for acceptance, directly or to get there, and not met. */
  ghost function Unmet(w: World, withProperties: bool): set<PredicateName> {
    set p: PredicateName | IsNeeded(w.at.phase, withProperties, p) && !MetNow(w.claims, w.at, p)
  }

  /** No check whose result would be reused has failed on this tree in this context. */
  ghost predicate Clean(w: World) {
    forall i :: 0 <= i < |w.claims| && w.claims[i].verdict == Fail && Deterministic(ProducerOf(w.claims[i].predicateType)) ==>
      !(w.claims[i].subject == w.at.subjects.tree && Matches(w.claims[i], w.at.evidence))
  }

  /** The builder holds the current build, if there is one. */
  ghost predicate Retains(w: World) {
    && w.builder.Some?
    && (CurrentBuild(w.claims, w.at).Some? ==>
          RecordsHeld(w.builder, w.claims[CurrentBuild(w.claims, w.at).value].detail.records, w.builder.value.identity))
  }

  ghost predicate Ready(s: State) {
    && Invariant(s) && Clean(s.world) && Retains(s.world) && s.world.at.phase in PHASES
    && (s.world.at.phase == PORTING ==> s.world.oracle)
  }

  // ---------------------------------------------------------------- checks that pass

  /** A passing answer about `p`: on the current executables, or for a build on records the builder
      holds and the claim's detail decodes to. */
  ghost predicate PassesOn(run: Run, p: PredicateName, r: CheckResult, after: BuilderState) {
    && r.verdict == Pass && HonorsOne(run, p, r)
    && (p !in FOUNDATION ==> r.BinaryMaterials() <= run.cohort)
    && (run.Builds() ==> r.detail.records == r.records && RecordsHeld(Some(after), r.records, run.identity))
  }

  /** The check passes on everything it emits, and the builder is the same one and lost nothing. */
  ghost predicate Cooperates(w: World, request: Request, e: Effects) {
    var run, emitted := Resolve(w, request), Emits(request.action);
    && e.answer.Answered? && |e.answer.results| == |emitted|
    && (forall i :: 0 <= i < |emitted| ==>
          e.answer.results[i].0 == emitted[i] && PassesOn(run, emitted[i], e.answer.results[i].1, e.afterCheck))
    && e.afterCheck.identity == run.identity
    && (!run.Builds() ==> Retains(w.(builder := Some(e.afterCheck))))
  }

  lemma CooperationHonors(w: World, request: Request, e: Effects)
    requires Cooperates(w, request, e)
    ensures Honors(Resolve(w, request), e.answer.results)
  {
    EntryIsSound(request.action);
    forall i | 0 <= i < |e.answer.results|
      ensures HonorsOne(Resolve(w, request), e.answer.results[i].0, e.answer.results[i].1)
    {
      assert PassesOn(Resolve(w, request), Emits(request.action)[i], e.answer.results[i].1, e.afterCheck);
    }
  }

  // ---------------------------------------------------------------- the next action is not refused

  /** The action for `p` may run: what it rests on is met, and the build is held. */
  ghost predicate MayRun(w: World, p: PredicateName) {
    && PhaseOf(p) == w.at.phase
    && (forall q :: q in Prerequisites(ProducerOf(p)) ==> MetNow(w.claims, w.at, q))
    && (p !in FOUNDATION ==> CurrentBuild(w.claims, w.at).Some?)
  }

  ghost predicate Lowest(w: World, withProperties: bool, p: PredicateName) {
    p in Unmet(w, withProperties) && forall q :: q in Unmet(w, withProperties) ==> Rank(p) <= Rank(q)
  }

  lemma LowestMayRun(w: World, withProperties: bool, p: PredicateName)
    requires Lowest(w, withProperties, p)
    ensures MayRun(w, p)
  {
    NeededRestsOnItsBuild(w.at.phase, withProperties, p);
    forall q | q in Prerequisites(ProducerOf(p)) ensures MetNow(w.claims, w.at, q) {
      RequirementsAreClosed(w.at.phase, withProperties, p, q);
      PrerequisitesAreLower(ProducerOf(p), q);
    }
    if p !in FOUNDATION {
      DependentsAreAboveTheBuild(p);
      BuildIsMet(w, withProperties, p);
    }
  }

  lemma BuildIsMet(w: World, withProperties: bool, p: PredicateName)
    requires Lowest(w, withProperties, p) && Rank(BuildPredicate(w.at.phase)) < Rank(p)
    requires IsRequirement(w.at.phase, withProperties, BuildPredicate(w.at.phase))
    ensures CurrentBuild(w.claims, w.at).Some?
  {
    SubjectOfTheBuild(w.at);
    assert BuildPredicate(w.at.phase) !in Unmet(w, withProperties);
  }

  /** What is not met was not answered before, in a ledger with nothing failed to answer from. */
  lemma UnmetIsUnclaimed(w: World, p: PredicateName)
    requires Clean(w) && !MetNow(w.claims, w.at, p) && Deterministic(ProducerOf(p))
    ensures forall j :: 0 <= j < |w.claims| ==> !Selected(w.claims[j], p, w.at.subjects.For(p), Current(w.claims, w.at, p))
  {
    var required := Current(w.claims, w.at, p);
    LatestIsNewest(w.claims, p, w.at.subjects.For(p), required);
    var latest := Latest(w.claims, p, w.at.subjects.For(p), required);
    if latest.Some? {
      CurrentCarriesTheEvidence(w.claims, w.at, p);
      assert w.claims[latest.value].verdict == Fail;
      assert Matches(w.claims[latest.value], w.at.evidence);
    }
  }

  lemma NothingToFind(claims: seq<Claim>, p: PredicateName, subject: Subject, configHash: nat, required: set<Subject>)
    requires forall j :: 0 <= j < |claims| ==> !Selected(claims[j], p, subject, required)
    ensures FindDuplicate(claims, p, subject, configHash, required).None?
  {
  }

  lemma RunsAskForCurrent(w: World, request: Request, p: PredicateName)
    ensures Resolve(w, request).Materials(p) == Current(w.claims, w.at, p)
  {
  }

  lemma UnmetIsNotAnswered(w: World, request: Request, p: PredicateName)
    requires Clean(w) && !MetNow(w.claims, w.at, p) && Deterministic(ProducerOf(p))
    ensures DuplicateOf(Resolve(w, request), p).None?
  {
    UnmetIsUnclaimed(w, p);
    NothingToFind(w.claims, p, w.at.subjects.For(p), request.configHash, Current(w.claims, w.at, p));
    RunsAskForCurrent(w, request, p);
  }

  lemma CurrentCarriesTheEvidence(claims: seq<Claim>, at: Context, p: PredicateName)
    ensures at.evidence <= Current(claims, at, p)
  {
  }

  lemma NotStopped(w: World, p: PredicateName, configHash: nat, e: Effects)
    requires Retains(w) && MayRun(w, p)
    ensures var run := Resolve(w, Request(ProducerOf(p), configHash));
      && RestoredBuild(run, e) == Restored(run, None) && MissingRequirements(run) == []
      && (p !in FOUNDATION ==> run.cohort != {})
  {
    var request := Request(ProducerOf(p), configHash);
    var run := Resolve(w, request);
    ProducersEmit(p, request.action);
    ActionsAreOfOneKind(request.action, p);
    NothingMissingExactly(w, request);
    if p !in FOUNDATION {
      HeldRecordsNameExecutables(w.builder, run.buildClaim.value.detail.records, run.identity);
    }
  }

  lemma CooperationIsKept(w: World, p: PredicateName, configHash: nat, e: Effects, i: nat)
    requires w.builder.Some? && Cooperates(w, Request(ProducerOf(p), configHash), e) && i < |Emits(ProducerOf(p))|
    ensures var after := Resolve(w, Request(ProducerOf(p), configHash)).After(e.afterCheck);
      Kept(after, e.answer.results[i].1) && Checked(after, e.answer.results[i].0, e.answer.results[i].1)
  {
    var q := Emits(ProducerOf(p))[i];
    assert PassesOn(Resolve(w, Request(ProducerOf(p), configHash)), q, e.answer.results[i].1, e.afterCheck);
    SubjectsOfTheCatalog(w.at.subjects, q);
  }

  /** A lowest unmet predicate's action goes all the way to filing. */
  lemma LowestIsFiled(s: State, withProperties: bool, p: PredicateName, configHash: nat, e: Effects)
    requires Ready(s) && Lowest(s.world, withProperties, p) && Cooperates(s.world, Request(ProducerOf(p), configHash), e)
    ensures Execute(s.world, Request(ProducerOf(p), configHash), e).1.Filed?
    ensures Execute(s.world, Request(ProducerOf(p), configHash), e).0.builder == Some(e.afterCheck)
  {
    var w, request := s.world, Request(ProducerOf(p), configHash);
    var run := Resolve(w, request);
    LowestMayRun(w, withProperties, p);
    NotStopped(w, p, configHash, e);
    ProducersEmit(p, request.action);
    OnlyPortsNeedTheOracle(request.action);
    if Deterministic(request.action) {
      UnmetIsNotAnswered(w, request, p);
    }
    forall i | 0 <= i < |e.answer.results|
      ensures Kept(run.After(e.afterCheck), e.answer.results[i].1)
      ensures Checked(run.After(e.afterCheck), e.answer.results[i].0, e.answer.results[i].1)
    {
      CooperationIsKept(w, p, configHash, e, i);
    }
    DispatchIsFiled(run, e);
  }

  lemma OnlyPortsNeedTheOracle(a: ActionName)
    ensures Oracle in Needs(a) ==> PhaseOfAction(a) == PORTING
  {
  }

  lemma DispatchIsFiled(run: Run, e: Effects)
    requires run.Configured(Needs(run.action)) && run.builder.Some? && e.answer.Answered?
    requires forall i :: 0 <= i < |e.answer.results| ==>
      Kept(run.After(e.afterCheck), e.answer.results[i].1) && Checked(run.After(e.afterCheck), e.answer.results[i].0, e.answer.results[i].1)
    ensures DispatchAndRecord(run, e).response.Filed? && DispatchAndRecord(run, e).run.builder == Some(e.afterCheck)
  {
  }

  // ---------------------------------------------------------------- and leaves less to do

  /** All of `filed` pass, on everything `a` emits, in the context of `w`. */
  ghost predicate PassedOn(w: World, a: ActionName, filed: seq<Claim>) {
    && |filed| == |Emits(a)| && EmittedBy(filed, a)
    && (forall i :: 0 <= i < |filed| ==> filed[i].predicateType == Emits(a)[i] && filed[i].verdict == Pass)
    && StampedAt(filed, w.now)
    && (forall i :: 0 <= i < |filed| ==> CurrentOne(w, filed, i))
  }

  ghost predicate StampedAt(filed: seq<Claim>, now: nat) {
    forall i :: 0 <= i < |filed| ==> filed[i].ts == now
  }

  ghost predicate CurrentOne(w: World, filed: seq<Claim>, i: nat)
    requires i < |filed|
  {
    var p := filed[i].predicateType;
    Selected(filed[i], p, w.at.subjects.For(p), Current(w.claims, w.at, p))
  }

  lemma CooperationPasses(w: World, request: Request, e: Effects)
    requires Cooperates(w, request, e) && Execute(w, request, e).1.Filed? && AllInputs(w.at.evidence)
    ensures FiledHonestly(w, request, e)
    ensures PassedOn(w, request.action, Execute(w, request, e).1.filed)
    ensures forall i :: 0 <= i < |Execute(w, request, e).1.filed| ==>
      Execute(w, request, e).1.filed[i].detail == e.answer.results[i].1.detail
  {
    CooperationHonors(w, request, e);
    FiledAreEmitted(w, request, e);
    forall i | 0 <= i < |Execute(w, request, e).1.filed|
      ensures FiledAs(w, request, Execute(w, request, e).1.filed[i], e.answer.results[i].0, e.answer.results[i].1)
      ensures e.answer.results[i].0 == Emits(request.action)[i] && e.answer.results[i].1.verdict == Pass
    {
      FiledSelects(w, request, e, i);
      assert PassesOn(Resolve(w, request), Emits(request.action)[i], e.answer.results[i].1, e.afterCheck);
    }
  }

  /** The newest of all, and passing, makes its predicate met. */
  lemma NewestIsMet(claims: seq<Claim>, k: nat, subject: Subject, required: set<Subject>)
    requires k < |claims| && Selected(claims[k], claims[k].predicateType, subject, required) && claims[k].verdict == Pass
    requires forall j :: 0 <= j < |claims| ==> claims[j].ts <= claims[k].ts
    requires forall j :: k < j < |claims| ==> claims[j].predicateType != claims[k].predicateType
    ensures Latest(claims, claims[k].predicateType, subject, required) == Some(k)
  {
    LatestIsNewest(claims, claims[k].predicateType, subject, required);
  }

  lemma NewestOfTheFiled(w: World, a: ActionName, filed: seq<Claim>, i: nat, subject: Subject, required: set<Subject>)
    requires InOrder(w) && EmittedBy(filed, a) && StampedAt(filed, w.now) && i < |filed|
    requires Selected(filed[i], filed[i].predicateType, subject, required) && filed[i].verdict == Pass
    ensures Latest(w.claims + filed, filed[i].predicateType, subject, required) == Some(|w.claims| + i)
  {
    var all := w.claims + filed;
    assert all[|w.claims| + i] == filed[i];
    forall j | |w.claims| <= j < |all| ensures all[j] == filed[j - |w.claims|] {
    }
    NewestIsMet(all, |w.claims| + i, subject, required);
  }

  lemma FiledIsNewest(w: World, a: ActionName, filed: seq<Claim>, i: nat)
    requires InOrder(w) && PassedOn(w, a, filed) && i < |filed|
    ensures var p := Emits(a)[i];
      Latest(w.claims + filed, p, w.at.subjects.For(p), Current(w.claims, w.at, p)) == Some(|w.claims| + i)
  {
    var p := Emits(a)[i];
    assert CurrentOne(w, filed, i);
    NewestOfTheFiled(w, a, filed, i, w.at.subjects.For(p), Current(w.claims, w.at, p));
  }

  lemma EmittedIsMet(w: World, a: ActionName, filed: seq<Claim>, i: nat)
    requires InOrder(w) && PassedOn(w, a, filed) && PhaseOfAction(a) == w.at.phase && i < |filed|
    ensures var p := Emits(a)[i];
      && MetNow(w.claims + filed, w.at, p)
      && Latest(w.claims + filed, p, w.at.subjects.For(p), Current(w.claims + filed, w.at, p)) == Some(|w.claims| + i)
  {
    FiledIsNewest(w, a, filed, i);
    CurrentIsKept(w.claims, filed, w.at, a, Emits(a)[i]);
    assert (w.claims + filed)[|w.claims| + i] == filed[i];
  }

  /** Without a build nothing that rests on one is met: no claim carries the sentinel. */
  lemma NothingRestsOnNoBuild(s: State, p: PredicateName)
    requires AllSound(s) && p !in FOUNDATION && CurrentBuild(s.world.claims, s.world.at).None?
    ensures !MetNow(s.world.claims, s.world.at, p)
  {
    assert NoCurrentBuild in Current(s.world.claims, s.world.at, p);
    forall k | 0 <= k < |s.world.claims| ensures NoCurrentBuild !in s.world.claims[k].materials {
      assert Sound(s.world.claims, s.filings[k], k);
    }
  }

  /** What was met stays met, if the action ran because its own predicate was not. */
  lemma MetStaysMet(s: State, p: PredicateName, filed: seq<Claim>, q: PredicateName)
    requires AllSound(s) && !MetNow(s.world.claims, s.world.at, p) && EmittedBy(filed, ProducerOf(p))
    requires MetNow(s.world.claims, s.world.at, q) && q !in Emits(ProducerOf(p)) && q != Performance_Speedup
    ensures MetNow(s.world.claims + filed, s.world.at, q)
  {
    var w, a := s.world, ProducerOf(p);
    var build := BuildPredicate(w.at.phase);
    EmittedByExcludes(filed, a, q);
    if q !in FOUNDATION {
      if build in Emits(a) {
        BuildersEmitOne(a, w.at.phase);
        ProducersEmit(p, a);
        SubjectOfTheBuild(w.at);
        NothingRestsOnNoBuild(s, q);
      } else {
        EmittedByExcludes(filed, a, build);
      }
    }
    CurrentIgnores(w.claims, filed, w.at, q);
    MetIgnores(w.claims, filed, q, w.at.subjects.For(q), Current(w.claims, w.at, q));
  }

  lemma NothingIsLost(s: State, withProperties: bool, p: PredicateName, filed: seq<Claim>, q: PredicateName)
    requires Invariant(s) && p in Unmet(s.world, withProperties) && PassedOn(s.world, ProducerOf(p), filed)
    requires IsNeeded(s.world.at.phase, withProperties, q) && (MetNow(s.world.claims, s.world.at, q) || q in Emits(ProducerOf(p)))
    ensures MetNow(s.world.claims + filed, s.world.at, q)
  {
    NeededRestsOnItsBuild(s.world.at.phase, withProperties, p);
    NeededRestsOnItsBuild(s.world.at.phase, withProperties, q);
    if q in Emits(ProducerOf(p)) {
      var i :| 0 <= i < |filed| && Emits(ProducerOf(p))[i] == q;
      EmittedIsMet(s.world, ProducerOf(p), filed, i);
    } else {
      MetStaysMet(s, p, filed, q);
    }
  }

  lemma LessIsUnmet(s: State, withProperties: bool, p: PredicateName, filed: seq<Claim>)
    requires Invariant(s) && p in Unmet(s.world, withProperties) && PassedOn(s.world, ProducerOf(p), filed)
    ensures Unmet(s.world.(claims := s.world.claims + filed), withProperties) < Unmet(s.world, withProperties)
  {
    var w' := s.world.(claims := s.world.claims + filed);
    ProducersEmit(p, ProducerOf(p));
    NothingIsLost(s, withProperties, p, filed, p);
    forall q | q in Unmet(w', withProperties) ensures q in Unmet(s.world, withProperties) && q != p {
      if MetNow(s.world.claims, s.world.at, q) {
        NothingIsLost(s, withProperties, p, filed, q);
      }
    }
  }

  // ---------------------------------------------------------------- one step

  lemma CleanStays(w: World, filed: seq<Claim>)
    requires Clean(w) && forall i :: 0 <= i < |filed| ==> filed[i].verdict == Pass
    ensures Clean(w.(claims := w.claims + filed))
  {
    var w' := w.(claims := w.claims + filed);
    forall i | |w.claims| <= i < |w'.claims| ensures w'.claims[i] == filed[i - |w.claims|] {
    }
  }

  lemma RetainsStays(w: World, request: Request, e: Effects, filed: seq<Claim>)
    requires InOrder(w) && Cooperates(w, request, e) && PassedOn(w, request.action, filed) && PhaseOfAction(request.action) == w.at.phase
    requires w.builder.Some? && forall i :: 0 <= i < |filed| ==> filed[i].detail == e.answer.results[i].1.detail
    ensures Retains(w.(claims := w.claims + filed, builder := Some(e.afterCheck)))
  {
    var run, a, build := Resolve(w, request), request.action, BuildPredicate(w.at.phase);
    if run.Builds() {
      BuildersEmitOne(a, w.at.phase);
      SubjectOfTheBuild(w.at);
      EmittedIsMet(w, a, filed, 0);
      assert PassesOn(run, Emits(a)[0], e.answer.results[0].1, e.afterCheck);
      assert (w.claims + filed)[|w.claims|] == filed[0];
    } else {
      EmittedByExcludes(filed, a, build);
      CohortIgnores(w.claims, filed, w.at);
    }
  }

  /** One run of a lowest unmet action is not refused, leaves strictly less unmet, and leaves the
      region as ready as it was. */
  lemma OneRunGetsCloser(s: State, withProperties: bool, p: PredicateName, configHash: nat, e: Effects)
    requires Ready(s) && Lowest(s.world, withProperties, p) && Cooperates(s.world, Request(ProducerOf(p), configHash), e)
    ensures var post := Post(Request(ProducerOf(p), configHash), e);
      && Execute(s.world, post.request, e).1.Filed? && Enabled(s, post) && Ready(Next(s, post))
      && Unmet(Next(s, post).world, withProperties) < Unmet(s.world, withProperties)
  {
    var request := Request(ProducerOf(p), configHash);
    var w' := Execute(s.world, request, e).0;
    LowestIsFiled(s, withProperties, p, configHash, e);
    CooperationPasses(s.world, request, e);
    var filed := Execute(s.world, request, e).1.filed;
    FiledAreEmitted(s.world, request, e);
    OnlyDispatchAppends(s.world, request, e);
    PostKeepsInvariant(s, request, e);
    CleanStays(s.world, filed);
    RetainsStays(s.world, request, e, filed);
    LessIsUnmet(s, withProperties, p, filed);
    UnmetIgnoresTheBuilder(w', s.world.builder, withProperties);
    assert w' == s.world.(claims := s.world.claims + filed, builder := Some(e.afterCheck));
  }

  lemma UnmetIgnoresTheBuilder(w: World, builder: Option<BuilderState>, withProperties: bool)
    ensures Unmet(w.(builder := builder), withProperties) == Unmet(w, withProperties)
  {
  }

  // ---------------------------------------------------------------- all the way

  /** A run of some lowest unmet action, with a check that passes. */
  ghost predicate Advances(s: State, t: State, withProperties: bool) {
    exists p, configHash, e ::
      && Lowest(s.world, withProperties, p) && Cooperates(s.world, Request(ProducerOf(p), configHash), e)
      && t == Next(s, Post(Request(ProducerOf(p), configHash), e))
  }

  lemma {:induction false} LowestOf(unmet: set<PredicateName>) returns (p: PredicateName)
    requires unmet != {}
    ensures p in unmet && forall q :: q in unmet ==> Rank(p) <= Rank(q)
    decreases |unmet|
  {
    p :| p in unmet;
    var rest := unmet - {p};
    if rest != {} {
      var q := LowestOf(rest);
      if Rank(q) < Rank(p) {
        p := q;
      }
    }
  }

  lemma UnmetWhenNotAccepted(w: World, withProperties: bool)
    requires !Accepted(w.claims, w.at, withProperties, true)
    ensures Unmet(w, withProperties) != {}
  {
    var p :| p in RequirementsFor(w.at.phase, withProperties) && !MetNow(w.claims, w.at, p);
    RequirementsAreListed(w.at.phase, withProperties, p);
    assert p in Unmet(w, withProperties);
  }

  /** Checks can pass: for any lowest unmet predicate there are effects of the kind asked for. */
  lemma CooperationIsPossible(s: State, withProperties: bool, p: PredicateName, configHash: nat) returns (e: Effects)
    requires Ready(s) && Lowest(s.world, withProperties, p)
    ensures Cooperates(s.world, Request(ProducerOf(p), configHash), e)
  {
    var w, a := s.world, ProducerOf(p);
    var run, emitted := Resolve(w, Request(a, configHash)), Emits(a);
    var records := if run.Builds() then [BuildRecord("built", [Target(Artifact("program", 0, None), [])])] else [];
    var held := BuilderState(run.identity, map["built" := Report(true, run.identity, map["program" := Retained(0, None, true)])]);
    var after := if run.Builds() then held else w.builder.value;
    var results := seq(|emitted|, i requires 0 <= i < |emitted| =>
      (emitted[i], CheckResult(Pass, Detail(records, None), {}, SubjectKindOf(emitted[i]), false, {}, records)));
    e := Effects(None, after, Answered(results), after);
    NeededRestsOnItsBuild(w.at.phase, withProperties, p);
    forall i | 0 <= i < |emitted| ensures PassesOn(run, emitted[i], results[i].1, after) {
      PassingResult(run, emitted[i], p, records, after);
    }
  }

  lemma PassingResult(run: Run, q: PredicateName, p: PredicateName, records: seq<BuildRecord>, after: BuilderState)
    requires run.action == ProducerOf(p) && q in Emits(run.action) && p != Performance_Speedup
    requires records == if run.Builds() then [BuildRecord("built", [Target(Artifact("program", 0, None), [])])] else []
    requires run.Builds() ==>
      after == BuilderState(run.identity, map["built" := Report(true, run.identity, map["program" := Retained(0, None, true)])])
    ensures PassesOn(run, q, CheckResult(Pass, Detail(records, None), {}, SubjectKindOf(q), false, {}, records), after)
  {
    ProducersEmit(q, run.action);
    ProducersEmit(p, run.action);
    ProducersEmit(Performance_Speedup, run.action);
    SpeedupAlone(q, p);
    if run.Builds() {
      BuildersEmitOne(run.action, run.at.phase);
      SubjectOfTheBuild(run.at);
    } else {
      assert Executables(records) == {};
    }
  }

  lemma SpeedupAlone(q: PredicateName, p: PredicateName)
    requires ProducerOf(q) == ProducerOf(p) && p != Performance_Speedup
    ensures q != Performance_Speedup
  {
  }

  lemma AdvancingIsReady(s: State, t: State, withProperties: bool)
    requires Ready(s) && Advances(s, t, withProperties)
    ensures Ready(t) && Stepped(s, t) && Unmet(t.world, withProperties) < Unmet(s.world, withProperties)
  {
    var p, configHash, e :| Lowest(s.world, withProperties, p) && Cooperates(s.world, Request(ProducerOf(p), configHash), e)
      && t == Next(s, Post(Request(ProducerOf(p), configHash), e));
    OneRunGetsCloser(s, withProperties, p, configHash, e);
  }

  lemma SmallerSet(a: set<PredicateName>, b: set<PredicateName>)
    requires a < b
    ensures |a| < |b|
  {
    var x :| x in b && x !in a;
    assert a <= b - {x};
    SubsetIsNoLarger(a, b - {x});
  }

  lemma {:induction false} SubsetIsNoLarger(a: set<PredicateName>, b: set<PredicateName>)
    requires a <= b
    ensures |a| <= |b|
    decreases |a|
  {
    if a != {} {
      var x :| x in a;
      SubsetIsNoLarger(a - {x}, b - {x});
    }
  }

  lemma SomeAdvance(s: State, withProperties: bool) returns (t: State)
    requires Ready(s) && !Accepted(s.world.claims, s.world.at, withProperties, true)
    ensures Advances(s, t, withProperties) && Ready(t)
    ensures |Unmet(t.world, withProperties)| < |Unmet(s.world, withProperties)|
  {
    UnmetWhenNotAccepted(s.world, withProperties);
    var p := LowestOf(Unmet(s.world, withProperties));
    var e := CooperationIsPossible(s, withProperties, p, 0);
    t := Next(s, Post(Request(ProducerOf(p), 0), e));
    assert Advances(s, t, withProperties);
    AdvancingIsReady(s, t, withProperties);
    SmallerSet(Unmet(t.world, withProperties), Unmet(s.world, withProperties));
  }

  /** From any ready state there is such a run to acceptance, of at most as many steps as there are
      predicates unmet. */
  lemma {:induction false} AcceptanceIsReached(s: State, withProperties: bool) returns (path: seq<State>)
    requires Ready(s)
    ensures path != [] && path[0] == s && |path| <= |Unmet(s.world, withProperties)| + 1
    ensures forall i :: 0 <= i < |path| - 1 ==> Advances(path[i], path[i + 1], withProperties)
    ensures var w := path[|path| - 1].world; Accepted(w.claims, w.at, withProperties, true)
    decreases |Unmet(s.world, withProperties)|
  {
    if Accepted(s.world.claims, s.world.at, withProperties, true) {
      path := [s];
    } else {
      var t := SomeAdvance(s, withProperties);
      var rest := AcceptanceIsReached(t, withProperties);
      path := [s] + rest;
      StepsPrepended(s, rest, withProperties);
    }
  }

  lemma StepsPrepended(s: State, rest: seq<State>, withProperties: bool)
    requires rest != [] && Advances(s, rest[0], withProperties)
    requires forall i :: 0 <= i < |rest| - 1 ==> Advances(rest[i], rest[i + 1], withProperties)
    ensures forall i :: 0 <= i < |[s] + rest| - 1 ==> Advances(([s] + rest)[i], ([s] + rest)[i + 1], withProperties)
  {
    var path := [s] + rest;
    forall i | 0 <= i < |path| - 1 ensures Advances(path[i], path[i + 1], withProperties) {
      if i > 0 {
        assert path[i] == rest[i - 1] && path[i + 1] == rest[i - 1 + 1];
      }
    }
  }

  /** And no choice of actions or of passing checks can put it off: every such run is that short, and
      one that has used up its steps has arrived. */
  lemma {:induction false} EveryAdvanceCounts(path: seq<State>, withProperties: bool)
    requires path != [] && Ready(path[0])
    requires forall i :: 0 <= i < |path| - 1 ==> Advances(path[i], path[i + 1], withProperties)
    ensures |path| - 1 + |Unmet(path[|path| - 1].world, withProperties)| <= |Unmet(path[0].world, withProperties)|
    ensures Ready(path[|path| - 1])
    ensures var w := path[|path| - 1].world;
      |path| - 1 == |Unmet(path[0].world, withProperties)| ==> Accepted(w.claims, w.at, withProperties, true)
    decreases |path|
  {
    if |path| > 1 {
      assert Advances(path[0], path[0 + 1], withProperties);
      AdvancingIsReady(path[0], path[1], withProperties);
      SmallerSet(Unmet(path[1].world, withProperties), Unmet(path[0].world, withProperties));
      EveryAdvanceCounts(path[1..], withProperties);
    }
    var w := path[|path| - 1].world;
    if !Accepted(w.claims, w.at, withProperties, true) {
      UnmetWhenNotAccepted(w, withProperties);
    }
  }

  // ---------------------------------------------------------------- from the first request on

  /** A region nobody has touched is ready, once its backends are there. */
  lemma FreshRegionsAreReady(s: State)
    requires Initial(s) && s.world.builder.Some? && s.world.at.phase in PHASES
    requires s.world.at.phase == PORTING ==> s.world.oracle
    ensures Ready(s)
  {
    assert Latest(s.world.claims, BuildPredicate(s.world.at.phase), s.world.at.subjects.tree, s.world.at.evidence) == None;
  }

  lemma {:induction false} AdvancesStayReady(path: seq<State>, withProperties: bool, i: nat)
    requires path != [] && Ready(path[0]) && i < |path|
    requires forall k :: 0 <= k < |path| - 1 ==> Advances(path[k], path[k + 1], withProperties)
    ensures Ready(path[i]) && (i > 0 ==> Stepped(path[i - 1], path[i]))
  {
    if i > 0 {
      AdvancesStayReady(path, withProperties, i - 1);
      assert Advances(path[i - 1], path[i - 1 + 1], withProperties);
      AdvancingIsReady(path[i - 1], path[i], withProperties);
    }
  }

  /** So acceptance is not an empty promise: from an empty ledger there is a run of the whole system
      that ends accepted, and everything proved of reachable ledgers holds of it. */
  lemma FreshRegionsCanBeAccepted(s: State, withProperties: bool) returns (run: seq<State>)
    requires Initial(s) && s.world.builder.Some? && s.world.at.phase in PHASES
    requires s.world.at.phase == PORTING ==> s.world.oracle
    ensures Trace(run) && run[0] == s
    ensures var w := run[|run| - 1].world; Accepted(w.claims, w.at, withProperties, true)
  {
    FreshRegionsAreReady(s);
    run := AcceptanceIsReached(s, withProperties);
    forall i | 0 < i < |run| ensures Stepped(run[i - 1], run[i]) {
      AdvancesStayReady(run, withProperties, i);
    }
  }
}
