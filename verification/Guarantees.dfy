/** What the invariant of the gateway's runs comes to: complete chains of evidence, exact
    executables, and speedups that go stale with the timings they compared. */
module Guarantees {
  import opened Wrappers
  import opened Workflow
  import opened Catalog
  import opened Evidence
  import opened Gateway
  import opened GatewayRuns

  // ---------------------------------------------------------------- evidence chains

  /** Claim `k` was filed by the action its own predicate belongs to, and every prerequisite of that
      action was passed before it, in the context `k` was filed under, by a claim of which the same is
      true. */
  ghost predicate RestsOnAChain(claims: seq<Claim>, filings: seq<Filing>, k: nat)
    requires |filings| == |claims| && k < |claims|
    decreases k
  {
    && filings[k].action == ProducerOf(claims[k].predicateType)
    && forall q :: q in Prerequisites(ProducerOf(claims[k].predicateType)) ==>
         exists j: nat :: Backed(claims, filings[k], k, q, j) && RestsOnAChain(claims, filings, j)
  }

  lemma {:induction false} SoundClaimsRestOnChains(s: State, k: nat)
    requires AllSound(s) && k < |s.filings|
    ensures RestsOnAChain(s.world.claims, s.filings, k)
    decreases k
  {
    var claims, f := s.world.claims, s.filings[k];
    assert Sound(claims, f, k);
    ProducersEmit(claims[k].predicateType, f.action);
    forall q | q in Prerequisites(f.action)
      ensures exists j: nat :: Backed(claims, f, k, q, j) && RestsOnAChain(claims, s.filings, j)
    {
      var j :| Backed(claims, f, k, q, j);
      SoundClaimsRestOnChains(s, j);
    }
  }

  /** In every reachable ledger, each claim, passing or not, was filed on a complete chain. */
  lemma EveryClaimRestsOnAChain(run: seq<State>, i: nat, k: nat)
    requires Trace(run) && i < |run| && k < |run[i].world.claims|
    ensures |run[i].filings| == |run[i].world.claims|
    ensures RestsOnAChain(run[i].world.claims, run[i].filings, k)
  {
    InvariantHolds(run, i);
    SoundClaimsRestOnChains(run[i], k);
  }

  /** Before claim `k` the check `q` passed: on the same tree, unless it is the timing of the baseline. */
  ghost predicate PassedBefore(claims: seq<Claim>, k: nat, q: PredicateName, j: nat) {
    && j < k < |claims| && claims[j].verdict == Pass && claims[j].predicateType == q
    && (q != Timing_Baseline ==> claims[j].subject == claims[k].subject)
  }

  ghost predicate HasPassed(claims: seq<Claim>, k: nat, q: PredicateName) {
    exists j :: PassedBefore(claims, k, q, j)
  }

  /** Whatever a claim's predicate stands on, through however many others, passed before it on its tree. */
  lemma EverythingBelowPassed(run: seq<State>, i: nat, k: nat, q: PredicateName)
    requires Trace(run) && i < |run| && k < |run[i].world.claims|
    requires StandsOn(run[i].world.claims[k].predicateType, q)
    ensures HasPassed(run[i].world.claims, k, q)
  {
    InvariantHolds(run, i);
    var claims, p := run[i].world.claims, run[i].world.claims[k].predicateType;
    var passed := set r: PredicateName | HasPassed(claims, k, r);
    forall r | r in Prerequisites(ProducerOf(p)) ensures r in passed {
      BackedBefore(run[i], k, r);
    }
    forall r, r' | r in passed && r' in Prerequisites(ProducerOf(r)) ensures r' in passed {
      OneFurtherDown(run[i], k, r, r');
    }
    assert Closed(passed) && Grounded(p, passed);
  }

  lemma OneFurtherDown(s: State, k: nat, r: PredicateName, q: PredicateName)
    requires AllSound(s) && HasPassed(s.world.claims, k, r) && q in Prerequisites(ProducerOf(r))
    ensures HasPassed(s.world.claims, k, q)
  {
    var j :| PassedBefore(s.world.claims, k, r, j);
    BackedBefore(s, j, q);
    NothingBelowTheBaseline(r, q);
    var m :| PassedBefore(s.world.claims, j, q, m);
    assert PassedBefore(s.world.claims, k, q, m);
  }

  lemma NothingBelowTheBaseline(r: PredicateName, q: PredicateName)
    requires q in Prerequisites(ProducerOf(r))
    ensures r != Timing_Baseline
  {
  }

  lemma BackedBefore(s: State, k: nat, q: PredicateName)
    requires AllSound(s) && k < |s.world.claims|
    requires q in Prerequisites(ProducerOf(s.world.claims[k].predicateType))
    ensures HasPassed(s.world.claims, k, q)
  {
    var claims, f := s.world.claims, s.filings[k];
    assert Sound(claims, f, k);
    ProducersEmit(claims[k].predicateType, f.action);
    var j :| Backed(claims, f, k, q, j);
    NothingBelowTheBaseline(claims[k].predicateType, q);
    OnlyTheBaselineIsTimedApart(f.at.subjects, claims[k].predicateType);
    OnlyTheBaselineIsTimedApart(f.at.subjects, q);
    assert PassedBefore(claims, k, q, j);
  }

  lemma OnlyTheBaselineIsTimedApart(subjects: Subjects, p: PredicateName)
    ensures subjects.For(p) == if p == Timing_Baseline then subjects.baselineTree else subjects.tree
  {
  }

  /** A port that was timed, or whose speedup was judged, passed before that everything its acceptance asks
      for but the declared invariants, on that very tree; and the baseline was timed. */
  lemma TimedPortsPassedEverything(run: seq<State>, i: nat, k: nat, q: PredicateName)
    requires Trace(run) && i < |run| && k < |run[i].world.claims|
    requires run[i].world.claims[k].predicateType in {Timing_Port, Performance_Speedup}
    requires (IsRequirement(PORTING, false, q) && q != run[i].world.claims[k].predicateType) || q == Timing_Baseline
    ensures HasPassed(run[i].world.claims, k, q)
  {
    PortTimingStandsOn(q);
    SpeedupStandsOn(q);
    RequiredOfAPort(q);
    EverythingBelowPassed(run, i, k, q);
  }

  lemma RequiredOfAPort(q: PredicateName)
    ensures IsRequirement(PORTING, false, q) ==> PhaseOf(q) == PORTING && q != Performance_Speedup && q != Regression_Property
    ensures PhaseOf(Timing_Baseline) == PORTING
  {
  }

  /** The claim at `k` is current, passing evidence of `p`, on a complete chain. */
  ghost predicate Proves(s: State, p: PredicateName, k: nat) {
    && k < |s.world.claims| == |s.filings|
    && s.world.claims[k].verdict == Pass
    && Selected(s.world.claims[k], p, s.world.at.subjects.For(p), Current(s.world.claims, s.world.at, p))
    && RestsOnAChain(s.world.claims, s.filings, k)
  }

  /** An accepted tree has such a claim for every requirement; and what a requirement rests on is
      itself a requirement, so currently met as well, but for the timing of the baseline, which the
      program comparison was backed by when it was filed. */
  lemma AcceptedTreesAreComplete(run: seq<State>, i: nat, withProperties: bool, p: PredicateName)
    requires Trace(run) && i < |run| && Accepted(run[i].world.claims, run[i].world.at, withProperties, true)
    requires IsRequirement(run[i].world.at.phase, withProperties, p)
    ensures exists k: nat :: Proves(run[i], p, k)
    ensures forall q :: q in Prerequisites(ProducerOf(p)) ==>
      (exists k: nat :: Proves(run[i], q, k)) || (p == Program_Regression && q == Timing_Baseline)
  {
    RequirementIsProved(run, i, withProperties, p);
    forall q | q in Prerequisites(ProducerOf(p)) && !(p == Program_Regression && q == Timing_Baseline)
      ensures exists k: nat :: Proves(run[i], q, k)
    {
      RequirementsAreClosed(run[i].world.at.phase, withProperties, p, q);
      RequirementIsProved(run, i, withProperties, q);
    }
  }

  lemma RequirementIsProved(run: seq<State>, i: nat, withProperties: bool, p: PredicateName)
    requires Trace(run) && i < |run| && Accepted(run[i].world.claims, run[i].world.at, withProperties, true)
    requires IsRequirement(run[i].world.at.phase, withProperties, p)
    ensures exists k: nat :: Proves(run[i], p, k)
  {
    var w := run[i].world;
    RequirementsAreListed(w.at.phase, withProperties, p);
    assert MetNow(w.claims, w.at, p);
    var k := Latest(w.claims, p, w.at.subjects.For(p), Current(w.claims, w.at, p)).value;
    EveryClaimRestsOnAChain(run, i, k);
    assert Proves(run[i], p, k);
  }

  /** The chains hold because components answer only about what their action emits; the gateway does
      not check that. Exactly these of the answers it accepts leave a claim that is about its filing:
      on a predicate of the action, on that predicate's subject, with no sentinel among the inputs. */
  lemma AnswersAboutTheirActionExactly(run: Run, id: nat, p: PredicateName, r: CheckResult, f: Filing)
    requires Checked(run, p, r) && AllInputs(run.at.evidence) && forall s :: s in run.cohort ==> s.Executable?
    requires f == Filing(run.action, run.at, run.cohort, r.measuresOtherBinaries) && PhaseOfAction(run.action) == run.at.phase
    ensures AboutItsFiling(ClaimFrom(run, id, p, r), f) <==>
      && p in Emits(run.action)
      && run.at.subjects.Named(r.subjectKind) == Some(run.at.subjects.For(p))
      && NoCurrentBuild !in r.materials && NoCurrentTimingClaims !in r.materials
  {
    var c := ClaimFrom(run, id, p, r);
    assert c.materials == run.at.evidence + (if p in FOUNDATION then {} else run.cohort) + r.BinaryMaterials() + r.materials;
    assert forall s :: s in r.BinaryMaterials() ==> s.Executable?;
  }

  /** An answer beyond its action is filed without the gate of the predicate it names: here
      the analyzer's check is the first request ever, and what it files says a kernel ran. */
  lemma AnswersBeyondTheActionEscape(tree: nat, baseline: nat, evidence: set<Subject>, verdict: Verdict)
    ensures var w := World([], Context(PORTING, Subjects(Tree(tree), Frozen(0), Tree(baseline)), evidence), 0, None, false);
      var answer := Answered([(Gpu_Executed, CheckResult(verdict, Detail([], None), {}, "tree", false, {}, []))]);
      var none := BuilderState(0, map[]);
      var (w', response) := Execute(w, Request(SeseCheck, 0), Effects(None, none, answer, none));
      && response.Filed? && |w'.claims| == 1
      && w'.claims[0].predicateType == Gpu_Executed && w'.claims[0].verdict == verdict
  {
    var w := World([], Context(PORTING, Subjects(Tree(tree), Frozen(0), Tree(baseline)), evidence), 0, None, false);
    var run := Resolve(w, Request(SeseCheck, 0));
    assert Emits(SeseCheck) == [Sese_Verified] && Prerequisites(SeseCheck) == [];
    NothingMissingExactly(w, Request(SeseCheck, 0));
    assert DuplicateOf(run, Sese_Verified).None?;
    assert Sese_Verified in Emits(SeseCheck);
    assert Executables([]) == {};
  }

  // ---------------------------------------------------------------- executables

  /** Every passing claim that rests on a build, and is not declared to measure other binaries, names
      exactly the executables of one earlier passing build of the very tree it is about. */
  lemma CohortsAreExact(run: seq<State>, i: nat, k: nat)
    requires Trace(run) && i < |run| && k < |run[i].world.claims| == |run[i].filings|
    requires run[i].world.claims[k].verdict == Pass && run[i].world.claims[k].predicateType !in FOUNDATION
    requires !run[i].filings[k].measuresOtherBinaries
    ensures exists j: nat :: j < k && IsTheBuildOf(run[i].world, j, run[i].world.claims[k])
  {
    InvariantHolds(run, i);
    SoundIsExact(run[i].world, run[i].filings[k], k);
  }

  lemma SoundIsExact(w: World, f: Filing, k: nat)
    requires Sound(w.claims, f, k) && f.at.phase == w.at.phase
    requires w.claims[k].verdict == Pass && w.claims[k].predicateType !in FOUNDATION && !f.measuresOtherBinaries
    ensures exists j: nat :: j < k && IsTheBuildOf(w, j, w.claims[k])
  {
    var j: nat :| BuiltBy(w.claims, f, k, j);
    SubjectOfTheBuild(f.at);
    DependentsAreAboutTheTree(f.at.subjects, w.claims[k].predicateType);
    assert IsTheBuildOf(w, j, w.claims[k]);
  }

  lemma DependentsAreAboutTheTree(subjects: Subjects, p: PredicateName)
    requires p !in FOUNDATION
    ensures subjects.For(p) == subjects.tree
  {
  }

  ghost predicate IsTheBuildOf(w: World, j: nat, c: Claim) {
    && j < |w.claims| && w.claims[j].verdict == Pass && w.claims[j].predicateType == BuildPredicate(w.at.phase)
    && w.claims[j].subject == c.subject
    && ExecutablesIn(c.materials) == Executables(w.claims[j].detail.records) != {}
  }

  lemma DispatchIgnoresTheBuilder(run: Run, other: Run, e: Effects)
    requires run.builder.Some? && other.builder.Some? && other == run.(builder := other.builder)
    ensures DispatchAndRecord(other, e).response == DispatchAndRecord(run, e).response
    ensures DispatchAndRecord(other, e).run.claims == DispatchAndRecord(run, e).run.claims
  {
    assert run.After(e.afterCheck) == other.After(e.afterCheck);
  }

  /** A check that does not build is gated, answered and filed without a look at what the builder held. */
  lemma OnlyBuildsAskTheBuilder(run: Run, other: Run, e: Effects)
    requires !run.Builds() && run.builder.Some? && other.builder.Some? && other == run.(builder := other.builder)
    ensures MissingRequirements(other) == MissingRequirements(run)
    ensures ClaimsAlreadyFiled(other) == ClaimsAlreadyFiled(run)
    ensures DispatchAndRecord(other, e).response == DispatchAndRecord(run, e).response
    ensures DispatchAndRecord(other, e).run.claims == DispatchAndRecord(run, e).run.claims
  {
    MissingIgnoresTheBuilder(run, other, Prerequisites(run.action));
    DuplicatesIgnoreTheBuilder(run, other);
    DispatchIgnoresTheBuilder(run, other, e);
  }

  /** Losing the build changes nothing about a request whose restore succeeds: it is answered as if
      the builder had held the build all along, with the same claims. */
  lemma RestoringIsTransparent(w: World, request: Request, e: Effects, held: BuilderState)
    requires var run := Resolve(w, request);
      && RestsOnBuild(run.action) && run.buildClaim.Some? && RestoredBuild(run, e).stopped.None?
      && w.builder.Some? && held.identity == w.builder.value.identity
      && RecordsHeld(Some(held), run.buildClaim.value.detail.records, run.identity)
    ensures Execute(w, request, e).1 == Execute(w.(builder := Some(held)), request, e).1
    ensures Execute(w, request, e).0.claims == Execute(w.(builder := Some(held)), request, e).0.claims
  {
    var run, other := Resolve(w, request), Resolve(w.(builder := Some(held)), request);
    RestoringKeepsTheRest(run, e);
    DependentsDoNotBuild(run);
    OnlyBuildsAskTheBuilder(RestoredBuild(run, e).run, other, e);
  }

  lemma DependentsDoNotBuild(run: Run)
    requires RestsOnBuild(run.action)
    ensures !run.Builds()
  {
    if run.Builds() {
      ActionsAreOfOneKind(run.action, BuildPredicate(run.at.phase));
    }
  }

  // ---------------------------------------------------------------- timings

  /** A current observation of the port or of the baseline, passing or not. */
  ghost predicate Observation(w: World, t: nat) {
    && t < |w.claims|
    && (|| Selected(w.claims[t], Timing_Port, w.at.subjects.tree, Current(w.claims, w.at, Timing_Port))
        || Selected(w.claims[t], Timing_Baseline, w.at.subjects.baselineTree, w.at.evidence))
  }

  /** An answer from the ledger: past the gate, the last claims of every emitted predicate. */
  lemma AnsweredFromTheLedger(w: World, request: Request, e: Effects)
    requires Execute(w, request, e).1.Duplicate?
    ensures forall q :: q in Prerequisites(request.action) ==> MetNow(w.claims, w.at, q)
    ensures var existing, emitted := Execute(w, request, e).1.existing, Emits(request.action);
      && |existing| == |emitted|
      && forall i :: 0 <= i < |emitted| ==>
           && DuplicateOf(Resolve(w, request), emitted[i]).Some?
           && existing[i] == w.claims[DuplicateOf(Resolve(w, request), emitted[i]).value]
  {
    var run := Resolve(w, request);
    RestoringKeepsTheRest(run, e);
    NothingMissingExactly(w, request);
    SameDuplicates(run, RestoredBuild(run, e).run);
  }

  lemma SameDuplicates(run: Run, other: Run)
    requires other == run.(builder := other.builder)
    ensures forall p :: DuplicateOf(other, p) == DuplicateOf(run, p)
  {
  }

  lemma SpeedupFound(w: World, request: Request, existing: seq<Claim>) returns (k: nat)
    requires request.action == PerformanceCheck && |existing| == |Emits(request.action)|
    requires forall q :: q in Prerequisites(request.action) ==> MetNow(w.claims, w.at, q)
    requires forall i :: 0 <= i < |existing| ==>
      && DuplicateOf(Resolve(w, request), Emits(request.action)[i]).Some?
      && existing[i] == w.claims[DuplicateOf(Resolve(w, request), Emits(request.action)[i]).value]
    ensures k < |w.claims| && existing == [w.claims[k]]
    ensures Selected(w.claims[k], Performance_Speedup, w.at.subjects.tree, Current(w.claims, w.at, Performance_Speedup))
    ensures MetNow(w.claims, w.at, Timing_Port) && MetNow(w.claims, w.at, Timing_Baseline)
  {
    PerformanceRow(request.action);
    assert Emits(request.action)[0] == Performance_Speedup;
    k := DuplicateOf(Resolve(w, request), Performance_Speedup).value;
  }

  lemma PerformanceRow(a: ActionName)
    requires a == PerformanceCheck
    ensures Emits(a) == [Performance_Speedup] && Timing_Port in Prerequisites(a) && Timing_Baseline in Prerequisites(a)
  {
    assert Prerequisites(a) == [Timing_Port, Timing_Baseline];
  }

  /** A speedup answered from the ledger was filed after every observation of the current context:
      once a newer timing is filed, the request is refused or computed again. */
  lemma SpeedupsAreRetired(run: seq<State>, i: nat, request: Request, e: Effects, t: nat)
    requires Trace(run) && i < |run| && Observation(run[i].world, t)
    requires request.action == PerformanceCheck && Execute(run[i].world, request, e).1.Duplicate?
    ensures var existing := Execute(run[i].world, request, e).1.existing;
      |existing| == 1 && exists k: nat :: t < k < |run[i].world.claims| && run[i].world.claims[k] == existing[0]
  {
    InvariantHolds(run, i);
    SpeedupIsNewer(run[i], request, e, t);
  }

  lemma SpeedupIsNewer(s: State, request: Request, e: Effects, t: nat)
    requires Invariant(s) && Observation(s.world, t)
    requires request.action == PerformanceCheck && Execute(s.world, request, e).1.Duplicate?
    ensures var existing := Execute(s.world, request, e).1.existing;
      |existing| == 1 && exists k: nat :: t < k < |s.world.claims| && s.world.claims[k] == existing[0]
  {
    AnsweredFromTheLedger(s.world, request, e);
    var k := SpeedupFound(s.world, request, Execute(s.world, request, e).1.existing);
    SpeedupFollowsItsObservations(s, k, t);
  }

  /** A speedup never stands without current timings of both trees, each passed: it is about those two
      and no others. */
  lemma SpeedupsNeedTheirTimings(run: seq<State>, i: nat)
    requires Trace(run) && i < |run|
    requires MetNow(run[i].world.claims, run[i].world.at, Performance_Speedup)
    ensures MetNow(run[i].world.claims, run[i].world.at, Timing_Port)
    ensures MetNow(run[i].world.claims, run[i].world.at, Timing_Baseline)
    ensures var claims, at := run[i].world.claims, run[i].world.at;
      var speedup := Latest(claims, Performance_Speedup, at.subjects.tree, Current(claims, at, Performance_Speedup));
      speedup.Some? && RestsOnTimings(claims, at, claims[speedup.value])
  {
    InvariantHolds(run, i);
    SpeedupRestsOnTimings(run[i]);
  }

  /** The claim names the latest timing of each tree. */
  ghost predicate RestsOnTimings(claims: seq<Claim>, at: Context, c: Claim) {
    var port := Latest(claims, Timing_Port, at.subjects.tree, Current(claims, at, Timing_Port));
    var baseline := Latest(claims, Timing_Baseline, at.subjects.baselineTree, at.evidence);
    && port.Some? && TimingMaterial(claims[port.value]) in c.materials
    && baseline.Some? && TimingMaterial(claims[baseline.value]) in c.materials
  }

  lemma SpeedupRestsOnTimings(s: State)
    requires Invariant(s) && MetNow(s.world.claims, s.world.at, Performance_Speedup)
    ensures MetNow(s.world.claims, s.world.at, Timing_Port) && MetNow(s.world.claims, s.world.at, Timing_Baseline)
    ensures var claims, at := s.world.claims, s.world.at;
      var speedup := Latest(claims, Performance_Speedup, at.subjects.tree, Current(claims, at, Performance_Speedup));
      speedup.Some? && RestsOnTimings(claims, at, claims[speedup.value])
  {
    var claims, at := s.world.claims, s.world.at;
    var required := Current(claims, at, Timing_Port);
    var k := Latest(claims, Performance_Speedup, at.subjects.tree, Current(claims, at, Performance_Speedup)).value;
    assert PerformanceMaterials(claims, at, required) <= claims[k].materials;
    NoPlaceholder(s, k);
    TimingsAreCurrent(claims, at, required);
  }

  lemma NoPlaceholder(s: State, k: nat)
    requires Invariant(s) && k < |s.world.claims|
    ensures NoCurrentTimingClaims !in s.world.claims[k].materials
  {
    assert Sound(s.world.claims, s.filings[k], k);
    assert AboutItsFiling(s.world.claims[k], s.filings[k]);
  }

  lemma TimingsAreCurrent(claims: seq<Claim>, at: Context, required: set<Subject>)
    requires required == Current(claims, at, Timing_Port)
    requires NoCurrentTimingClaims !in PerformanceMaterials(claims, at, required)
    ensures MetNow(claims, at, Timing_Port) && MetNow(claims, at, Timing_Baseline)
    ensures TimingMaterial(claims[Latest(claims, Timing_Port, at.subjects.tree, required).value]) in PerformanceMaterials(claims, at, required)
    ensures TimingMaterial(claims[Latest(claims, Timing_Baseline, at.subjects.baselineTree, at.evidence).value])
      in PerformanceMaterials(claims, at, required)
  {
  }

  lemma SpeedupFollowsItsObservations(s: State, k: nat, t: nat)
    requires Invariant(s) && Observation(s.world, t)
    requires MetNow(s.world.claims, s.world.at, Timing_Port) && MetNow(s.world.claims, s.world.at, Timing_Baseline)
    requires k < |s.world.claims|
    requires Selected(s.world.claims[k], Performance_Speedup, s.world.at.subjects.tree,
      Current(s.world.claims, s.world.at, Performance_Speedup))
    ensures t < k
  {
    var claims, at := s.world.claims, s.world.at;
    var required := Current(claims, at, Timing_Port);
    assert PerformanceMaterials(claims, at, required) <= claims[k].materials;
    if Selected(claims[t], Timing_Port, at.subjects.tree, required) {
      LatestIsReferredTo(s, Timing_Port, at.subjects.tree, required, k, t);
    } else {
      LatestIsReferredTo(s, Timing_Baseline, at.subjects.baselineTree, at.evidence, k, t);
    }
  }

  lemma LatestIsReferredTo(s: State, p: PredicateName, subject: Subject, required: set<Subject>, k: nat, t: nat)
    requires Invariant(s) && k < |s.world.claims| && t < |s.world.claims|
    requires Selected(s.world.claims[t], p, subject, required)
    requires var latest := Latest(s.world.claims, p, subject, required);
      latest.Some? ==> TimingMaterial(s.world.claims[latest.value]) in s.world.claims[k].materials
    ensures t < k
  {
    LatestIsLast(s.world.claims, p, subject, required, t);
    ReferencesGoBack(s, k, Latest(s.world.claims, p, subject, required).value);
  }

  /** A claim names only observations filed before it: ids are never given twice. */
  lemma ReferencesGoBack(s: State, k: nat, n: nat)
    requires Invariant(s) && k < |s.world.claims| && n < |s.world.claims|
    requires TimingMaterial(s.world.claims[n]) in s.world.claims[k].materials
    ensures n < k
  {
    var claims := s.world.claims;
    assert Sound(claims, s.filings[k], k);
    var m := TimingMaterial(claims[n]);
    var j: nat :| Observed(claims, k, m, j);
    assert claims[j].id == claims[n].id;
  }
}
