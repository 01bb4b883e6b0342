/** The gateway and its ledger over whole runs: submits, requests with any verdicts, edits of the
    evidence context, lost and replaced backends, and the clock, in any order. */
module GatewayRuns {
  import opened Wrappers
  import opened Catalog
  import opened Evidence
  import opened Gateway

  // ---------------------------------------------------------------- the system

  /** Under what one claim was filed: kept beside the ledger, and never read by the gateway. */
  datatype Filing = Filing(action: ActionName, at: Context, cohort: set<Subject>, measuresOtherBinaries: bool)

  datatype State = State(world: World, filings: seq<Filing>)

  datatype Event =
    | Submit(tree: nat, frozen: nat)
    | Edit(evidence: set<Subject>, frozenSet: nat)
    | Backends(builder: Option<BuilderState>, oracle: bool)
    | Tick(seconds: nat)
    | Post(request: Request, effects: Effects)

  ghost predicate AllInputs(materials: set<Subject>) {
    forall s :: s in materials ==> IsInput(s)
  }

  /** Any event may happen; of a check that gets to answer, its component's contract is asked. */
  ghost predicate Enabled(s: State, e: Event) {
    match e
    case Edit(evidence, _) => AllInputs(evidence)
    case Post(request, effects) =>
      Execute(s.world, request, effects).1.Filed? && effects.answer.Answered? ==>
        Honors(Resolve(s.world, request), effects.answer.results)
    case _ => true
  }

  function FilingsFrom(run: Run, results: seq<(PredicateName, CheckResult)>): (r: seq<Filing>)
    ensures |r| == |results|
    ensures forall i :: 0 <= i < |r| ==> r[i] == Filing(run.action, run.at, run.cohort, results[i].1.measuresOtherBinaries)
  {
    seq(|results|, i requires 0 <= i < |results| => Filing(run.action, run.at, run.cohort, results[i].1.measuresOtherBinaries))
  }

  function Next(s: State, e: Event): State {
    var w := s.world;
    match e
    case Submit(tree, frozen) =>
      s.(world := w.(at := w.at.(subjects := w.at.subjects.(tree := Tree(tree), frozen := Frozen(frozen)))))
    case Edit(evidence, frozen) =>
      s.(world := w.(at := w.at.(evidence := evidence, subjects := w.at.subjects.(frozen := Frozen(frozen)))))
    case Backends(builder, oracle) => s.(world := w.(builder := builder, oracle := oracle))
    case Tick(seconds) => s.(world := w.(now := w.now + seconds))
    case Post(request, effects) =>
      var (w', response) := Execute(w, request, effects);
      State(w',
        if response.Filed? && effects.answer.Answered?
        then s.filings + FilingsFrom(Resolve(w, request), effects.answer.results)
        else s.filings)
  }

  ghost predicate Initial(s: State) {
    && s.world.claims == [] && s.filings == [] && AllInputs(s.world.at.evidence)
    && s.world.at.subjects.tree.Tree? && s.world.at.subjects.baselineTree.Tree?
  }

  ghost predicate Stepped(s: State, t: State) {
    exists e :: Enabled(s, e) && t == Next(s, e)
  }

  ghost predicate Trace(run: seq<State>) {
    && run != [] && Initial(run[0])
    && forall i {:trigger run[i]} :: 0 < i < |run| ==> Stepped(run[i - 1], run[i])
  }

  // ---------------------------------------------------------------- what every claim rests on

  /** What a claim of type `q` had to carry to count when `f` was filed. */
  function Carried(f: Filing, q: PredicateName): set<Subject> {
    f.at.evidence + if q in FOUNDATION then {} else f.cohort
  }

  /** Claim `j` passed, before claim `k`, on the subject and in the context claim `k` was filed under. */
  ghost predicate Backed(claims: seq<Claim>, f: Filing, k: nat, q: PredicateName, j: nat) {
    && j < k <= |claims| && claims[j].verdict == Pass
    && Selected(claims[j], q, f.at.subjects.For(q), Carried(f, q))
  }

  /** Claim `j` is the build whose executables claim `k` is about. */
  ghost predicate BuiltBy(claims: seq<Claim>, f: Filing, k: nat, j: nat) {
    && Backed(claims, f, k, BuildPredicate(f.at.phase), j)
    && Executables(claims[j].detail.records) == f.cohort
  }

  function ExecutablesIn(materials: set<Subject>): set<Subject> {
    set s | s in materials && s.Executable?
  }

  ghost predicate Observed(claims: seq<Claim>, k: nat, s: Subject, j: nat) {
    j < k <= |claims| && TimingMaterial(claims[j]) == s
  }

  ghost predicate AboutItsFiling(c: Claim, f: Filing) {
    && c.predicateType in Emits(f.action) && PhaseOfAction(f.action) == f.at.phase
    && Selected(c, c.predicateType, f.at.subjects.For(c.predicateType), Carried(f, c.predicateType))
    && NoCurrentBuild !in c.materials && NoCurrentTimingClaims !in c.materials
  }

  ghost predicate ExactlyTheCohort(c: Claim, f: Filing) {
    c.verdict == Pass && c.predicateType !in FOUNDATION && !f.measuresOtherBinaries ==> ExecutablesIn(c.materials) == f.cohort
  }

  /** Everything the gateway guarantees of the claim at `k`. */
  ghost predicate Sound(claims: seq<Claim>, f: Filing, k: nat) {
    && k < |claims| && AboutItsFiling(claims[k], f) && ExactlyTheCohort(claims[k], f)
    && (forall q :: q in Prerequisites(f.action) ==> exists j :: Backed(claims, f, k, q, j))
    && (claims[k].predicateType !in FOUNDATION ==> f.cohort != {} && exists j :: BuiltBy(claims, f, k, j))
    && (forall s :: s in claims[k].materials && s.TimingClaim? ==> exists j :: Observed(claims, k, s, j))
  }

  ghost predicate IdsIncrease(claims: seq<Claim>) {
    forall i, j :: 0 <= i < j < |claims| ==> claims[i].id < claims[j].id
  }

  ghost predicate InOrder(w: World) {
    && TimeOrdered(w.claims) && IdsIncrease(w.claims)
    && (forall i :: 0 <= i < |w.claims| ==> w.claims[i].ts <= w.now)
  }

  ghost predicate AllSound(s: State) {
    && |s.filings| == |s.world.claims|
    && forall k :: 0 <= k < |s.filings| ==> Sound(s.world.claims, s.filings[k], k) && s.filings[k].at.phase == s.world.at.phase
  }

  ghost predicate Invariant(s: State) {
    && InOrder(s.world) && AllSound(s) && AllInputs(s.world.at.evidence)
    && s.world.at.subjects.tree.Tree? && s.world.at.subjects.baselineTree.Tree?
  }

  // ---------------------------------------------------------------- it is kept by every step

  lemma BackingExtends(claims: seq<Claim>, more: seq<Claim>, f: Filing, k: nat, q: PredicateName)
    requires k <= |claims| && exists j :: Backed(claims, f, k, q, j)
    ensures exists j :: Backed(claims + more, f, k, q, j)
  {
    var j: nat :| Backed(claims, f, k, q, j);
    assert (claims + more)[j] == claims[j];
    assert Backed(claims + more, f, k, q, j);
  }

  lemma BuildExtends(claims: seq<Claim>, more: seq<Claim>, f: Filing, k: nat)
    requires k < |claims| && exists j :: BuiltBy(claims, f, k, j)
    ensures exists j :: BuiltBy(claims + more, f, k, j)
  {
    var j :| BuiltBy(claims, f, k, j);
    assert BuiltBy(claims + more, f, k, j);
  }

  lemma ObservationExtends(claims: seq<Claim>, more: seq<Claim>, k: nat, s: Subject)
    requires k < |claims| && s.TimingClaim? && exists j :: Observed(claims, k, s, j)
    ensures exists j :: Observed(claims + more, k, s, j)
  {
    var j :| Observed(claims, k, s, j);
    assert Observed(claims + more, k, s, j);
  }

  lemma SoundExtends(claims: seq<Claim>, more: seq<Claim>, f: Filing, k: nat)
    requires Sound(claims, f, k)
    ensures Sound(claims + more, f, k)
  {
    assert (claims + more)[k] == claims[k];
    forall q | q in Prerequisites(f.action) ensures exists j :: Backed(claims + more, f, k, q, j) {
      BackingExtends(claims, more, f, k, q);
    }
    if claims[k].predicateType !in FOUNDATION {
      BuildExtends(claims, more, f, k);
    }
    forall s | s in claims[k].materials && s.TimingClaim? ensures exists j :: Observed(claims + more, k, s, j) {
      ObservationExtends(claims, more, k, s);
    }
  }

  /** Below any later position, what was met when the run was resolved backs what it files. */
  lemma MetIsBacked(run: Run, claims: seq<Claim>, k: nat, f: Filing, q: PredicateName)
    requires run.claims <= claims && |run.claims| <= k <= |claims|
    requires f.at == run.at && f.cohort == run.cohort && (q !in FOUNDATION ==> run.cohort != {})
    requires Met(run.claims, q, run.at.subjects.For(q), run.Materials(q))
    ensures exists j :: Backed(claims, f, k, q, j)
  {
    var j := Latest(run.claims, q, run.at.subjects.For(q), run.Materials(q)).value;
    assert Backed(claims, f, k, q, j);
  }

  lemma PrerequisitesNeedTheBuild(a: ActionName, q: PredicateName)
    requires q in Prerequisites(a) && q !in FOUNDATION
    ensures RestsOnBuild(a)
  {
    EntryIsSound(a);
    var p := Emits(a)[0];
    ProducersEmit(p, a);
    if p in FOUNDATION {
      FoundationIsBelowTheBuild(p, q);
    }
  }

  lemma FiledClaimIsAboutItsFiling(run: Run, id: nat, p: PredicateName, r: CheckResult, f: Filing)
    requires HonorsOne(run, p, r) && Checked(run, p, r) && AllInputs(run.at.evidence)
    requires f == Filing(run.action, run.at, run.cohort, r.measuresOtherBinaries) && PhaseOfAction(run.action) == run.at.phase
    requires forall s :: s in run.cohort ==> s.Executable?
    ensures AboutItsFiling(ClaimFrom(run, id, p, r), f)
  {
    SubjectsOfTheCatalog(run.at.subjects, p);
    FiledClaimHasNoSentinel(run, id, p, r);
  }

  lemma BinariesAreExecutables(r: CheckResult)
    ensures forall s :: s in r.BinaryMaterials() ==> s.Executable?
  {
  }

  lemma FiledClaimHasNoSentinel(run: Run, id: nat, p: PredicateName, r: CheckResult)
    requires HonorsOne(run, p, r) && Checked(run, p, r) && AllInputs(run.at.evidence)
    requires forall s :: s in run.cohort ==> s.Executable?
    ensures forall s :: s in ClaimFrom(run, id, p, r).materials ==> s != NoCurrentBuild && s != NoCurrentTimingClaims
  {
    BinariesAreExecutables(r);
    forall s | s in ClaimFrom(run, id, p, r).materials ensures s.Executable? || s in run.at.evidence || s in r.materials {
    }
  }

  lemma FiledClaimIsExact(run: Run, id: nat, p: PredicateName, r: CheckResult, f: Filing)
    requires HonorsOne(run, p, r) && Checked(run, p, r) && AllInputs(run.at.evidence)
    requires f == Filing(run.action, run.at, run.cohort, r.measuresOtherBinaries)
    requires forall s :: s in run.cohort ==> s.Executable?
    ensures ExactlyTheCohort(ClaimFrom(run, id, p, r), f)
  {
    var c := ClaimFrom(run, id, p, r);
    if c.verdict == Pass && p !in FOUNDATION && !r.measuresOtherBinaries {
      forall s ensures s in ExecutablesIn(c.materials) <==> s in run.cohort {
      }
    }
  }

  lemma FiledClaimObserves(run: Run, claims: seq<Claim>, k: nat, p: PredicateName, r: CheckResult, s: Subject)
    requires HonorsOne(run, p, r) && Checked(run, p, r) && AllInputs(run.at.evidence)
    requires forall x :: x in run.cohort ==> x.Executable?
    requires run.claims <= claims && |run.claims| <= k < |claims| && claims[k] == ClaimFrom(run, claims[k].id, p, r)
    requires s in claims[k].materials && s.TimingClaim?
    ensures exists j :: Observed(claims, k, s, j)
  {
    var port, baseline := ClaimToRestOn(run, Timing_Port), ClaimToRestOn(run, Timing_Baseline);
    assert s in r.materials && p == Performance_Speedup;
    var j := if s == TimingMaterial(run.claims[port.value]) then port.value else baseline.value;
    assert Observed(claims, k, s, j);
  }

  /** A claim filed past the gate is sound where it lands. */
  lemma FiledClaimIsSound(run: Run, claims: seq<Claim>, k: nat, p: PredicateName, r: CheckResult, f: Filing)
    requires Dispatchable(run) && HonorsOne(run, p, r) && Checked(run, p, r) && AllInputs(run.at.evidence)
    requires run.cohort == Cohort(run.claims, run.at) && PhaseOfAction(run.action) == run.at.phase
    requires f == Filing(run.action, run.at, run.cohort, r.measuresOtherBinaries)
    requires run.claims <= claims && |run.claims| <= k < |claims| && claims[k] == ClaimFrom(run, claims[k].id, p, r)
    ensures Sound(claims, f, k)
  {
    FiledClaimIsAboutItsFiling(run, claims[k].id, p, r, f);
    FiledClaimIsExact(run, claims[k].id, p, r, f);
    forall q | q in Prerequisites(f.action) ensures exists j :: Backed(claims, f, k, q, j) {
      if q !in FOUNDATION {
        PrerequisitesNeedTheBuild(run.action, q);
      }
      MetIsBacked(run, claims, k, f, q);
    }
    ActionsAreOfOneKind(run.action, p);
    if p !in FOUNDATION {
      var j := CurrentBuild(run.claims, run.at).value;
      SubjectOfTheBuild(run.at);
      assert BuiltBy(claims, f, k, j);
    }
    forall s | s in claims[k].materials && s.TimingClaim? ensures exists j :: Observed(claims, k, s, j) {
      FiledClaimObserves(run, claims, k, p, r, s);
    }
  }

  lemma SubjectOfTheBuild(at: Context)
    ensures at.subjects.For(BuildPredicate(at.phase)) == at.subjects.tree && BuildPredicate(at.phase) in FOUNDATION
  {
  }

  lemma FilingKeepsOrder(w: World, run: Run, results: seq<(PredicateName, CheckResult)>, filed: seq<Claim>)
    requires InOrder(w) && run.claims == w.claims && run.now == w.now && FiledFrom(run, results, filed)
    ensures InOrder(w.(claims := w.claims + filed))
  {
    var claims, n := w.claims + filed, |w.claims|;
    forall k | n <= k < |claims| ensures claims[k].ts == w.now && claims[k].id == MaxId(w.claims) + 1 + (k - n) {
      assert claims[k] == filed[k - n];
    }
  }

  lemma PostKeepsInvariant(s: State, request: Request, effects: Effects)
    requires Invariant(s) && Enabled(s, Post(request, effects))
    ensures Invariant(Next(s, Post(request, effects)))
  {
    var w := s.world;
    var (w', response) := Execute(w, request, effects);
    OnlyDispatchAppends(w, request, effects);
    if response.Filed? {
      var resolved := Resolve(w, request);
      var results := effects.answer.results;
      FilingKeepsOrder(w, resolved.(builder := w'.builder), results, response.filed);
      FiledAreSound(s, resolved, w'.builder, results, response.filed);
    }
  }

  lemma FiledAreSound(s: State, run: Run, builder: Option<BuilderState>, results: seq<(PredicateName, CheckResult)>, filed: seq<Claim>)
    requires AllSound(s) && AllInputs(s.world.at.evidence)
    requires run.claims == s.world.claims && run.at == s.world.at && run.cohort == Cohort(run.claims, run.at)
    requires PhaseOfAction(run.action) == run.at.phase && Dispatchable(run) && Honors(run, results)
    requires FiledFrom(run.(builder := builder), results, filed)
    ensures AllSound(State(s.world.(claims := s.world.claims + filed), s.filings + FilingsFrom(run, results)))
  {
    var claims, filings, n := s.world.claims + filed, s.filings + FilingsFrom(run, results), |s.filings|;
    forall k | 0 <= k < |filings| ensures Sound(claims, filings[k], k) && filings[k].at.phase == s.world.at.phase {
      if k < n {
        SoundExtends(s.world.claims, filed, s.filings[k], k);
      } else {
        var (p, r) := results[k - n];
        assert HonorsOne(run, p, r);
        assert claims[k] == ClaimFrom(run.(builder := builder), claims[k].id, p, r);
        FiledClaimIsSound(run, claims, k, p, r, filings[k]);
      }
    }
  }

  lemma StepKeepsInvariant(s: State, e: Event)
    requires Invariant(s) && Enabled(s, e)
    ensures Invariant(Next(s, e))
  {
    if e.Post? {
      PostKeepsInvariant(s, e.request, e.effects);
    }
  }

  /** The invariant of every reachable ledger. */
  lemma {:induction false} InvariantHolds(run: seq<State>, i: nat)
    requires Trace(run) && i < |run|
    ensures Invariant(run[i])
  {
    if i > 0 {
      InvariantHolds(run, i - 1);
      assert Stepped(run[i - 1], run[i]);
      var e :| Enabled(run[i - 1], e) && run[i] == Next(run[i - 1], e);
      StepKeepsInvariant(run[i - 1], e);
    }
  }

  /** Claims are only ever appended. */
  lemma {:induction false} LedgersOnlyGrow(run: seq<State>, i: nat, j: nat)
    requires Trace(run) && i <= j < |run|
    ensures run[i].world.claims <= run[j].world.claims
    decreases j
  {
    if i < j {
      LedgersOnlyGrow(run, i, j - 1);
      assert Stepped(run[j - 1], run[j]);
      var e :| Enabled(run[j - 1], e) && run[j] == Next(run[j - 1], e);
      if e.Post? {
        OnlyDispatchAppends(run[j - 1].world, e.request, e.effects);
      }
    }
  }
}
