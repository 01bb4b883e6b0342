/** One region as a whole: the ledger, the branch the submits land on, and the requests that are
    judged on whatever tree the branch holds at the time. */
module WholeRegion {
  import opened Wrappers
  import opened Catalog
  import opened Evidence
  import opened Gateway
  import G = GatewayRuns
  import opened Guarantees
  import S = Submit
  import B = Branches
  import Globs

  // ---------------------------------------------------------------- the system

  /** What does not change over a region's life, and how a file set is named. */
  datatype Setup = Setup(region: S.Region, baseline: S.Files, digest: S.Files -> nat)

  datatype Whole = Whole(ledger: G.State, branch: B.System)

  ghost predicate Injective(digest: S.Files -> nat) {
    forall a: S.Files, b: S.Files :: digest(a) == digest(b) ==> a == b
  }

  /** A submit's allow-list is asked for under the deployment's own materials, without those the backends
      of the moment add to a run's: any evidence at all here. */
  datatype Event =
    | Build(who: nat, evidence: set<Subject>, working: seq<S.Entry>, message: string)
    | ReadTip(who: nat)
    | Swap(who: nat)
    | Edit(evidence: set<Subject>)
    | Backends(builder: Option<BuilderState>, oracle: bool)
    | Tick(seconds: nat)
    | Post(request: Request, effects: Effects)

  /** The current tree is the branch's, or the baseline before the first submit. */
  function CurrentTree(setup: Setup, w: Whole): Subject { Tree(setup.digest(B.Tip(w.branch.refs).tree)) }

  /** The frozen files are those the allow-list of the moment does not cover. */
  function CurrentFrozen(setup: Setup, w: Whole): S.Files {
    S.FrozenFiles(setup.baseline, S.ResolveAllowGlobs(w.ledger.world.claims, setup.region, w.ledger.world.at.evidence))
  }

  /** The ledger's readers resolve the tree and the frozen set anew. */
  function Resolved(setup: Setup, w: Whole): Whole {
    w.(ledger := G.Next(w.ledger, G.Submit(setup.digest(B.Tip(w.branch.refs).tree), setup.digest(CurrentFrozen(setup, w)))))
  }

  function BranchEvent(w: Whole, e: Event): Option<B.Event> {
    match e
    case Build(who, evidence, working, message) =>
      Some(B.Build(who, w.ledger.world.claims, evidence, working, message))
    case ReadTip(who) => Some(B.ReadTip(who))
    case Swap(who) => Some(B.Swap(who))
    case _ => None
  }

  function LedgerEvent(w: Whole, e: Event): Option<G.Event> {
    match e
    case Edit(evidence) => Some(G.Edit(evidence, 0))
    case Backends(builder, oracle) => Some(G.Backends(builder, oracle))
    case Tick(seconds) => Some(G.Tick(seconds))
    case Post(request, effects) => Some(G.Post(request, effects))
    case _ => None
  }

  /** An analyzer whose entries are bounded: the one thing the rules do not check. */
  ghost predicate BoundedAnswers(setup: Setup, e: Event) {
    e.Post? && e.effects.answer.Answered? ==>
      forall i :: 0 <= i < |e.effects.answer.results| ==> BoundedDetail(e.effects.answer.results[i].1.detail, setup.region.ceiling)
  }

  ghost predicate BoundedDetail(detail: Detail, ceiling: seq<string>) {
    detail.allowGlobs.Some? ==> forall g :: g in detail.allowGlobs.value ==> Globs.Bounded(g, ceiling)
  }

  ghost predicate Enabled(setup: Setup, w: Whole, e: Event) {
    && BoundedAnswers(setup, e)
    && (e.Build? ==> S.DistinctEntries(e.working))
    && (e.ReadTip? ==> e.who in w.branch.flights && w.branch.flights[e.who].Built?)
    && (e.Swap? ==> e.who in w.branch.flights && w.branch.flights[e.who].Reading?)
    && (LedgerEvent(w, e).Some? ==> G.Enabled(w.ledger, LedgerEvent(w, e).value))
  }

  ghost function Next(setup: Setup, w: Whole, e: Event): Whole
    requires Enabled(setup, w, e)
  {
    Resolved(setup,
      if BranchEvent(w, e).Some? then w.(branch := B.Next(setup.region, w.branch, BranchEvent(w, e).value))
      else w.(ledger := G.Next(w.ledger, LedgerEvent(w, e).value)))
  }

  ghost predicate Initial(setup: Setup, w: Whole) {
    && G.Initial(w.ledger) && w.branch == B.System(S.Refs(S.Root(setup.baseline), None, []), map[])
    && w.ledger.world.at.phase == setup.region.phase
    && w == Resolved(setup, w)
  }

  ghost predicate Stepped(setup: Setup, v: Whole, w: Whole) {
    exists e :: Enabled(setup, v, e) && w == Next(setup, v, e)
  }

  ghost predicate Trace(setup: Setup, run: seq<Whole>) {
    && run != [] && Initial(setup, run[0])
    && forall i {:trigger run[i]} :: 0 < i < |run| ==> Stepped(setup, run[i - 1], run[i])
  }

  /** What is frozen: of the baseline, all and only the paths the current allow-list does not cover. */
  ghost predicate FrozenNow(setup: Setup, w: Whole, files: S.Files) {
    var at := w.ledger.world.at;
    && at.subjects.frozen == Frozen(setup.digest(files))
    && forall path :: S.At(files, path) ==
         if Globs.MatchesAny(path, S.ResolveAllowGlobs(w.ledger.world.claims, setup.region, at.evidence)) then None
         else S.At(setup.baseline, path)
  }

  /** In every state of a run the frozen subject names those files: a new claim or context that changes the
      allow-list changes what is frozen with it. */
  lemma FrozenIsCurrent(setup: Setup, run: seq<Whole>, i: nat)
    requires Trace(setup, run) && i < |run|
    ensures FrozenNow(setup, run[i], CurrentFrozen(setup, run[i]))
  {
    if i == 0 {
      ResolvingFreezes(setup, run[0]);
    } else {
      assert Stepped(setup, run[i - 1], run[i]);
      var e :| Enabled(setup, run[i - 1], e) && run[i] == Next(setup, run[i - 1], e);
      ResolvingFreezes(setup,
        if BranchEvent(run[i - 1], e).Some?
        then run[i - 1].(branch := B.Next(setup.region, run[i - 1].branch, BranchEvent(run[i - 1], e).value))
        else run[i - 1].(ledger := G.Next(run[i - 1].ledger, LedgerEvent(run[i - 1], e).value)));
    }
  }

  lemma ResolvingFreezes(setup: Setup, w: Whole)
    ensures FrozenNow(setup, Resolved(setup, w), CurrentFrozen(setup, Resolved(setup, w)))
  {
    assert CurrentFrozen(setup, Resolved(setup, w)) == CurrentFrozen(setup, w);
  }

  // ---------------------------------------------------------------- the invariant

  ghost predicate Invariant(setup: Setup, w: Whole) {
    && G.Invariant(w.ledger) && B.Sound(setup.region, setup.baseline, w.branch)
    && S.AllBounded(w.ledger.world.claims, setup.region.ceiling)
    && w.ledger.world.at.phase == setup.region.phase
    && w.ledger.world.at.subjects.tree == CurrentTree(setup, w)
  }

  lemma ResolvingKeepsInvariant(setup: Setup, w: Whole)
    requires G.Invariant(w.ledger) && B.Sound(setup.region, setup.baseline, w.branch)
    requires S.AllBounded(w.ledger.world.claims, setup.region.ceiling) && w.ledger.world.at.phase == setup.region.phase
    ensures Invariant(setup, Resolved(setup, w))
  {
    G.StepKeepsInvariant(w.ledger, G.Submit(setup.digest(B.Tip(w.branch.refs).tree), setup.digest(CurrentFrozen(setup, w))));
  }

  lemma BranchStepKeepsInvariant(setup: Setup, w: Whole, e: Event)
    requires S.Reviewed(setup.region) && Invariant(setup, w) && Enabled(setup, w, e) && BranchEvent(w, e).Some?
    ensures Invariant(setup, Next(setup, w, e))
  {
    var be := BranchEvent(w, e).value;
    B.StepKeepsSound(setup.region, setup.baseline, w.branch, be);
    ResolvingKeepsInvariant(setup, w.(branch := B.Next(setup.region, w.branch, be)));
  }

  lemma FilingKeepsBounded(run: Run, results: seq<(PredicateName, CheckResult)>,
                           claims: seq<Claim>, filed: seq<Claim>, ceiling: seq<string>)
    requires S.AllBounded(claims, ceiling) && FiledFrom(run, results, filed)
    requires forall i :: 0 <= i < |results| ==> BoundedDetail(results[i].1.detail, ceiling)
    ensures S.AllBounded(claims + filed, ceiling)
  {
    var all := claims + filed;
    forall i, g | 0 <= i < |all| && all[i].detail.allowGlobs.Some? && g in all[i].detail.allowGlobs.value
      ensures Globs.Bounded(g, ceiling)
    {
      if i >= |claims| {
        assert all[i] == filed[i - |claims|] && BoundedDetail(results[i - |claims|].1.detail, ceiling);
      }
    }
  }

  /** Claims written by a request carry the allow-lists its check answered. */
  lemma PostKeepsBounded(setup: Setup, w: World, request: Request, effects: Effects)
    requires S.AllBounded(w.claims, setup.region.ceiling) && BoundedAnswers(setup, Post(request, effects))
    ensures S.AllBounded(Execute(w, request, effects).0.claims, setup.region.ceiling)
  {
    OnlyDispatchAppends(w, request, effects);
    var (w', response) := Execute(w, request, effects);
    if response.Filed? {
      var run := Resolve(w, request).(builder := w'.builder);
      FilingKeepsBounded(run, effects.answer.results, w.claims, response.filed, setup.region.ceiling);
    }
  }

  /** Only a request writes claims, and nothing moves the phase. */
  lemma LedgerAfter(s: G.State, e: G.Event)
    requires G.Enabled(s, e)
    ensures var after := G.Next(s, e).world;
      && after.at.phase == s.world.at.phase
      && after.claims == if e.Post? then Execute(s.world, e.request, e.effects).0.claims else s.world.claims
  {
    if e.Post? {
      OnlyDispatchAppends(s.world, e.request, e.effects);
    }
  }

  lemma LedgerStepKeepsBounded(setup: Setup, w: Whole, e: Event, after: World)
    requires S.AllBounded(w.ledger.world.claims, setup.region.ceiling) && BoundedAnswers(setup, e)
    requires after.claims == if e.Post? then Execute(w.ledger.world, e.request, e.effects).0.claims else w.ledger.world.claims
    ensures S.AllBounded(after.claims, setup.region.ceiling)
  {
    if e.Post? {
      PostKeepsBounded(setup, w.ledger.world, e.request, e.effects);
    }
  }

  lemma AfterALedgerEvent(setup: Setup, w: Whole, e: G.Event)
    requires Invariant(setup, w) && G.Enabled(w.ledger, e)
    requires S.AllBounded(G.Next(w.ledger, e).world.claims, setup.region.ceiling)
    ensures Invariant(setup, Resolved(setup, w.(ledger := G.Next(w.ledger, e))))
  {
    G.StepKeepsInvariant(w.ledger, e);
    LedgerAfter(w.ledger, e);
    ResolvingKeepsInvariant(setup, w.(ledger := G.Next(w.ledger, e)));
  }

  lemma LedgerStepKeepsInvariant(setup: Setup, w: Whole, e: Event)
    requires Invariant(setup, w) && Enabled(setup, w, e) && LedgerEvent(w, e).Some?
    ensures Invariant(setup, Next(setup, w, e))
  {
    var le := LedgerEvent(w, e).value;
    LedgerAfter(w.ledger, le);
    LedgerStepKeepsBounded(setup, w, e, G.Next(w.ledger, le).world);
    AfterALedgerEvent(setup, w, le);
  }

  lemma {:induction false} InvariantHolds(setup: Setup, run: seq<Whole>, i: nat)
    requires S.Reviewed(setup.region) && Trace(setup, run) && i < |run|
    ensures Invariant(setup, run[i])
  {
    if i == 0 {
      ResolvingKeepsInvariant(setup, run[0]);
    } else {
      InvariantHolds(setup, run, i - 1);
      assert Stepped(setup, run[i - 1], run[i]);
      var e :| Enabled(setup, run[i - 1], e) && run[i] == Next(setup, run[i - 1], e);
      if BranchEvent(run[i - 1], e).Some? {
        BranchStepKeepsInvariant(setup, run[i - 1], e);
      } else {
        LedgerStepKeepsInvariant(setup, run[i - 1], e);
      }
    }
  }

  // ---------------------------------------------------------------- what acceptance means

  /** A current claim that passed on exactly these files, on a complete chain. */
  ghost predicate ProvedOn(setup: Setup, w: Whole, files: S.Files, p: PredicateName, k: nat) {
    Proves(w.ledger, p, k) && w.ledger.world.claims[k].subject == Tree(setup.digest(files))
  }

  /** When a region is accepted, the files its branch holds are the very ones every requirement was
      passed on, each on a complete chain of evidence; and they are the baseline's wherever the
      reviewed ceiling and the specification do not reach. */
  lemma AcceptedPortsAreReviewed(setup: Setup, run: seq<Whole>, i: nat, withProperties: bool)
    requires S.Reviewed(setup.region) && Injective(setup.digest) && Trace(setup, run) && i < |run|
    requires Accepted(run[i].ledger.world.claims, run[i].ledger.world.at, withProperties, true)
    ensures var files := B.Tip(run[i].branch.refs).tree;
      && (forall p :: IsRequirement(setup.region.phase, withProperties, p) ==>
            exists k: nat :: ProvedOn(setup, run[i], files, p, k))
      && (forall other: S.Files, p, k: nat :: ProvedOn(setup, run[i], other, p, k) && p != Timing_Baseline ==> other == files)
      && (forall path :: !S.Reachable(setup.region, path) ==> S.At(files, path) == S.At(setup.baseline, path))
  {
    InvariantHolds(setup, run, i);
    var w := run[i];
    var files := B.Tip(w.branch.refs).tree;
    forall p | IsRequirement(setup.region.phase, withProperties, p) ensures exists k: nat :: ProvedOn(setup, w, files, p, k) {
      var k := RequirementIsProvedOn(setup, w, withProperties, p);
    }
    forall other: S.Files, p, k: nat | ProvedOn(setup, w, other, p, k) && p != Timing_Baseline ensures other == files {
      OnlyTheBaselineTimingIsElsewhere(w.ledger.world.at.subjects, p);
    }
    BranchIsUnderTheCeiling(setup, w);
  }

  lemma RequirementIsProvedOn(setup: Setup, w: Whole, withProperties: bool, p: PredicateName) returns (k: nat)
    requires Invariant(setup, w) && Accepted(w.ledger.world.claims, w.ledger.world.at, withProperties, true)
    requires IsRequirement(setup.region.phase, withProperties, p)
    ensures ProvedOn(setup, w, B.Tip(w.branch.refs).tree, p, k)
  {
    var world := w.ledger.world;
    RequirementsAreListed(world.at.phase, withProperties, p);
    assert MetNow(world.claims, world.at, p);
    k := Latest(world.claims, p, world.at.subjects.For(p), Current(world.claims, world.at, p)).value;
    SoundClaimsRestOnChains(w.ledger, k);
    RequirementsAreAboutTheTree(world.at.subjects, world.at.phase, withProperties, p);
  }

  lemma RequirementsAreAboutTheTree(subjects: Subjects, phase: string, withProperties: bool, p: PredicateName)
    requires IsRequirement(phase, withProperties, p)
    ensures subjects.For(p) == subjects.tree
  {
  }

  lemma OnlyTheBaselineTimingIsElsewhere(subjects: Subjects, p: PredicateName)
    requires p != Timing_Baseline
    ensures subjects.For(p) == subjects.tree
  {
  }

  lemma BranchIsUnderTheCeiling(setup: Setup, w: Whole)
    requires Invariant(setup, w)
    ensures forall path :: !S.Reachable(setup.region, path) ==>
      S.At(B.Tip(w.branch.refs).tree, path) == S.At(setup.baseline, path)
  {
    var refs := w.branch.refs;
    B.LinesLink(B.Tip(refs));
    var line := S.Line(B.Tip(refs));
    assert line[|line| - 1] == B.Tip(refs);
    if refs.landed != [] {
      assert line[|line| - 1] == refs.landed[|refs.landed| - 1];
      assert B.Tip(refs) in refs.landed;
    }
  }
}
