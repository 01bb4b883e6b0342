/** The actions of the two phases, what each rests on, and what finishing a phase takes. */
module Catalog {
  import opened Wrappers
  import opened Workflow

  datatype ActionName =
    | SeseCheck | BuildReplay | RunReplay | Sanitize | RegressionVisible | PropertyCheck | RegressionHoldout
    | ProgramRegression | TimePort | TimeBaseline | PerformanceCheck
    | ManifestCheck | HarnessBuild | HarnessCapture | HarnessReplay | HarnessDeterminism | HarnessTiming
    | HarnessOriginal | HarnessSelfCheck | HarnessProperty

  /** Predicate types, with an underscore for the slash. */
  datatype PredicateName =
    | Sese_Verified | Build_Replay | Gpu_Executed | Sanitize_Memcheck | Sanitize_Racecheck | Sanitize_Initcheck
    | Regression_Visible | Regression_Property | Regression_Holdout | Program_Regression
    | Timing_Port | Timing_Baseline | Performance_Speedup
    | Manifest_Valid | Harness_Builds | Harness_Captured | Harness_Replays | Harness_Deterministic | Harness_Times
    | Harness_Original | Harness_Self_Check | Harness_Properties

  type Definition = ActionDefinition<ActionName, PredicateName>

  function PhaseOfAction(a: ActionName): string {
    match a
    case ManifestCheck | HarnessBuild | HarnessCapture | HarnessReplay | HarnessDeterminism | HarnessTiming
       | HarnessOriginal | HarnessSelfCheck | HarnessProperty => ONBOARDING
    case _ => PORTING
  }

  function Emits(a: ActionName): seq<PredicateName> {
    match a
    case SeseCheck => [Sese_Verified]
    case BuildReplay => [Build_Replay]
    case RunReplay => [Gpu_Executed]
    case Sanitize => [Sanitize_Memcheck, Sanitize_Racecheck, Sanitize_Initcheck]
    case RegressionVisible => [Regression_Visible]
    case PropertyCheck => [Regression_Property]
    case RegressionHoldout => [Regression_Holdout]
    case ProgramRegression => [Program_Regression]
    case TimePort => [Timing_Port]
    case TimeBaseline => [Timing_Baseline]
    case PerformanceCheck => [Performance_Speedup]
    case ManifestCheck => [Manifest_Valid]
    case HarnessBuild => [Harness_Builds]
    case HarnessCapture => [Harness_Captured]
    case HarnessReplay => [Harness_Replays]
    case HarnessDeterminism => [Harness_Deterministic]
    case HarnessTiming => [Harness_Times]
    case HarnessOriginal => [Harness_Original]
    case HarnessSelfCheck => [Harness_Self_Check]
    case HarnessProperty => [Harness_Properties]
  }

  function Prerequisites(a: ActionName): seq<PredicateName> {
    match a
    case SeseCheck | TimeBaseline | ManifestCheck => []
    case BuildReplay => [Sese_Verified]
    case RunReplay => [Build_Replay]
    case Sanitize => [Gpu_Executed]
    case RegressionVisible => [Sanitize_Memcheck, Sanitize_Racecheck, Sanitize_Initcheck, Gpu_Executed]
    case PropertyCheck | RegressionHoldout => [Regression_Visible]
    case ProgramRegression => [Regression_Holdout, Timing_Baseline]
    case TimePort => [Program_Regression]
    case PerformanceCheck => [Timing_Port, Timing_Baseline]
    case HarnessBuild => [Manifest_Valid]
    case HarnessCapture | HarnessTiming => [Harness_Builds]
    case HarnessReplay => [Harness_Captured]
    case HarnessOriginal => [Harness_Builds, Harness_Times]
    case HarnessDeterminism | HarnessSelfCheck | HarnessProperty => [Harness_Replays, Harness_Captured]
  }

  /** Whether an identical request may be answered from the ledger. */
  predicate Deterministic(a: ActionName) { a != TimePort && a != TimeBaseline }

  function SubjectKind(a: ActionName): string { if a == TimeBaseline then "baseline_tree" else "tree" }

  function Role(a: ActionName): AcceptanceRole {
    match a
    case PropertyCheck => Properties
    case TimeBaseline | PerformanceCheck => NoRole
    case _ => Required
  }

  function Needs(a: ActionName): set<Backend> {
    match a
    case SeseCheck | PerformanceCheck | ManifestCheck => {}
    case RegressionVisible => {Oracle}
    case RegressionHoldout => {Builder, Oracle}
    case _ => {Builder}
  }

  function DefinitionOf(a: ActionName): Definition {
    ActionDefinition(a, PhaseOfAction(a), Emits(a), Prerequisites(a), Deterministic(a), SubjectKind(a), Role(a), Needs(a))
  }

  const COUNT := 20

  /** The order the catalog lists its actions in. */
  function ActionAt(i: nat): ActionName
    requires i < COUNT
  {
    if i == 0 then SeseCheck else if i == 1 then BuildReplay else if i == 2 then RunReplay
    else if i == 3 then Sanitize else if i == 4 then RegressionVisible else if i == 5 then PropertyCheck
    else if i == 6 then RegressionHoldout else if i == 7 then ProgramRegression else if i == 8 then TimePort
    else if i == 9 then TimeBaseline else if i == 10 then PerformanceCheck else if i == 11 then ManifestCheck
    else if i == 12 then HarnessBuild else if i == 13 then HarnessCapture else if i == 14 then HarnessReplay
    else if i == 15 then HarnessDeterminism else if i == 16 then HarnessTiming else if i == 17 then HarnessOriginal
    else if i == 18 then HarnessSelfCheck else HarnessProperty
  }

  function IndexOf(a: ActionName): nat {
    match a
    case SeseCheck => 0
    case BuildReplay => 1
    case RunReplay => 2
    case Sanitize => 3
    case RegressionVisible => 4
    case PropertyCheck => 5
    case RegressionHoldout => 6
    case ProgramRegression => 7
    case TimePort => 8
    case TimeBaseline => 9
    case PerformanceCheck => 10
    case ManifestCheck => 11
    case HarnessBuild => 12
    case HarnessCapture => 13
    case HarnessReplay => 14
    case HarnessDeterminism => 15
    case HarnessTiming => 16
    case HarnessOriginal => 17
    case HarnessSelfCheck => 18
    case HarnessProperty => 19
  }

  function Actions(): (r: seq<Definition>)
    ensures |r| == COUNT && forall i :: 0 <= i < COUNT ==> r[i] == DefinitionOf(ActionAt(i))
  {
    seq(COUNT, i requires 0 <= i < COUNT => DefinitionOf(ActionAt(i)))
  }

  function ProducerOf(p: PredicateName): ActionName {
    match p
    case Sese_Verified => SeseCheck
    case Build_Replay => BuildReplay
    case Gpu_Executed => RunReplay
    case Sanitize_Memcheck => Sanitize
    case Sanitize_Racecheck => Sanitize
    case Sanitize_Initcheck => Sanitize
    case Regression_Visible => RegressionVisible
    case Regression_Property => PropertyCheck
    case Regression_Holdout => RegressionHoldout
    case Program_Regression => ProgramRegression
    case Timing_Port => TimePort
    case Timing_Baseline => TimeBaseline
    case Performance_Speedup => PerformanceCheck
    case Manifest_Valid => ManifestCheck
    case Harness_Builds => HarnessBuild
    case Harness_Captured => HarnessCapture
    case Harness_Replays => HarnessReplay
    case Harness_Deterministic => HarnessDeterminism
    case Harness_Times => HarnessTiming
    case Harness_Original => HarnessOriginal
    case Harness_Self_Check => HarnessSelfCheck
    case Harness_Properties => HarnessProperty
  }

  function PhaseOf(p: PredicateName): string { PhaseOfAction(ProducerOf(p)) }

  function SubjectKindOf(p: PredicateName): string { SubjectKind(ProducerOf(p)) }

  /** How many layers of evidence an action's claims stand on. */
  function ActionRank(a: ActionName): nat {
    match a
    case SeseCheck | TimeBaseline | ManifestCheck => 0
    case BuildReplay | HarnessBuild => 1
    case RunReplay | HarnessCapture | HarnessTiming => 2
    case Sanitize | HarnessReplay | HarnessOriginal => 3
    case RegressionVisible | HarnessDeterminism | HarnessSelfCheck | HarnessProperty => 4
    case PropertyCheck | RegressionHoldout => 5
    case ProgramRegression => 6
    case TimePort => 7
    case PerformanceCheck => 8
  }

  function Rank(p: PredicateName): nat { ActionRank(ProducerOf(p)) }

  // ---------------------------------------------------------------- builds

  function BuildPredicate(phase: string): PredicateName {
    if phase == ONBOARDING then Harness_Builds else Build_Replay
  }

  /** Claims that are not judged against an executable cohort. */
  const FOUNDATION: set<PredicateName> := {Sese_Verified, Manifest_Valid, Build_Replay, Harness_Builds, Timing_Baseline}

  predicate RestsOnBuild(a: ActionName) {
    exists p :: p in Emits(a) && p !in FOUNDATION
  }

  // ---------------------------------------------------------------- the catalog is sound

  lemma ProducersEmit(p: PredicateName, a: ActionName)
    ensures p in Emits(a) <==> a == ProducerOf(p)
  {
  }

  lemma EachListedOnce(a: ActionName)
    ensures IndexOf(a) < COUNT && ActionAt(IndexOf(a)) == a
  {
  }

  lemma EachPlaceIsOne(i: nat)
    requires i < COUNT
    ensures IndexOf(ActionAt(i)) == i
  {
  }

  lemma EntryIsSound(a: ActionName)
    ensures PhaseOfAction(a) in PHASES && SubjectKind(a) in SUBJECT_KINDS
    ensures Emits(a) != [] && NoRepeats(Emits(a))
  {
  }

  lemma ProducerIs(p: PredicateName)
    ensures Producer(Actions(), p) == Some(IndexOf(ProducerOf(p)))
  {
    var i := IndexOf(ProducerOf(p));
    EachListedOnce(ProducerOf(p));
    ProducersEmit(p, ProducerOf(p));
    assert Produces(Actions(), i, p);
    var found := Producer(Actions(), p).value;
    assert Produces(Actions(), found, p);
    ProducersEmit(p, ActionAt(found));
    EachPlaceIsOne(found);
  }

  lemma PortingPrerequisitesAreLower(a: ActionName, q: PredicateName)
    requires q in Prerequisites(a) && PhaseOfAction(a) == PORTING
    ensures Rank(q) < ActionRank(a) && PhaseOf(q) == PORTING
  {
  }

  lemma OnboardingPrerequisitesAreLower(a: ActionName, q: PredicateName)
    requires q in Prerequisites(a) && PhaseOfAction(a) == ONBOARDING
    ensures Rank(q) < ActionRank(a) && PhaseOf(q) == ONBOARDING
  {
  }

  /** Every prerequisite is of the same phase and stands on strictly fewer layers. */
  lemma PrerequisitesAreLower(a: ActionName, q: PredicateName)
    requires q in Prerequisites(a)
    ensures Rank(q) < ActionRank(a) && PhaseOf(q) == PhaseOfAction(a)
  {
    EntryIsSound(a);
    if PhaseOfAction(a) == PORTING {
      PortingPrerequisitesAreLower(a, q);
    } else {
      OnboardingPrerequisitesAreLower(a, q);
    }
  }

  /** Emitted predicates repeat nowhere when each belongs to one action. */
  lemma {:induction false} OwnedEmitsNeverRepeat(actions: seq<Definition>)
    requires forall k :: 0 <= k < |actions| ==> NoRepeats(actions[k].emits)
    requires forall k, p :: 0 <= k < |actions| && p in actions[k].emits ==> actions[k].name == ProducerOf(p)
    requires NoRepeats(Names(actions))
    ensures NoRepeats(Emitted(actions))
    ensures forall p :: p in Emitted(actions) ==> ProducerOf(p) in Names(actions)
    decreases |actions|
  {
    if actions != [] {
      var head, rest := actions[0].emits, Emitted(actions[1..]);
      assert Names(actions[1..]) == Names(actions)[1..];
      OwnedEmitsNeverRepeat(actions[1..]);
      assert forall p :: p in head ==> ProducerOf(p) == Names(actions)[0];
      forall p | p in rest ensures p !in head {
        var k :| 0 <= k < |Names(actions[1..])| && Names(actions[1..])[k] == ProducerOf(p);
        assert Names(actions)[0] != Names(actions)[k + 1];
      }
      JoinedNeverRepeats(head, rest);
    }
  }

  lemma JoinedNeverRepeats<T>(a: seq<T>, b: seq<T>)
    requires NoRepeats(a) && NoRepeats(b) && forall x :: x in b ==> x !in a
    ensures NoRepeats(a + b)
  {
    forall i, j | 0 <= i < j < |a + b| ensures (a + b)[i] != (a + b)[j] {
      if i < |a| <= j {
        assert (a + b)[j] in b && (a + b)[i] in a;
      }
    }
  }

  lemma CatalogIsWellFormed()
    ensures WellFormed(Actions())
  {
    var actions := Actions();
    forall i, j | 0 <= i < j < |actions| ensures Names(actions)[i] != Names(actions)[j] {
      EachPlaceIsOne(i);
      EachPlaceIsOne(j);
    }
    forall k, p | 0 <= k < |actions| && p in actions[k].emits ensures actions[k].name == ProducerOf(p) {
      ProducersEmit(p, ActionAt(k));
    }
    forall k | 0 <= k < |actions| ensures NoRepeats(actions[k].emits) {
      EntryIsSound(ActionAt(k));
    }
    OwnedEmitsNeverRepeat(actions);
    forall i | 0 <= i < |actions| ensures WellFormedAction(actions, i) {
      EntryIsSound(ActionAt(i));
      forall p | p in actions[i].prerequisites ensures KnownPrerequisite(actions, i, p) {
        PrerequisiteIsKnown(i, p);
      }
    }
  }

  lemma PrerequisiteIsKnown(i: nat, p: PredicateName)
    requires i < COUNT && p in Prerequisites(ActionAt(i))
    ensures KnownPrerequisite(Actions(), i, p)
  {
    ProducerIs(p);
    EachListedOnce(ProducerOf(p));
    PrerequisitesAreLower(ActionAt(i), p);
  }

  lemma EdgesGoDown(i: nat, j: nat)
    requires i < COUNT && j < COUNT && Edge(Actions(), i, j)
    ensures ActionRank(ActionAt(j)) < ActionRank(ActionAt(i))
  {
    var p :| p in Actions()[i].prerequisites && Producer(Actions(), p) == Some(j);
    ProducerIs(p);
    EachListedOnce(ProducerOf(p));
    PrerequisitesAreLower(ActionAt(i), p);
  }

  ghost function Ranks(): (r: seq<nat>)
    ensures |r| == COUNT && forall i :: 0 <= i < COUNT ==> r[i] == ActionRank(ActionAt(i))
  {
    seq(COUNT, i requires 0 <= i < COUNT => ActionRank(ActionAt(i)))
  }

  lemma CatalogIsRanked()
    ensures Ranked(Actions(), Ranks())
  {
    forall i: nat, j: nat | i < COUNT && j < COUNT && Edge(Actions(), i, j) ensures Ranks()[j] < Ranks()[i] {
      EdgesGoDown(i, j);
    }
  }

  /** The shipped catalog passes its own validation. */
  lemma CatalogIsSound()
    ensures WellFormed(Actions()) && Acyclic(Actions())
  {
    CatalogIsWellFormed();
    CatalogIsRanked();
    RankedMeansAcyclic(Actions(), Ranks());
  }

  /** Whatever rests on a build stands above it, and nothing below a build rests on one. */
  lemma FoundationIsBelowTheBuild(p: PredicateName, q: PredicateName)
    requires q in Prerequisites(ProducerOf(p)) && p in FOUNDATION
    ensures q in FOUNDATION && Rank(q) < Rank(p)
  {
  }

  lemma DependentsAreAboveTheBuild(p: PredicateName)
    ensures BuildPredicate(PhaseOf(p)) in FOUNDATION && PhaseOf(BuildPredicate(PhaseOf(p))) == PhaseOf(p)
    ensures p !in FOUNDATION ==> Rank(BuildPredicate(PhaseOf(p))) < Rank(p)
  {
  }

  /** An action emits foundation claims only, or dependent claims only. */
  lemma ActionsAreOfOneKind(a: ActionName, p: PredicateName)
    requires p in Emits(a)
    ensures RestsOnBuild(a) <==> p !in FOUNDATION
  {
    ProducersEmit(p, a);
    forall q | q in Emits(a) ensures q in FOUNDATION <==> p in FOUNDATION {
      ProducersEmit(q, a);
    }
  }

  // ---------------------------------------------------------------- what a claim stands on

  /** With each predicate, everything its action requires. */
  ghost predicate Closed(s: set<PredicateName>) {
    forall p, q :: p in s && q in Prerequisites(ProducerOf(p)) ==> q in s
  }

  /** `q` is required for `p`, directly or by way of others: it is in whatever is closed and holds what `p` requires. */
  ghost predicate StandsOn(p: PredicateName, q: PredicateName) {
    forall s :: Closed(s) && Grounded(p, s) ==> q in s
  }

  ghost predicate Grounded(p: PredicateName, s: set<PredicateName>) {
    forall r :: r in Prerequisites(ProducerOf(p)) ==> r in s
  }

  const BEFORE_TIMING: set<PredicateName> := {
    Sese_Verified, Build_Replay, Gpu_Executed, Sanitize_Memcheck, Sanitize_Racecheck, Sanitize_Initcheck,
    Regression_Visible, Regression_Holdout, Program_Regression, Timing_Baseline}

  lemma Requires(s: set<PredicateName>, p: PredicateName, q: PredicateName)
    requires Closed(s) && p in s && q in Prerequisites(ProducerOf(p))
    ensures q in s
  {
  }

  lemma BeforeTiming(s: set<PredicateName>)
    requires Closed(s) && Program_Regression in s
    ensures BEFORE_TIMING <= s
  {
    Requires(s, Program_Regression, Regression_Holdout);
    Requires(s, Program_Regression, Timing_Baseline);
    Requires(s, Regression_Holdout, Regression_Visible);
    Requires(s, Regression_Visible, Sanitize_Memcheck);
    Requires(s, Regression_Visible, Sanitize_Racecheck);
    Requires(s, Regression_Visible, Sanitize_Initcheck);
    Requires(s, Regression_Visible, Gpu_Executed);
    Requires(s, Gpu_Executed, Build_Replay);
    Requires(s, Build_Replay, Sese_Verified);
  }

  lemma LeastClosedSet(p: PredicateName, below: set<PredicateName>)
    requires Closed(below) && Grounded(p, below)
    requires forall s :: Closed(s) && Grounded(p, s) ==> below <= s
    ensures forall q :: StandsOn(p, q) <==> q in below
  {
  }

  lemma BeforeTimingIsClosed()
    ensures Closed(BEFORE_TIMING)
  {
  }

  lemma BeforeTimingIs(q: PredicateName)
    ensures q in BEFORE_TIMING <==> (IsRequirement(PORTING, false, q) && q != Timing_Port) || q == Timing_Baseline
  {
  }

  /** A timing of the port stands on all its acceptance asks for but the check of declared invariants, and
      on the timing of the baseline. */
  lemma PortTimingStandsOn(q: PredicateName)
    ensures StandsOn(Timing_Port, q) <==> (IsRequirement(PORTING, false, q) && q != Timing_Port) || q == Timing_Baseline
  {
    BeforeTimingIs(q);
    BeforeTimingIsClosed();
    assert Prerequisites(ProducerOf(Timing_Port)) == [Program_Regression];
    forall s | Closed(s) && Grounded(Timing_Port, s) ensures BEFORE_TIMING <= s {
      assert Program_Regression in [Program_Regression];
      BeforeTiming(s);
    }
    LeastClosedSet(Timing_Port, BEFORE_TIMING);
  }

  const BEFORE_SPEEDUP: set<PredicateName> := BEFORE_TIMING + {Timing_Port}

  lemma BeforeSpeedupIsClosed()
    ensures Closed(BEFORE_SPEEDUP)
  {
    BeforeTimingIsClosed();
    assert Prerequisites(ProducerOf(Timing_Port)) == [Program_Regression];
  }

  lemma BeforeSpeedupIs(q: PredicateName)
    ensures q in BEFORE_SPEEDUP <==> PhaseOf(q) == PORTING && q != Performance_Speedup && q != Regression_Property
  {
  }

  lemma BeforeSpeedup(s: set<PredicateName>)
    requires Closed(s) && Timing_Port in s
    ensures BEFORE_SPEEDUP <= s
  {
    assert Program_Regression in Prerequisites(TimePort);
    Requires(s, Timing_Port, Program_Regression);
    BeforeTiming(s);
  }

  /** A speedup stands on every check of a port there is but itself and the declared invariants. */
  lemma SpeedupStandsOn(q: PredicateName)
    ensures StandsOn(Performance_Speedup, q) <==> PhaseOf(q) == PORTING && q != Performance_Speedup && q != Regression_Property
  {
    BeforeSpeedupIs(q);
    BeforeSpeedupIsClosed();
    assert Prerequisites(ProducerOf(Performance_Speedup)) == [Timing_Port, Timing_Baseline];
    forall s | Closed(s) && Grounded(Performance_Speedup, s) ensures BEFORE_SPEEDUP <= s {
      assert Timing_Port in [Timing_Port, Timing_Baseline];
      BeforeSpeedup(s);
    }
    LeastClosedSet(Performance_Speedup, BEFORE_SPEEDUP);
  }

  const BEFORE_SELF_CHECK: set<PredicateName> := {Manifest_Valid, Harness_Builds, Harness_Captured, Harness_Replays}

  /** The last checks of a harness stand on its manifest, its build, its captures and their replay. */
  lemma HarnessStandsOn(p: PredicateName, q: PredicateName)
    requires p in {Harness_Deterministic, Harness_Self_Check, Harness_Properties}
    ensures StandsOn(p, q) <==> q in BEFORE_SELF_CHECK
  {
    assert Closed(BEFORE_SELF_CHECK);
    assert Prerequisites(ProducerOf(p)) == [Harness_Replays, Harness_Captured];
    forall s | Closed(s) && Grounded(p, s) ensures BEFORE_SELF_CHECK <= s {
      assert Harness_Captured in [Harness_Replays, Harness_Captured] && Harness_Replays in [Harness_Replays, Harness_Captured];
      Requires(s, Harness_Captured, Harness_Builds);
      Requires(s, Harness_Builds, Manifest_Valid);
    }
    LeastClosedSet(p, BEFORE_SELF_CHECK);
  }

  // ---------------------------------------------------------------- what a phase is finished by

  /** The predicates a region is judged by; the conditional ones when the code declares invariants. */
  predicate IsRequirement(phase: string, withProperties: bool, p: PredicateName) {
    PhaseOf(p) == phase && (Role(ProducerOf(p)) == Required || (withProperties && Role(ProducerOf(p)) == Properties))
  }

  /** The predicates of one phase and role, in the catalog's order. */
  function Listed(actions: seq<Definition>, phase: string, role: AcceptanceRole): seq<PredicateName> {
    if actions == [] then []
    else
      (if actions[0].phase == phase && actions[0].acceptance == role then actions[0].emits else [])
      + Listed(actions[1..], phase, role)
  }

  /** What a region is judged by: the fixed list, and for a port of a code that declares invariants
      the conditional one. */
  function RequirementsFor(phase: string, withProperties: bool): seq<PredicateName> {
    Listed(Actions(), phase, Required)
    + if withProperties && phase == PORTING then Listed(Actions(), phase, Properties) else []
  }

  lemma {:induction false} ListedExactly(actions: seq<Definition>, phase: string, role: AcceptanceRole, p: PredicateName)
    ensures p in Listed(actions, phase, role)
      <==> exists k :: 0 <= k < |actions| && actions[k].phase == phase && actions[k].acceptance == role && p in actions[k].emits
    decreases |actions|
  {
    if actions != [] {
      ListedExactly(actions[1..], phase, role, p);
      if p in Listed(actions[1..], phase, role) {
        var k :|
          && 0 <= k < |actions[1..]| && actions[1..][k].phase == phase
          && actions[1..][k].acceptance == role && p in actions[1..][k].emits;
        assert actions[k + 1] == actions[1..][k];
      }
      forall k | 0 < k < |actions| ensures actions[k] == actions[1..][k - 1] {
      }
    }
  }

  lemma CatalogLists(phase: string, role: AcceptanceRole, p: PredicateName)
    ensures p in Listed(Actions(), phase, role) <==> PhaseOf(p) == phase && Role(ProducerOf(p)) == role
  {
    var a := ProducerOf(p);
    EachListedOnce(a);
    ProducersEmit(p, a);
    ListedExactly(Actions(), phase, role, p);
    assert Actions()[IndexOf(a)] == DefinitionOf(a);
    forall k | 0 <= k < COUNT && p in Actions()[k].emits ensures Actions()[k] == DefinitionOf(a) {
      ProducersEmit(p, ActionAt(k));
    }
  }

  lemma RequirementsAreListed(phase: string, withProperties: bool, p: PredicateName)
    ensures p in RequirementsFor(phase, withProperties) <==> IsRequirement(phase, withProperties, p)
  {
    CatalogLists(phase, Required, p);
    CatalogLists(phase, Properties, p);
    if Role(ProducerOf(p)) == Properties {
      PropertiesArePorting(p);
    }
  }

  /** A harness is judged by every check of its phase; a port by all but its two measures of speed, and by
      the declared invariants only when there are some. */
  lemma JudgedByAllBut(phase: string, withProperties: bool, p: PredicateName)
    ensures IsRequirement(phase, withProperties, p) <==>
      PhaseOf(p) == phase && p != Timing_Baseline && p != Performance_Speedup && (p == Regression_Property ==> withProperties)
  {
  }

  lemma PropertiesArePorting(p: PredicateName)
    requires Role(ProducerOf(p)) == Properties
    ensures PhaseOf(p) == PORTING
  {
  }

  /** The requirements and what they rest on. */
  predicate IsNeeded(phase: string, withProperties: bool, p: PredicateName) {
    IsRequirement(phase, withProperties, p) || (phase == PORTING && p == Timing_Baseline)
  }

  lemma PrerequisitesAreRequired(a: ActionName, q: PredicateName)
    requires q in Prerequisites(a)
    ensures Role(ProducerOf(q)) == Required <==> q != Timing_Baseline
    ensures q == Timing_Baseline ==> a == ProgramRegression || a == PerformanceCheck
  {
  }

  /** The requirements are closed under prerequisites, but for the timing of the baseline, which a
      port's program run is compared against and acceptance does not ask for. */
  lemma RequirementsAreClosed(phase: string, withProperties: bool, p: PredicateName, q: PredicateName)
    requires IsNeeded(phase, withProperties, p) && q in Prerequisites(ProducerOf(p))
    ensures IsNeeded(phase, withProperties, q)
    ensures IsRequirement(phase, withProperties, q) <==> !(p == Program_Regression && q == Timing_Baseline)
  {
    PrerequisitesAreLower(ProducerOf(p), q);
    PrerequisitesAreRequired(ProducerOf(p), q);
  }

  lemma NeededRestsOnItsBuild(phase: string, withProperties: bool, p: PredicateName)
    requires IsNeeded(phase, withProperties, p)
    ensures phase in PHASES && PhaseOf(p) == phase && p != Performance_Speedup
    ensures IsRequirement(phase, withProperties, BuildPredicate(phase))
  {
  }
}
