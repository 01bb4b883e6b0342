/** The acceptance rule asked of a hand-held list of claims, as the session summary replays one. */
module Replay {
  import opened Wrappers
  import opened Workflow
  import opened Catalog
  import opened Evidence

  /** The last matching claim in the order of the list; times are not looked at. */
  function Last(claims: seq<Claim>, p: PredicateName, subject: Subject, required: set<Subject>): (r: Option<nat>)
    ensures r.Some? ==> r.value < |claims| && Selected(claims[r.value], p, subject, required)
    decreases |claims|
  {
    if claims == [] then None
    else
      var n := |claims| - 1;
      if Selected(claims[n], p, subject, required) then Some(n) else Last(claims[..n], p, subject, required)
  }

  /** In a ledger whose clock never went back that is the latest claim of status. */
  lemma {:induction false} LastIsLatest(claims: seq<Claim>, p: PredicateName, subject: Subject, required: set<Subject>)
    requires TimeOrdered(claims)
    ensures Last(claims, p, subject, required) == Latest(claims, p, subject, required)
    decreases |claims|
  {
    if claims != [] {
      LastIsLatest(claims[..|claims| - 1], p, subject, required);
    }
  }

  predicate LastPassed(claims: seq<Claim>, p: PredicateName, subject: Subject, required: set<Subject>) {
    var last := Last(claims, p, subject, required);
    last.Some? && claims[last.value].verdict == Pass
  }

  /** A tree some current claim is about. */
  ghost predicate Mentioned(claims: seq<Claim>, tree: Subject, required: set<Subject>) {
    tree.Tree? && exists k :: 0 <= k < |claims| && claims[k].subject == tree && Matches(claims[k], required)
  }

  ghost predicate Finished(claims: seq<Claim>, requirements: seq<PredicateName>, tree: Subject, required: set<Subject>) {
    forall p :: p in requirements ==> LastPassed(claims, p, tree, required)
  }

  ghost predicate AcceptedList(claims: seq<Claim>, requirements: seq<PredicateName>, required: set<Subject>) {
    exists tree :: Mentioned(claims, tree, required) && Finished(claims, requirements, tree, required)
  }

  type Verdicts = map<(PredicateName, Subject), Verdict>

  ghost predicate Tabulates(latest: Verdicts, claims: seq<Claim>, required: set<Subject>) {
    && (forall p, s :: (p, s) in latest <==> Last(claims, p, s, required).Some?)
    && (forall p, s :: (p, s) in latest ==> latest[(p, s)] == claims[Last(claims, p, s, required).value].verdict)
  }

  method Tabulate(claims: seq<Claim>, required: set<Subject>) returns (latest: Verdicts)
    ensures Tabulates(latest, claims, required)
  {
    latest := map[];
    for i := 0 to |claims|
      invariant Tabulates(latest, claims[..i], required)
    {
      var c := claims[i];
      assert claims[..i + 1][..i] == claims[..i];
      if Matches(c, required) {
        latest := latest[(c.predicateType, c.subject) := c.verdict];
      }
    }
    assert claims[..|claims|] == claims;
  }

  lemma {:induction false} MentionedHasALast(claims: seq<Claim>, k: nat, required: set<Subject>)
    requires k < |claims| && Matches(claims[k], required)
    ensures Last(claims, claims[k].predicateType, claims[k].subject, required).Some?
    decreases |claims|
  {
    if k < |claims| - 1 {
      MentionedHasALast(claims[..|claims| - 1], k, required);
    }
  }

  method FinishedTree(latest: Verdicts, requirements: seq<PredicateName>, tree: Subject) returns (yes: bool)
    ensures yes <==> forall p :: p in requirements ==> (p, tree) in latest && latest[(p, tree)] == Pass
  {
    for i := 0 to |requirements|
      invariant forall k :: 0 <= k < i ==> (requirements[k], tree) in latest && latest[(requirements[k], tree)] == Pass
    {
      if (requirements[i], tree) !in latest || latest[(requirements[i], tree)] != Pass {
        return false;
      }
    }
    yes := true;
  }

  /** Would these claims, and no others, finish some tree: one they mention, each requirement's last
      claim on it a pass. */
  method AcceptedBy(claims: seq<Claim>, requirements: seq<PredicateName>, required: set<Subject>) returns (yes: bool)
    ensures yes <==> AcceptedList(claims, requirements, required)
  {
    var latest := Tabulate(claims, required);
    var trees := set key | key in latest && key.1.Tree? :: key.1;
    assert forall tree :: tree in trees <==> Mentioned(claims, tree, required) by {
      TreesAreMentioned(claims, required, latest, trees);
    }
    var left := trees;
    while left != {}
      invariant left <= trees
      invariant forall tree :: tree in trees - left ==> !Finished(claims, requirements, tree, required)
      decreases |left|
    {
      var tree :| tree in left;
      var done := FinishedTree(latest, requirements, tree);
      assert done <==> Finished(claims, requirements, tree, required);
      if done {
        return true;
      }
      left := left - {tree};
    }
    yes := false;
  }

  lemma TreesAreMentioned(claims: seq<Claim>, required: set<Subject>, latest: Verdicts, trees: set<Subject>)
    requires Tabulates(latest, claims, required)
    requires trees == set key | key in latest && key.1.Tree? :: key.1
    ensures forall tree :: tree in trees <==> Mentioned(claims, tree, required)
  {
    forall tree | tree in trees ensures Mentioned(claims, tree, required) {
      var key :| key in latest && key.1.Tree? && key.1 == tree;
      var k := Last(claims, key.0, tree, required).value;
      assert claims[k].subject == tree && Matches(claims[k], required);
    }
    forall tree | Mentioned(claims, tree, required) ensures tree in trees {
      var k :| 0 <= k < |claims| && claims[k].subject == tree && Matches(claims[k], required);
      MentionedHasALast(claims, k, required);
      assert (claims[k].predicateType, tree) in latest;
    }
  }

  ghost predicate AcceptedBefore(ordered: seq<Claim>, n: nat, requirements: seq<PredicateName>, required: set<Subject>)
    requires n <= |ordered|
  {
    AcceptedList(ordered[..n], requirements, required)
  }

  /** The claim that finished a tree, of claims in the order they were made: the first that leaves
      the list up to it accepted. */
  method FinishingClaim(ordered: seq<Claim>, requirements: seq<PredicateName>, required: set<Subject>) returns (at: Option<nat>)
    ensures at.Some? ==> at.value < |ordered| && AcceptedBefore(ordered, at.value + 1, requirements, required)
    ensures forall n :: 1 <= n <= (if at.Some? then at.value else |ordered|) ==> !AcceptedBefore(ordered, n, requirements, required)
  {
    for i := 0 to |ordered|
      invariant forall n :: 1 <= n <= i ==> !AcceptedBefore(ordered, n, requirements, required)
    {
      var yes := AcceptedBy(ordered[..i + 1], requirements, required);
      if yes {
        return Some(i);
      }
    }
    at := None;
  }

  // ---------------------------------------------------------------- and status

  /** The replay is not told of the executables: it holds a claim to the caller's materials alone. The
      last claim of a kind on the tree is current too when it carries what status asks for. */
  ghost predicate LastIsCurrent(claims: seq<Claim>, at: Context, p: PredicateName) {
    var last := Last(claims, p, at.subjects.tree, at.evidence);
    last.Some? ==> Matches(claims[last.value], Current(claims, at, p))
  }

  lemma {:induction false} LastUnderMore(
    claims: seq<Claim>, p: PredicateName, subject: Subject, less: set<Subject>, more: set<Subject>)
    requires less <= more
    requires var last := Last(claims, p, subject, less); last.Some? ==> Matches(claims[last.value], more)
    ensures Last(claims, p, subject, more) == Last(claims, p, subject, less)
    decreases |claims|
  {
    if claims != [] && !Selected(claims[|claims| - 1], p, subject, less) {
      LastUnderMore(claims[..|claims| - 1], p, subject, less, more);
    }
  }

  lemma RolesAreAboutTheTree(a: ActionName)
    requires Role(a) != NoRole
    ensures a != TimeBaseline && a != PerformanceCheck
  {
  }

  lemma RequirementIsAboutTheTree(phase: string, withProperties: bool, subjects: Subjects, p: PredicateName)
    requires IsRequirement(phase, withProperties, p)
    ensures subjects.For(p) == subjects.tree && p != Performance_Speedup
  {
    RolesAreAboutTheTree(ProducerOf(p));
  }

  lemma FinishedMeans(claims: seq<Claim>, phase: string, withProperties: bool, tree: Subject, required: set<Subject>)
    ensures Finished(claims, RequirementsFor(phase, withProperties), tree, required)
      <==> forall p :: IsRequirement(phase, withProperties, p) ==> LastPassed(claims, p, tree, required)
  {
    forall p ensures p in RequirementsFor(phase, withProperties) <==> IsRequirement(phase, withProperties, p) {
      RequirementsAreListed(phase, withProperties, p);
    }
  }

  lemma AcceptedMeans(claims: seq<Claim>, at: Context, withProperties: bool)
    ensures Accepted(claims, at, withProperties, true)
      <==> forall p :: IsRequirement(at.phase, withProperties, p) ==> MetNow(claims, at, p)
  {
    forall p ensures p in RequirementsFor(at.phase, withProperties) <==> IsRequirement(at.phase, withProperties, p) {
      RequirementsAreListed(at.phase, withProperties, p);
    }
  }

  lemma OneVerdict(claims: seq<Claim>, at: Context, withProperties: bool, p: PredicateName)
    requires TimeOrdered(claims) && IsRequirement(at.phase, withProperties, p) && LastIsCurrent(claims, at, p)
    ensures LastPassed(claims, p, at.subjects.tree, at.evidence) <==> MetNow(claims, at, p)
  {
    var required := Current(claims, at, p);
    RequirementIsAboutTheTree(at.phase, withProperties, at.subjects, p);
    LastUnderMore(claims, p, at.subjects.tree, at.evidence, required);
    LastIsLatest(claims, p, at.subjects.tree, required);
  }

  /** On one tree and one list of requirements the replay and status agree when every requirement's last
      claim is a current one. */
  lemma ReplayIsStatus(claims: seq<Claim>, at: Context, withProperties: bool)
    requires TimeOrdered(claims)
    requires forall p :: IsRequirement(at.phase, withProperties, p) ==> LastIsCurrent(claims, at, p)
    ensures Finished(claims, RequirementsFor(at.phase, withProperties), at.subjects.tree, at.evidence)
      <==> Accepted(claims, at, withProperties, true)
  {
    FinishedMeans(claims, at.phase, withProperties, at.subjects.tree, at.evidence);
    AcceptedMeans(claims, at, withProperties);
    forall p | IsRequirement(at.phase, withProperties, p)
      ensures LastPassed(claims, p, at.subjects.tree, at.evidence) <==> MetNow(claims, at, p)
    {
      OneVerdict(claims, at, withProperties, p);
    }
  }

  // ---------------------------------------------------------------- when they tell one story

  /** The summary never asks for the conditional requirement; status does of a port whose code declares
      invariants. */
  predicate AsksMore(phase: string, withProperties: bool) {
    withProperties && phase == PORTING
  }

  lemma StatusAsksAsMuch(phase: string, withProperties: bool, p: PredicateName)
    ensures IsRequirement(phase, false, p) ==> IsRequirement(phase, withProperties, p)
    ensures IsRequirement(phase, withProperties, p) && !IsRequirement(phase, false, p) ==> AsksMore(phase, withProperties)
    ensures AsksMore(phase, withProperties) ==> IsRequirement(phase, withProperties, Regression_Property)
    ensures !IsRequirement(phase, false, Regression_Property)
  {
    if IsRequirement(phase, withProperties, p) && !IsRequirement(phase, false, p) {
      PropertiesArePorting(p);
    }
  }

  /** A claim that could be the pass the replay looks for; a foundation claim must be one already. */
  ghost predicate CouldPass(claims: seq<Claim>, at: Context, p: PredicateName) {
    if p in FOUNDATION then LastPassed(claims, p, at.subjects.tree, at.evidence)
    else Last(claims, p, at.subjects.tree, at.evidence).Some?
  }

  /** What to look for before the two are read side by side, in claims whose checks against the build may
      have come out either way: a requirement neither reader finds, or only current last claims and
      nothing more asked by status. */
  ghost predicate OneStory(claims: seq<Claim>, at: Context, withProperties: bool) {
    || (exists p :: IsRequirement(at.phase, false, p) && !CouldPass(claims, at, p))
    || (!AsksMore(at.phase, withProperties) && forall p :: IsRequirement(at.phase, false, p) ==> LastIsCurrent(claims, at, p))
  }

  lemma SameRequirements(phase: string, withProperties: bool, p: PredicateName)
    requires !AsksMore(phase, withProperties)
    ensures IsRequirement(phase, withProperties, p) <==> IsRequirement(phase, false, p)
  {
    StatusAsksAsMuch(phase, withProperties, p);
  }

  lemma NeitherAccepts(claims: seq<Claim>, at: Context, withProperties: bool, p: PredicateName)
    requires TimeOrdered(claims) && IsRequirement(at.phase, false, p) && !CouldPass(claims, at, p)
    ensures !LastPassed(claims, p, at.subjects.tree, at.evidence) && !Accepted(claims, at, withProperties, true)
  {
    assert LastIsCurrent(claims, at, p);
    OneVerdict(claims, at, false, p);
    StatusAsksAsMuch(at.phase, withProperties, p);
    AcceptedMeans(claims, at, withProperties);
  }

  lemma OneStoryOnATree(claims: seq<Claim>, at: Context, withProperties: bool)
    requires TimeOrdered(claims) && OneStory(claims, at, withProperties)
    ensures Finished(claims, RequirementsFor(at.phase, false), at.subjects.tree, at.evidence)
      <==> Accepted(claims, at, withProperties, true)
  {
    FinishedMeans(claims, at.phase, false, at.subjects.tree, at.evidence);
    if p :| IsRequirement(at.phase, false, p) && !CouldPass(claims, at, p) {
      NeitherAccepts(claims, at, withProperties, p);
    } else {
      ReplayIsStatus(claims, at, false);
      AcceptedMeans(claims, at, false);
      AcceptedMeans(claims, at, withProperties);
      forall p ensures IsRequirement(at.phase, withProperties, p) <==> IsRequirement(at.phase, false, p) {
        SameRequirements(at.phase, withProperties, p);
      }
    }
  }

  /** The same claims, but for what the checks against a build found. */
  ghost predicate SameButForVerdicts(claims: seq<Claim>, others: seq<Claim>) {
    && |others| == |claims|
    && forall i :: 0 <= i < |claims| ==>
         && others[i] == claims[i].(verdict := others[i].verdict)
         && (claims[i].predicateType in FOUNDATION ==> others[i] == claims[i])
  }

  lemma {:induction false} SameLast(
    claims: seq<Claim>, others: seq<Claim>, p: PredicateName, subject: Subject, required: set<Subject>)
    requires SameButForVerdicts(claims, others)
    ensures Last(others, p, subject, required) == Last(claims, p, subject, required)
    decreases |claims|
  {
    if claims != [] {
      SameLast(claims[..|claims| - 1], others[..|claims| - 1], p, subject, required);
    }
  }

  lemma SameLatest(
    claims: seq<Claim>, others: seq<Claim>, p: PredicateName, subject: Subject, required: set<Subject>)
    requires SameButForVerdicts(claims, others)
    ensures Latest(others, p, subject, required) == Latest(claims, p, subject, required)
  {
    LatestIsNewest(claims, p, subject, required);
    LatestIsNewest(others, p, subject, required);
    forall j | 0 <= j < |claims|
      ensures Selected(others[j], p, subject, required) <==> Selected(claims[j], p, subject, required)
      ensures others[j].ts == claims[j].ts
    {
    }
  }

  lemma SameCurrent(claims: seq<Claim>, others: seq<Claim>, at: Context, p: PredicateName)
    requires SameButForVerdicts(claims, others) && p != Performance_Speedup
    ensures Current(others, at, p) == Current(claims, at, p)
  {
    SameLatest(claims, others, BuildPredicate(at.phase), at.subjects.tree, at.evidence);
  }

  lemma SameStory(claims: seq<Claim>, others: seq<Claim>, at: Context, withProperties: bool)
    requires SameButForVerdicts(claims, others)
    ensures OneStory(others, at, withProperties) <==> OneStory(claims, at, withProperties)
  {
    forall p | IsRequirement(at.phase, false, p)
      ensures CouldPass(others, at, p) <==> CouldPass(claims, at, p)
      ensures LastIsCurrent(others, at, p) <==> LastIsCurrent(claims, at, p)
    {
      RequirementIsAboutTheTree(at.phase, false, at.subjects, p);
      SameLast(claims, others, p, at.subjects.tree, at.evidence);
      SameCurrent(claims, others, at, p);
    }
  }

  /** The summary, which asks for no manifest, calls some tree finished exactly when there is one that
      status accepts. */
  ghost predicate TellOneStory(claims: seq<Claim>, at: Context, withProperties: bool) {
    AcceptedList(claims, RequirementsFor(at.phase, false), at.evidence)
    <==> exists tree: Subject :: tree.Tree? && Accepted(claims, WithTree(at, tree), withProperties, true)
  }

  /** Whether claim `i` passes under the verdicts that finish the tree and let nothing else pass. */
  predicate LastOne(claims: seq<Claim>, at: Context, i: nat)
    requires i < |claims|
  {
    && claims[i].predicateType != Regression_Property
    && Last(claims, claims[i].predicateType, at.subjects.tree, at.evidence) == Some(i)
  }

  function OnlyLastOnesPass(claims: seq<Claim>, at: Context): (others: seq<Claim>)
    ensures SameButForVerdicts(claims, others)
    ensures forall i :: 0 <= i < |claims| && claims[i].predicateType !in FOUNDATION ==>
      (others[i].verdict == Pass <==> LastOne(claims, at, i))
  {
    seq(|claims|, i requires 0 <= i < |claims| =>
      if claims[i].predicateType in FOUNDATION then claims[i]
      else claims[i].(verdict := if LastOne(claims, at, i) then Pass else Fail))
  }

  lemma FinishedIsMentioned(claims: seq<Claim>, phase: string, tree: Subject, required: set<Subject>)
    requires phase in PHASES && tree.Tree? && Finished(claims, RequirementsFor(phase, false), tree, required)
    ensures Mentioned(claims, tree, required)
  {
    var p := SomeDependent(phase);
    FinishedMeans(claims, phase, false, tree, required);
    var k := Last(claims, p, tree, required).value;
    assert claims[k].subject == tree && Matches(claims[k], required);
  }

  lemma StoriesAgree(claims: seq<Claim>, at: Context, withProperties: bool)
    requires TimeOrdered(claims) && at.phase in PHASES
    requires forall tree: Subject :: tree.Tree? ==> OneStory(claims, WithTree(at, tree), withProperties)
    ensures TellOneStory(claims, at, withProperties)
  {
    var requirements := RequirementsFor(at.phase, false);
    if AcceptedList(claims, requirements, at.evidence) {
      var tree :| Mentioned(claims, tree, at.evidence) && Finished(claims, requirements, tree, at.evidence);
      OneStoryOnATree(claims, WithTree(at, tree), withProperties);
    }
    if tree: Subject :| tree.Tree? && Accepted(claims, WithTree(at, tree), withProperties, true) {
      OneStoryOnATree(claims, WithTree(at, tree), withProperties);
      FinishedIsMentioned(claims, at.phase, tree, at.evidence);
    }
  }

  lemma LastOnesFinish(claims: seq<Claim>, at: Context)
    requires at.phase in PHASES && at.subjects.tree.Tree?
    requires forall p :: IsRequirement(at.phase, false, p) ==> CouldPass(claims, at, p)
    ensures AcceptedList(OnlyLastOnesPass(claims, at), RequirementsFor(at.phase, false), at.evidence)
  {
    var others := OnlyLastOnesPass(claims, at);
    forall p | IsRequirement(at.phase, false, p) ensures LastPassed(others, p, at.subjects.tree, at.evidence) {
      SameLast(claims, others, p, at.subjects.tree, at.evidence);
      StatusAsksAsMuch(at.phase, false, p);
    }
    FinishedMeans(others, at.phase, false, at.subjects.tree, at.evidence);
    FinishedIsMentioned(others, at.phase, at.subjects.tree, at.evidence);
  }

  /** Under those verdicts status accepts no other tree, and accepts this one only for current last claims. */
  lemma OnlyCurrentOnesAreAccepted(claims: seq<Claim>, at: Context, tree: Subject, withProperties: bool, p: PredicateName)
    requires Accepted(OnlyLastOnesPass(claims, at), WithTree(at, tree), withProperties, true)
    requires IsRequirement(at.phase, withProperties, p) && p !in FOUNDATION
    ensures tree == at.subjects.tree && p != Regression_Property && LastIsCurrent(claims, at, p)
  {
    var others, there := OnlyLastOnesPass(claims, at), WithTree(at, tree);
    RequirementIsAboutTheTree(at.phase, withProperties, there.subjects, p);
    AcceptedMeans(others, there, withProperties);
    assert MetNow(others, there, p);
    var i := Latest(others, p, tree, Current(others, there, p)).value;
    assert LastOne(claims, at, i);
    assert at == there;
    SameCurrent(claims, others, at, p);
  }

  lemma StatusAcceptsNone(claims: seq<Claim>, at: Context, withProperties: bool, p: PredicateName)
    requires IsRequirement(at.phase, withProperties, p) && p !in FOUNDATION
    requires p == Regression_Property || !LastIsCurrent(claims, at, p)
    ensures forall tree: Subject :: tree.Tree? ==> !Accepted(OnlyLastOnesPass(claims, at), WithTree(at, tree), withProperties, true)
  {
    var others := OnlyLastOnesPass(claims, at);
    forall tree: Subject | tree.Tree? ensures !Accepted(others, WithTree(at, tree), withProperties, true) {
      if Accepted(others, WithTree(at, tree), withProperties, true) {
        OnlyCurrentOnesAreAccepted(claims, at, tree, withProperties, p);
      }
    }
  }

  /** A requirement status cannot find met under those verdicts: the conditional one, or one whose last
      claim is not a current one. */
  ghost function Unmeetable(claims: seq<Claim>, at: Context, withProperties: bool): (p: PredicateName)
    requires !OneStory(claims, at, withProperties)
    ensures IsRequirement(at.phase, withProperties, p) && p !in FOUNDATION
    ensures p == Regression_Property || !LastIsCurrent(claims, at, p)
  {
    if AsksMore(at.phase, withProperties) then
      StatusAsksAsMuch(at.phase, withProperties, Regression_Property);
      Regression_Property
    else
      var p :| IsRequirement(at.phase, false, p) && !LastIsCurrent(claims, at, p);
      StatusAsksAsMuch(at.phase, withProperties, p);
      p
  }

  lemma StoriesPart(claims: seq<Claim>, at: Context, withProperties: bool)
    requires at.phase in PHASES && at.subjects.tree.Tree? && !OneStory(claims, at, withProperties)
    ensures !TellOneStory(OnlyLastOnesPass(claims, at), at, withProperties)
  {
    LastOnesFinish(claims, at);
    StatusAcceptsNone(claims, at, withProperties, Unmeetable(claims, at, withProperties));
  }

  /** The summary and status tell one story about a ledger whose clock never went back, whatever its
      checks found, exactly when on every tree some requirement could not pass, or status asks for no
      more than the summary and every requirement's last claim is a current one. */
  lemma ReplayIsStatusExactlyWhen(claims: seq<Claim>, at: Context, withProperties: bool)
    requires TimeOrdered(claims) && at.phase in PHASES
    ensures (forall others :: SameButForVerdicts(claims, others) ==> TellOneStory(others, at, withProperties))
      <==> forall tree: Subject :: tree.Tree? ==> OneStory(claims, WithTree(at, tree), withProperties)
  {
    if forall tree: Subject :: tree.Tree? ==> OneStory(claims, WithTree(at, tree), withProperties) {
      forall others | SameButForVerdicts(claims, others) ensures TellOneStory(others, at, withProperties) {
        forall tree: Subject | tree.Tree? ensures OneStory(others, WithTree(at, tree), withProperties) {
          SameStory(claims, others, WithTree(at, tree), withProperties);
        }
        StoriesAgree(others, at, withProperties);
      }
    }
    if tree: Subject :| tree.Tree? && !OneStory(claims, WithTree(at, tree), withProperties) {
      var there := WithTree(at, tree);
      StoriesPart(claims, there, withProperties);
      SameTrees(OnlyLastOnesPass(claims, there), at, tree, withProperties);
      assert SameButForVerdicts(claims, OnlyLastOnesPass(claims, there));
    }
  }

  lemma SameTrees(claims: seq<Claim>, at: Context, tree: Subject, withProperties: bool)
    ensures TellOneStory(claims, WithTree(at, tree), withProperties) <==> TellOneStory(claims, at, withProperties)
  {
    forall other: Subject ensures WithTree(WithTree(at, tree), other) == WithTree(at, other) {
    }
  }

  /** Where status asks for properties, agreement is only ever that nothing could be accepted at all. */
  lemma PropertiesPartTheReaders(claims: seq<Claim>, at: Context)
    requires TimeOrdered(claims) && at.phase == PORTING
    ensures (forall others :: SameButForVerdicts(claims, others) ==> TellOneStory(others, at, true))
      <==> forall others :: SameButForVerdicts(claims, others) ==> !AcceptedList(others, RequirementsFor(PORTING, false), at.evidence)
  {
    ReplayIsStatusExactlyWhen(claims, at, true);
    if tree: Subject :| tree.Tree? && !OneStory(claims, WithTree(at, tree), true) {
      LastOnesFinish(claims, WithTree(at, tree));
      assert SameButForVerdicts(claims, OnlyLastOnesPass(claims, WithTree(at, tree)));
    } else {
      forall others | SameButForVerdicts(claims, others) ensures !AcceptedList(others, RequirementsFor(PORTING, false), at.evidence) {
        forall tree: Subject | tree.Tree? ensures !Finished(others, RequirementsFor(PORTING, false), tree, at.evidence) {
          SameStory(claims, others, WithTree(at, tree), true);
          var p :| IsRequirement(PORTING, false, p) && !CouldPass(others, WithTree(at, tree), p);
          FinishedMeans(others, PORTING, false, tree, at.evidence);
        }
      }
    }
  }

  // ---------------------------------------------------------------- where they part

  function Passing(p: PredicateName, tree: nat, file: nat): Claim {
    Claim(0, 0, Tree(tree), p, 0, Pass, Detail([BuildRecord("b", [Target(Artifact("f", file, None), [])])], None),
      {Executable(file)}, SCHEMA_VERSION)
  }

  /** Every requirement of a phase passed against executable 1, and then a build of executable 2. */
  function Superseded(phase: string, tree: nat): (r: seq<Claim>)
    ensures |r| == |RequirementsFor(phase, false)| + 1
    ensures forall i :: 0 <= i < |r| - 1 ==> r[i] == Passing(RequirementsFor(phase, false)[i], tree, 1)
    ensures r[|r| - 1] == Passing(BuildPredicate(phase), tree, 2)
  {
    seq(|RequirementsFor(phase, false)|, i requires 0 <= i < |RequirementsFor(phase, false)| =>
      Passing(RequirementsFor(phase, false)[i], tree, 1))
    + [Passing(BuildPredicate(phase), tree, 2)]
  }

  lemma {:induction false} AllPassingMeansLastPassed(claims: seq<Claim>, p: PredicateName, subject: Subject, k: nat)
    requires k < |claims| && Selected(claims[k], p, subject, {}) && forall i :: 0 <= i < |claims| ==> claims[i].verdict == Pass
    ensures LastPassed(claims, p, subject, {})
    decreases |claims|
  {
    if k < |claims| - 1 {
      AllPassingMeansLastPassed(claims[..|claims| - 1], p, subject, k);
    }
  }

  lemma SupersededIsFinished(phase: string, tree: nat)
    ensures Finished(Superseded(phase, tree), RequirementsFor(phase, false), Tree(tree), {})
  {
    var claims, requirements := Superseded(phase, tree), RequirementsFor(phase, false);
    forall p | p in requirements ensures LastPassed(claims, p, Tree(tree), {}) {
      var k :| 0 <= k < |requirements| && requirements[k] == p;
      AllPassingMeansLastPassed(claims, p, Tree(tree), k);
    }
  }

  function SomeDependent(phase: string): (p: PredicateName)
    ensures p !in FOUNDATION && (phase in PHASES ==> IsRequirement(phase, false, p))
  {
    if phase == ONBOARDING then Harness_Captured else Gpu_Executed
  }

  /** Such a list: the replay still counts as finished a tree whose checks ran against a build that has
      been superseded; status accepts none. */
  lemma ReplayOutlivesTheBuild(phase: string, tree: nat, baseline: nat)
    requires phase in PHASES
    ensures var claims := Superseded(phase, tree);
      var at := Context(phase, Subjects(Tree(tree), Frozen(0), Tree(baseline)), {});
      && AcceptedList(claims, RequirementsFor(phase, false), {})
      && forall other: Subject :: other.Tree? ==> !Accepted(claims, WithTree(at, other), false, true)
  {
    var claims := Superseded(phase, tree);
    var at := Context(phase, Subjects(Tree(tree), Frozen(0), Tree(baseline)), {});
    SupersededIsFinished(phase, tree);
    FinishedIsMentioned(claims, phase, Tree(tree), {});
    forall other: Subject | other.Tree? ensures !Accepted(claims, WithTree(at, other), false, true) {
      SupersededIsNotAccepted(WithTree(at, other), tree);
    }
  }

  lemma SupersededIsNotAccepted(at: Context, tree: nat)
    requires at.phase in PHASES && at.subjects.tree.Tree? && at.evidence == {}
    ensures !Accepted(Superseded(at.phase, tree), at, false, true)
  {
    var claims, p := Superseded(at.phase, tree), SomeDependent(at.phase);
    AcceptedMeans(claims, at, false);
    RequirementIsAboutTheTree(at.phase, false, at.subjects, p);
    if at.subjects.tree == Tree(tree) {
      NotCurrent(claims, at, tree, p);
    } else {
      forall i | 0 <= i < |claims| ensures claims[i].subject != at.subjects.tree {
      }
      assert !MetNow(claims, at, p);
    }
  }

  lemma LatestBuildIs(phase: string, tree: nat)
    ensures var claims := Superseded(phase, tree);
      Latest(claims, BuildPredicate(phase), Tree(tree), {}) == Some(|claims| - 1)
  {
    var claims := Superseded(phase, tree);
    forall i | 0 <= i < |claims| ensures claims[i].ts == 0 {
    }
    LatestIsNewest(claims, BuildPredicate(phase), Tree(tree), {});
  }

  lemma RecordNames(file: nat)
    ensures Executables(Passing(Build_Replay, 0, file).detail.records) == {Executable(file)}
  {
    var target := Target(Artifact("f", file, None), []);
    var records := [BuildRecord("b", [target])];
    assert records[0] in records && records[0].targets[0] in records[0].targets;
    assert target.Artifacts() == [target.executable] && target.executable in target.Artifacts();
    forall s | s in Executables(records) ensures s == Executable(file) {
    }
    assert Executable(file) in Executables(records);
  }

  lemma SupersededCohort(at: Context, tree: nat)
    requires at.subjects.tree == Tree(tree) && at.evidence == {}
    ensures Cohort(Superseded(at.phase, tree), at) == {Executable(2)}
  {
    LatestBuildIs(at.phase, tree);
    RecordNames(2);
  }

  lemma NotMetWithout(claims: seq<Claim>, at: Context, p: PredicateName, s: Subject)
    requires s in Current(claims, at, p)
    requires forall i :: 0 <= i < |claims| && claims[i].predicateType == p ==> s !in claims[i].materials
    ensures !MetNow(claims, at, p)
  {
  }

  lemma NotCurrent(claims: seq<Claim>, at: Context, tree: nat, p: PredicateName)
    requires claims == Superseded(at.phase, tree) && at.subjects.tree == Tree(tree) && at.evidence == {}
    requires p !in FOUNDATION
    ensures !MetNow(claims, at, p)
  {
    SupersededCohort(at, tree);
    assert BuildPredicate(at.phase) in FOUNDATION;
    NotMetWithout(claims, at, p, Executable(2));
  }
}
