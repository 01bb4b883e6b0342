/** Which claims still count: the newest of a kind under the current context, the executables the
    current build named, and what a phase is finished by. */
module Evidence {
  import opened Wrappers
  import opened Catalog

  const SCHEMA_VERSION := 2

  // ---------------------------------------------------------------- what claims are made of

  /** What a claim is about, or what it was reached against. Digests are injective, so a subject is
      told apart by what was hashed: `TimingClaim` names one timing observation, and the two
      sentinels are digests no file and no claim has. */
  datatype Subject =
    | Tree(digest: nat)
    | Frozen(digest: nat)
    | Executable(digest: nat)
    | TimingClaim(observed: PredicateName, id: nat)
    | NoCurrentBuild
    | NoCurrentTimingClaims
    | Material(kind: string, digest: nat)

  datatype Artifact = Artifact(path: string, digest: nat, size: Option<nat>)

  datatype Target = Target(executable: Artifact, runtime: seq<Artifact>)
  {
    function Artifacts(): seq<Artifact> { [executable] + runtime }
  }

  datatype BuildRecord = BuildRecord(attempt: string, targets: seq<Target>)

  datatype Verdict = Pass | Fail

  /** The parts of a claim's detail that later decisions read: the build records its predicate's
      layout decodes to (none when it is malformed), and the allow-list an analyzer wrote. */
  datatype Detail = Detail(records: seq<BuildRecord>, allowGlobs: Option<seq<string>>)

  datatype Claim = Claim(
    id: nat,
    ts: nat,
    subject: Subject,
    predicateType: PredicateName,
    configHash: nat,
    verdict: Verdict,
    detail: Detail,
    materials: set<Subject>,
    version: nat)

  /** Every executable and runtime file the records declare. */
  function Executables(records: seq<BuildRecord>): set<Subject> {
    set r, t, a | r in records && t in r.targets && a in t.Artifacts() :: Executable(a.digest)
  }

  // ---------------------------------------------------------------- what counts as current

  predicate Matches(c: Claim, required: set<Subject>) {
    c.version == SCHEMA_VERSION && required <= c.materials
  }

  predicate Selected(c: Claim, p: PredicateName, subject: Subject, required: set<Subject>) {
    c.predicateType == p && c.subject == subject && Matches(c, required)
  }

  /** The position of the newest matching claim; among the newest, of the one appended last. */
  function Latest(claims: seq<Claim>, p: PredicateName, subject: Subject, required: set<Subject>): (r: Option<nat>)
    ensures r.Some? ==> r.value < |claims| && Selected(claims[r.value], p, subject, required)
    decreases |claims|
  {
    if claims == [] then None
    else
      var n := |claims| - 1;
      var before := Latest(claims[..n], p, subject, required);
      if Selected(claims[n], p, subject, required) && (before.None? || claims[before.value].ts <= claims[n].ts)
      then Some(n)
      else before
  }

  ghost predicate IsNewest(claims: seq<Claim>, p: PredicateName, subject: Subject, required: set<Subject>, i: nat) {
    && i < |claims| && Selected(claims[i], p, subject, required)
    && forall j :: 0 <= j < |claims| && Selected(claims[j], p, subject, required) ==>
         claims[j].ts < claims[i].ts || (claims[j].ts == claims[i].ts && j <= i)
  }

  /** `latest` sorts by time and takes the end: the newest, and the last appended of those. */
  lemma {:induction false} LatestIsNewest(claims: seq<Claim>, p: PredicateName, subject: Subject, required: set<Subject>)
    ensures var r := Latest(claims, p, subject, required);
      match r
      case Some(i) => IsNewest(claims, p, subject, required, i)
      case None => forall j :: 0 <= j < |claims| ==> !Selected(claims[j], p, subject, required)
    decreases |claims|
  {
    if claims != [] {
      var n, init := |claims| - 1, claims[..|claims| - 1];
      LatestIsNewest(init, p, subject, required);
      forall j | 0 <= j < |claims| ensures claims[j] == if j < n then init[j] else claims[n] {
      }
      var before, r := Latest(init, p, subject, required), Latest(claims, p, subject, required);
      if r.Some? && r.value == n {
        if before.Some? {
          assert IsNewest(init, p, subject, required, before.value);
        }
      } else if before.Some? {
        assert IsNewest(init, p, subject, required, before.value);
      }
    }
  }

  ghost predicate TimeOrdered(claims: seq<Claim>) {
    forall i, j :: 0 <= i < j < |claims| ==> claims[i].ts <= claims[j].ts
  }

  /** In a ledger whose clock never went back, nothing selected comes after the latest. */
  lemma LatestIsLast(claims: seq<Claim>, p: PredicateName, subject: Subject, required: set<Subject>, j: nat)
    requires TimeOrdered(claims) && j < |claims| && Selected(claims[j], p, subject, required)
    ensures Latest(claims, p, subject, required).Some? && j <= Latest(claims, p, subject, required).value
  {
    LatestIsNewest(claims, p, subject, required);
  }

  /** A requirement is met by a latest claim that passed. */
  predicate Met(claims: seq<Claim>, p: PredicateName, subject: Subject, required: set<Subject>) {
    var latest := Latest(claims, p, subject, required);
    latest.Some? && claims[latest.value].verdict == Pass
  }

  /** The last claim of this type on this subject, configuration and context. */
  function FindDuplicate(
    claims: seq<Claim>, p: PredicateName, subject: Subject, configHash: nat, required: set<Subject>
  ): (r: Option<nat>)
    ensures match r
      case Some(i) =>
        && i < |claims| && Selected(claims[i], p, subject, required) && claims[i].configHash == configHash
        && forall j :: i < j < |claims| && claims[j].configHash == configHash ==> !Selected(claims[j], p, subject, required)
      case None =>
        forall j :: 0 <= j < |claims| && claims[j].configHash == configHash ==> !Selected(claims[j], p, subject, required)
    decreases |claims|
  {
    if claims == [] then None
    else
      var n := |claims| - 1;
      if Selected(claims[n], p, subject, required) && claims[n].configHash == configHash then Some(n)
      else
        assert forall j :: 0 <= j < n ==> claims[..n][j] == claims[j];
        FindDuplicate(claims[..n], p, subject, configHash, required)
  }

  // ---------------------------------------------------------------- the executable cohort

  /** What one reader holds a ledger against: the phase, the subjects that are current, and the
      materials every current claim must carry. */
  datatype Context = Context(phase: string, subjects: Subjects, evidence: set<Subject>)

  datatype Subjects = Subjects(tree: Subject, frozen: Subject, baselineTree: Subject)
  {
    function Named(kind: string): Option<Subject> {
      if kind == "tree" then Some(tree)
      else if kind == "frozen" then Some(frozen)
      else if kind == "baseline_tree" then Some(baselineTree)
      else None
    }

    function For(p: PredicateName): Subject { if ProducerOf(p) == TimeBaseline then baselineTree else tree }
  }

  lemma SubjectsOfTheCatalog(subjects: Subjects, p: PredicateName)
    ensures subjects.Named(SubjectKindOf(p)) == Some(subjects.For(p))
  {
  }

  /** The latest claim, if it passed. */
  function LatestPassing(claims: seq<Claim>, p: PredicateName, subject: Subject, required: set<Subject>): (r: Option<nat>)
    ensures r.Some? ==> r == Latest(claims, p, subject, required) && claims[r.value].verdict == Pass
    ensures r.Some? <==> Met(claims, p, subject, required)
  {
    var latest := Latest(claims, p, subject, required);
    if latest.Some? && claims[latest.value].verdict == Pass then latest else None
  }

  /** The current passing build claim of the current tree, if any. */
  function CurrentBuild(claims: seq<Claim>, at: Context): Option<nat> {
    LatestPassing(claims, BuildPredicate(at.phase), at.subjects.tree, at.evidence)
  }

  /** The executables it named. */
  function Cohort(claims: seq<Claim>, at: Context): set<Subject> {
    match CurrentBuild(claims, at)
    case Some(i) => Executables(claims[i].detail.records)
    case None => {}
  }

  /** The caller's own context and every executable of the cohort, or the sentinel nothing matches. */
  function Dependent(evidence: set<Subject>, cohort: set<Subject>): set<Subject> {
    evidence + if cohort == {} then {NoCurrentBuild} else cohort
  }

  function TimingMaterial(c: Claim): Subject { TimingClaim(c.predicateType, c.id) }

  /** The two observations a speedup rests on, or the sentinel nothing matches. */
  function PerformanceMaterials(claims: seq<Claim>, at: Context, portMaterials: set<Subject>): set<Subject> {
    var port := LatestPassing(claims, Timing_Port, at.subjects.tree, portMaterials);
    var baseline := LatestPassing(claims, Timing_Baseline, at.subjects.baselineTree, at.evidence);
    if port.None? || baseline.None? then {NoCurrentTimingClaims}
    else {TimingMaterial(claims[port.value]), TimingMaterial(claims[baseline.value])}
  }

  /** The materials a claim of type `p` must carry, given the executables of the current build. */
  function MaterialsFor(claims: seq<Claim>, at: Context, cohort: set<Subject>, p: PredicateName): set<Subject> {
    if p in FOUNDATION then at.evidence
    else
      var dependent := Dependent(at.evidence, cohort);
      if p == Performance_Speedup then dependent + PerformanceMaterials(claims, at, dependent) else dependent
  }

  /** What it takes to be current evidence of type `p`, and whether there is some. */
  function Current(claims: seq<Claim>, at: Context, p: PredicateName): set<Subject> {
    MaterialsFor(claims, at, Cohort(claims, at), p)
  }

  predicate MetNow(claims: seq<Claim>, at: Context, p: PredicateName) {
    Met(claims, p, at.subjects.For(p), Current(claims, at, p))
  }

  // ---------------------------------------------------------------- status

  /** What a reader is told about one requirement. */
  datatype RowStatus = Present(id: nat) | Failed(id: nat) | Stale(id: nat, verdict: Verdict) | Never

  datatype Row = Row(predicateType: PredicateName, status: RowStatus)

  /** A claim of this type on this subject, current or not. */
  predicate Historic(c: Claim, p: PredicateName, subject: Subject) {
    c.predicateType == p && c.subject == subject
  }

  /** The newest claim whatever its schema and context; only ever shown, never relied on. */
  function LatestUnchecked(claims: seq<Claim>, p: PredicateName, subject: Subject): (r: Option<nat>)
    ensures r.Some? ==> r.value < |claims| && Historic(claims[r.value], p, subject)
    decreases |claims|
  {
    if claims == [] then None
    else
      var n := |claims| - 1;
      var before := LatestUnchecked(claims[..n], p, subject);
      if Historic(claims[n], p, subject) && (before.None? || claims[before.value].ts <= claims[n].ts) then Some(n)
      else before
  }

  function RequirementStatus(claims: seq<Claim>, p: PredicateName, subject: Subject, required: set<Subject>): (row: Row)
    ensures row.predicateType == p && (row.status.Present? <==> Met(claims, p, subject, required))
  {
    match Latest(claims, p, subject, required)
    case Some(i) => Row(p, if claims[i].verdict == Pass then Present(claims[i].id) else Failed(claims[i].id))
    case None =>
      match LatestUnchecked(claims, p, subject)
      case Some(j) => Row(p, Stale(claims[j].id, claims[j].verdict))
      case None => Row(p, Never)
  }

  /** The newest of its kind whatever its context; of equally new ones, the last appended. */
  ghost predicate IsNewestEver(claims: seq<Claim>, p: PredicateName, subject: Subject, i: nat) {
    && i < |claims| && Historic(claims[i], p, subject)
    && forall j :: 0 <= j < |claims| && Historic(claims[j], p, subject) ==>
         claims[j].ts < claims[i].ts || (claims[j].ts == claims[i].ts && j <= i)
  }

  lemma {:induction false} LatestUncheckedExactly(claims: seq<Claim>, p: PredicateName, subject: Subject)
    ensures match LatestUnchecked(claims, p, subject)
      case Some(i) => IsNewestEver(claims, p, subject, i)
      case None => forall j :: 0 <= j < |claims| ==> !Historic(claims[j], p, subject)
    decreases |claims|
  {
    if claims != [] {
      var n, init := |claims| - 1, claims[..|claims| - 1];
      LatestUncheckedExactly(init, p, subject);
      forall j | 0 <= j < |claims| ensures claims[j] == if j < n then init[j] else claims[n] {
      }
      var before, r := LatestUnchecked(init, p, subject), LatestUnchecked(claims, p, subject);
      if before.Some? {
        assert IsNewestEver(init, p, subject, before.value);
      }
    }
  }

  /** What a row says of the ledger: the newest current claim passed, or failed; or there is none, and
      the newest of its kind ever filed is shown; or nothing of the kind was ever filed. */
  lemma RowsTellTheHistory(claims: seq<Claim>, p: PredicateName, subject: Subject, required: set<Subject>)
    ensures match RequirementStatus(claims, p, subject, required).status
      case Present(id) => exists k: nat :: IsNewest(claims, p, subject, required, k) && claims[k].verdict == Pass && claims[k].id == id
      case Failed(id) => exists k: nat :: IsNewest(claims, p, subject, required, k) && claims[k].verdict == Fail && claims[k].id == id
      case Stale(id, verdict) =>
        && (forall j :: 0 <= j < |claims| ==> !Selected(claims[j], p, subject, required))
        && exists k: nat :: IsNewestEver(claims, p, subject, k) && claims[k].id == id && claims[k].verdict == verdict
      case Never => forall j :: 0 <= j < |claims| ==> !Historic(claims[j], p, subject)
  {
    LatestIsNewest(claims, p, subject, required);
    LatestUncheckedExactly(claims, p, subject);
    var latest := Latest(claims, p, subject, required);
    if latest.Some? {
      assert IsNewest(claims, p, subject, required, latest.value);
    }
  }

  /** The materials of each requirement that is judged against a build; the others take the caller's. */
  function RequiredByPredicate(claims: seq<Claim>, requirements: seq<PredicateName>, at: Context): map<PredicateName, set<Subject>> {
    var dependent := Dependent(at.evidence, Cohort(claims, at));
    map p | p in requirements && p !in FOUNDATION ::
      if p == Performance_Speedup then dependent + PerformanceMaterials(claims, at, dependent) else dependent
  }

  function InMap(required: map<PredicateName, set<Subject>>, at: Context, p: PredicateName): set<Subject> {
    if p in required then required[p] else at.evidence
  }

  /** Status and the gate before a run judge every requirement by one set of materials. */
  lemma StatusAndGateAgree(claims: seq<Claim>, requirements: seq<PredicateName>, at: Context, p: PredicateName)
    requires p in requirements
    ensures InMap(RequiredByPredicate(claims, requirements, at), at, p) == Current(claims, at, p)
  {
  }

  /** Whether every requirement of the phase is met; only a caller that could confirm the
      executables gets to say so. */
  predicate Accepted(claims: seq<Claim>, at: Context, withProperties: bool, contextVerified: bool) {
    contextVerified && forall p :: p in RequirementsFor(at.phase, withProperties) ==> MetNow(claims, at, p)
  }

  function CurrentRow(claims: seq<Claim>, at: Context, p: PredicateName): (row: Row)
    ensures row.status.Present? <==> MetNow(claims, at, p)
  {
    RequirementStatus(claims, p, at.subjects.For(p), Current(claims, at, p))
  }

  /** The tree attached to the most recent claim about any tree; of equally recent ones, the last. */
  function GuessTree(claims: seq<Claim>): (r: Option<nat>)
    ensures r.Some? ==> r.value < |claims| && claims[r.value].subject.Tree?
    decreases |claims|
  {
    if claims == [] then None
    else
      var n := |claims| - 1;
      var before := GuessTree(claims[..n]);
      if claims[n].subject.Tree? && (before.None? || claims[n].ts >= claims[before.value].ts) then Some(n) else before
  }

  lemma {:induction false} GuessIsTheNewestTree(claims: seq<Claim>, j: nat)
    requires j < |claims| && claims[j].subject.Tree?
    ensures var r := GuessTree(claims);
      r.Some? && (claims[j].ts < claims[r.value].ts || (claims[j].ts == claims[r.value].ts && j <= r.value))
    decreases |claims|
  {
    if j < |claims| - 1 {
      GuessIsTheNewestTree(claims[..|claims| - 1], j);
    }
  }

  /** The loop a reader without a repository falls back to. */
  method CurrentTree(claims: seq<Claim>) returns (tree: Option<Subject>)
    ensures tree == match GuessTree(claims) case Some(i) => Some(claims[i].subject) case None => None
  {
    var best: Option<nat> := None;
    for i := 0 to |claims|
      invariant best == GuessTree(claims[..i])
    {
      assert claims[..i + 1][..i] == claims[..i];
      if claims[i].subject.Tree? && (best.None? || claims[i].ts >= claims[best.value].ts) {
        best := Some(i);
      }
    }
    assert claims[..|claims|] == claims;
    tree := if best.Some? then Some(claims[best.value].subject) else None;
  }

  function WithTree(at: Context, tree: Subject): Context {
    at.(subjects := at.subjects.(tree := tree))
  }

  /** The newest current claim of `p` passed. */
  ghost predicate NewestPassed(claims: seq<Claim>, at: Context, p: PredicateName) {
    exists i: nat :: IsNewest(claims, p, at.subjects.For(p), Current(claims, at, p), i) && claims[i].verdict == Pass
  }

  lemma MetExactly(claims: seq<Claim>, at: Context, p: PredicateName)
    ensures MetNow(claims, at, p) <==> NewestPassed(claims, at, p)
  {
    var subject, required := at.subjects.For(p), Current(claims, at, p);
    LatestIsNewest(claims, p, subject, required);
    if i: nat :| IsNewest(claims, p, subject, required, i) && claims[i].verdict == Pass {
      assert Latest(claims, p, subject, required) == Some(i);
    }
  }

  /** A tree is accepted exactly when its context is vouched for and the newest current claim of every
      requirement passed. */
  lemma AcceptedExactly(claims: seq<Claim>, at: Context, withProperties: bool, contextVerified: bool)
    ensures Accepted(claims, at, withProperties, contextVerified) <==>
      contextVerified && forall p :: IsRequirement(at.phase, withProperties, p) ==> NewestPassed(claims, at, p)
  {
    forall p
      ensures p in RequirementsFor(at.phase, withProperties) <==> IsRequirement(at.phase, withProperties, p)
      ensures MetNow(claims, at, p) <==> NewestPassed(claims, at, p)
    {
      RequirementsAreListed(at.phase, withProperties, p);
      MetExactly(claims, at, p);
    }
  }

  /** The status of a region, on the tree its caller names or else the guess; with neither, no
      requirement has a row but `Never` and nothing is accepted. */
  method ComputeStatus(claims: seq<Claim>, at: Context, tree: Option<Subject>, withProperties: bool, contextVerified: bool)
    returns (rows: seq<Row>, accepted: bool)
    ensures |rows| == |RequirementsFor(at.phase, withProperties)|
    ensures var guess := GuessTree(claims);
      var current := if tree.Some? then tree else if guess.Some? then Some(claims[guess.value].subject) else None;
      && (current.Some? ==>
            && (forall i :: 0 <= i < |rows| ==>
                  rows[i] == CurrentRow(claims, WithTree(at, current.value), RequirementsFor(at.phase, withProperties)[i]))
            && (accepted <==> Accepted(claims, WithTree(at, current.value), withProperties, contextVerified)))
      && (current.None? ==>
            !accepted && forall i :: 0 <= i < |rows| ==> rows[i] == Row(RequirementsFor(at.phase, withProperties)[i], Never))
  {
    var requirements := RequirementsFor(at.phase, withProperties);
    var current := tree;
    if current.None? {
      current := CurrentTree(claims);
    }
    if current.None? {
      return seq(|requirements|, i requires 0 <= i < |requirements| => Row(requirements[i], Never)), false;
    }
    rows, accepted := StatusRows(claims, WithTree(at, current.value), requirements);
    accepted := contextVerified && accepted;
  }

  method StatusRows(claims: seq<Claim>, at: Context, requirements: seq<PredicateName>) returns (rows: seq<Row>, met: bool)
    ensures |rows| == |requirements| && forall i :: 0 <= i < |rows| ==> rows[i] == CurrentRow(claims, at, requirements[i])
    ensures met <==> forall p :: p in requirements ==> MetNow(claims, at, p)
  {
    var required := RequiredByPredicate(claims, requirements, at);
    rows, met := [], true;
    for i := 0 to |requirements|
      invariant |rows| == i && forall k :: 0 <= k < i ==> rows[k] == CurrentRow(claims, at, requirements[k])
      invariant met <==> forall k :: 0 <= k < i ==> MetNow(claims, at, requirements[k])
    {
      var p := requirements[i];
      StatusAndGateAgree(claims, requirements, at, p);
      var row := RequirementStatus(claims, p, at.subjects.For(p), InMap(required, at, p));
      rows := rows + [row];
      met := met && row.status.Present?;
    }
  }
}
