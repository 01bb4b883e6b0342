/** The workflow catalog's own validation (equivalent/ledger/workflow.py):
    names, phases, subject kinds and prerequisites, and the depth-first search
    that refuses a prerequisite cycle. Action and predicate names are any types
    with equality; phases and subject kinds are the strings the source compares. */
module Workflow {
  import opened Wrappers

  const ONBOARDING := "onboarding"
  const PORTING := "porting"
  const PHASES := {ONBOARDING, PORTING}
  const SUBJECT_KINDS := {"tree", "frozen", "baseline_tree"}

  datatype AcceptanceRole = Required | Properties | NoRole

  datatype Backend = Builder | Oracle

  datatype ActionDefinition<A, P> = ActionDefinition(
    name: A,
    phase: string,
    emits: seq<P>,
    prerequisites: seq<P>,
    deterministic: bool,
    subjectKind: string,
    acceptance: AcceptanceRole,
    needs: set<Backend>)

  datatype CatalogError =
    | RepeatedName
    | InvalidPhaseOrNoPredicate
    | UnknownSubjectKind
    | UnknownPrerequisite
    | PrerequisiteFromAnotherPhase
    | PrerequisiteCycle

  // ---------------------------------------------------------------- what a catalog has to be

  predicate NoRepeats<T(==)>(s: seq<T>) {
    forall i, j :: 0 <= i < j < |s| ==> s[i] != s[j]
  }

  function Names<A, P>(actions: seq<ActionDefinition<A, P>>): (r: seq<A>)
    ensures |r| == |actions| && forall i :: 0 <= i < |r| ==> r[i] == actions[i].name
  {
    seq(|actions|, i requires 0 <= i < |actions| => actions[i].name)
  }

  function Emitted<A, P>(actions: seq<ActionDefinition<A, P>>): seq<P> {
    if actions == [] then [] else actions[0].emits + Emitted(actions[1..])
  }

  predicate Produces<A, P(==)>(actions: seq<ActionDefinition<A, P>>, i: nat, p: P) {
    i < |actions| && p in actions[i].emits
  }

  /** The action that emits `p`, when there is one. */
  function Producer<A, P(==)>(actions: seq<ActionDefinition<A, P>>, p: P): (r: Option<nat>)
    ensures r.Some? ==> Produces(actions, r.value, p)
    ensures r.None? ==> forall i: nat :: !Produces(actions, i, p)
  {
    if actions == [] then None
    else if p in actions[0].emits then Some(0)
    else
      var rest := Producer(actions[1..], p);
      match rest
      case Some(i) => Some(i + 1)
      case None =>
        assert forall i: nat :: i > 0 && Produces(actions, i, p) ==> Produces(actions[1..], i - 1, p);
        None
  }

  predicate KnownPrerequisite<A, P(==)>(actions: seq<ActionDefinition<A, P>>, i: nat, p: P)
    requires i < |actions|
  {
    var producer := Producer(actions, p);
    producer.Some? && actions[producer.value].phase == actions[i].phase
  }

  predicate WellFormedAction<A, P(==)>(actions: seq<ActionDefinition<A, P>>, i: nat)
    requires i < |actions|
  {
    && actions[i].phase in PHASES && actions[i].emits != []
    && actions[i].subjectKind in SUBJECT_KINDS
    && forall p :: p in actions[i].prerequisites ==> KnownPrerequisite(actions, i, p)
  }

  predicate WellFormed<A(==), P(==)>(actions: seq<ActionDefinition<A, P>>) {
    && NoRepeats(Names(actions)) && NoRepeats(Emitted(actions))
    && forall i :: 0 <= i < |actions| ==> WellFormedAction(actions, i)
  }

  /** Action `i` rests on evidence action `j` produces. */
  ghost predicate Edge<A, P>(actions: seq<ActionDefinition<A, P>>, i: nat, j: nat) {
    i < |actions| && exists p :: p in actions[i].prerequisites && Producer(actions, p) == Some(j)
  }

  ghost predicate IsPath<A, P>(actions: seq<ActionDefinition<A, P>>, path: seq<nat>) {
    forall k :: 0 <= k < |path| - 1 ==> Edge(actions, path[k], path[k + 1])
  }

  ghost predicate IsCycle<A, P>(actions: seq<ActionDefinition<A, P>>, path: seq<nat>) {
    |path| >= 2 && path[0] == path[|path| - 1] && IsPath(actions, path)
  }

  ghost predicate Acyclic<A, P>(actions: seq<ActionDefinition<A, P>>) {
    forall path :: !IsCycle(actions, path)
  }

  /** Everything an entry rests on comes before it. */
  ghost predicate Ordered<A, P>(actions: seq<ActionDefinition<A, P>>, order: seq<nat>) {
    forall k, j: nat :: 0 <= k < |order| && Edge(actions, order[k], j) ==> j in order[..k]
  }

  ghost predicate IsTopological<A, P>(actions: seq<ActionDefinition<A, P>>, order: seq<nat>) {
    Ordered(actions, order) && forall i: nat :: i < |actions| ==> i in order
  }

  // ---------------------------------------------------------------- order and cycles

  ghost function Position(order: seq<nat>, x: nat): (k: nat)
    requires x in order
    ensures k < |order| && order[k] == x
    ensures forall m :: 0 <= m < k ==> order[m] != x
  {
    if order[0] == x then 0 else 1 + Position(order[1..], x)
  }

  lemma EdgeGoesBack<A, P>(actions: seq<ActionDefinition<A, P>>, order: seq<nat>, i: nat, j: nat)
    requires IsTopological(actions, order) && i < |actions| && j < |actions| && Edge(actions, i, j)
    ensures Position(order, j) < Position(order, i)
  {
    var k := Position(order, i);
    assert j in order[..k];
    var m :| 0 <= m < k && order[..k][m] == j;
    assert order[m] == j;
  }

  lemma {:induction false} PathGoesBack<A, P>(actions: seq<ActionDefinition<A, P>>, order: seq<nat>, path: seq<nat>, n: nat)
    requires IsTopological(actions, order) && IsPath(actions, path)
    requires 1 <= n < |path| && forall k :: 0 <= k < |path| ==> path[k] < |actions|
    ensures Position(order, path[n]) < Position(order, path[0])
  {
    EdgeGoesBack(actions, order, path[n - 1], path[n]);
    if n > 1 {
      PathGoesBack(actions, order, path, n - 1);
    }
  }

  /** An order is a certificate that there is no cycle. */
  lemma TopologicalMeansAcyclic<A, P>(actions: seq<ActionDefinition<A, P>>, order: seq<nat>)
    requires IsTopological(actions, order)
    ensures Acyclic(actions)
  {
    forall path: seq<nat> ensures !IsCycle(actions, path) {
      if IsCycle(actions, path) {
        CycleStaysInside(actions, path);
        PathGoesBack(actions, order, path, |path| - 1);
      }
    }
  }

  /** Every edge goes down in rank. */
  ghost predicate Ranked<A, P>(actions: seq<ActionDefinition<A, P>>, rank: seq<nat>) {
    && |rank| == |actions|
    && forall i: nat, j: nat :: i < |actions| && j < |actions| && Edge(actions, i, j) ==> rank[j] < rank[i]
  }

  lemma {:induction false} PathGoesDown<A, P>(actions: seq<ActionDefinition<A, P>>, rank: seq<nat>, path: seq<nat>, n: nat)
    requires Ranked(actions, rank) && IsPath(actions, path)
    requires 1 <= n < |path| && forall k :: 0 <= k < |path| ==> path[k] < |actions|
    ensures rank[path[n]] < rank[path[0]]
  {
    assert Edge(actions, path[n - 1], path[n - 1 + 1]);
    if n > 1 {
      PathGoesDown(actions, rank, path, n - 1);
    }
  }

  /** So is a rank that every edge goes down in. */
  lemma RankedMeansAcyclic<A, P>(actions: seq<ActionDefinition<A, P>>, rank: seq<nat>)
    requires Ranked(actions, rank)
    ensures Acyclic(actions)
  {
    forall path: seq<nat> ensures !IsCycle(actions, path) {
      if IsCycle(actions, path) {
        CycleStaysInside(actions, path);
        PathGoesDown(actions, rank, path, |path| - 1);
      }
    }
  }

  lemma CycleStaysInside<A, P>(actions: seq<ActionDefinition<A, P>>, path: seq<nat>)
    requires IsCycle(actions, path)
    ensures forall k :: 0 <= k < |path| ==> path[k] < |actions|
  {
    assert Edge(actions, path[0], path[1]);
    forall k | 0 <= k < |path| ensures path[k] < |actions| {
      if k < |path| - 1 {
        assert Edge(actions, path[k], path[k + 1]);
      }
    }
  }

  lemma ClosedPathIsCycle<A, P>(actions: seq<ActionDefinition<A, P>>, path: seq<nat>, k: nat, i: nat)
    requires k < |path| && path[k] == i && IsPath(actions, path)
    requires Edge(actions, path[|path| - 1], i)
    ensures !Acyclic(actions)
  {
    var loop := path[k..] + [i];
    forall m | 0 <= m < |loop| - 1 ensures Edge(actions, loop[m], loop[m + 1]) {
      assert loop[m] == path[k + m];
      if m < |path| - k - 1 {
        assert Edge(actions, path[k + m], path[k + m + 1]);
      }
    }
    assert IsCycle(actions, loop);
  }

  // ---------------------------------------------------------------- the search

  ghost predicate Within<A, P>(actions: seq<ActionDefinition<A, P>>, s: seq<nat>) {
    forall i :: i in s ==> i < |actions|
  }

  ghost function NamesOf<A, P>(actions: seq<ActionDefinition<A, P>>, s: seq<nat>): set<A>
    requires Within(actions, s)
  {
    set i | i in s :: actions[i].name
  }

  lemma NamesOfOneMore<A, P>(actions: seq<ActionDefinition<A, P>>, s: seq<nat>, i: nat)
    requires Within(actions, s) && i < |actions|
    ensures Within(actions, s + [i])
    ensures NamesOf(actions, s + [i]) == NamesOf(actions, s) + {actions[i].name}
  {
    assert forall j :: j in s + [i] <==> j in s || j == i;
    forall n | n in NamesOf(actions, s) + {actions[i].name} ensures n in NamesOf(actions, s + [i]) {
      if n == actions[i].name {
        assert i in s + [i];
      } else {
        var j :| j in s && actions[j].name == n;
        assert j in s + [i];
      }
    }
  }

  lemma PathOneMore<A, P>(actions: seq<ActionDefinition<A, P>>, path: seq<nat>, i: nat)
    requires IsPath(actions, path) && (path != [] ==> Edge(actions, path[|path| - 1], i))
    ensures IsPath(actions, path + [i])
  {
    var longer := path + [i];
    forall k | 0 <= k < |longer| - 1 ensures Edge(actions, longer[k], longer[k + 1]) {
      if k < |path| - 1 {
        assert Edge(actions, path[k], path[k + 1]);
      }
    }
  }

  ghost function Unvisited<A, P>(actions: seq<ActionDefinition<A, P>>, visiting: set<A>): set<A> {
    (set n | n in Names(actions)) - visiting
  }

  /** What produces `p` has been visited. */
  ghost predicate Settled<A, P>(actions: seq<ActionDefinition<A, P>>, p: P, finished: seq<nat>) {
    Producer(actions, p).Some? && Producer(actions, p).value in finished
  }

  lemma SettledGrows<A, P>(actions: seq<ActionDefinition<A, P>>, ps: seq<P>, before: seq<nat>, after: seq<nat>)
    requires before <= after && forall p :: p in ps ==> Settled(actions, p, before)
    ensures forall p :: p in ps ==> Settled(actions, p, after)
  {
    assert forall x :: x in before ==> x in after;
  }

  lemma OrderedOneMore<A, P>(actions: seq<ActionDefinition<A, P>>, order: seq<nat>, i: nat)
    requires Ordered(actions, order) && i < |actions|
    requires forall p :: p in actions[i].prerequisites ==> Settled(actions, p, order)
    ensures Ordered(actions, order + [i])
  {
    var longer := order + [i];
    forall k, j: nat | 0 <= k < |longer| && Edge(actions, longer[k], j) ensures j in longer[..k] {
      if k < |order| {
        assert j in order[..k];
        assert longer[..k] == order[..k];
      } else {
        assert longer[..k] == order;
      }
    }
  }

  lemma OneIndexPerName<A, P>(actions: seq<ActionDefinition<A, P>>, s: seq<nat>, i: nat)
    requires NoRepeats(Names(actions)) && Within(actions, s) && i < |actions|
    requires actions[i].name in NamesOf(actions, s)
    ensures i in s
  {
    var j :| j in s && actions[j].name == actions[i].name;
    assert Names(actions)[i] == Names(actions)[j];
  }

  /** The two sets `visit` keeps, with the ghost sequences they summarize:
      `visiting` is the path from the root of the search to the action being
      visited, and `visited` is closed under prerequisites because every entry
      of `finished` comes after all it rests on. */
  class Search<A(==), P(==)> {
    const actions: seq<ActionDefinition<A, P>>
    var visited: set<A>
    var visiting: set<A>
    ghost var path: seq<nat>
    ghost var finished: seq<nat>

    ghost predicate Valid()
      reads this
    {
      && WellFormed(actions)
      && Within(actions, path) && IsPath(actions, path) && visiting == NamesOf(actions, path)
      && Within(actions, finished) && Ordered(actions, finished)
      && visited == NamesOf(actions, finished)
    }

    constructor (actions: seq<ActionDefinition<A, P>>)
      requires WellFormed(actions)
      ensures Valid() && this.actions == actions && path == [] && finished == []
    {
      this.actions := actions;
      visited, visiting := {}, {};
      path, finished := [], [];
    }

    /** Returns false where the source raises: the search met its own path. */
    method Visit(i: nat) returns (ok: bool)
      requires Valid() && i < |actions|
      requires path != [] ==> Edge(actions, path[|path| - 1], i)
      modifies this
      ensures !ok ==> !Acyclic(actions)
      ensures ok ==> Valid() && path == old(path) && visiting == old(visiting)
      ensures ok ==> old(finished) <= finished && i in finished
      decreases Unvisited(actions, visiting), 0
    {
      var action := actions[i];
      if action.name in visiting {
        OneIndexPerName(actions, path, i);
        ghost var k :| 0 <= k < |path| && path[k] == i;
        ClosedPathIsCycle(actions, path, k, i);
        return false;
      }
      if action.name in visited {
        OneIndexPerName(actions, finished, i);
        return true;
      }
      assert Names(actions)[i] == action.name;
      visiting := visiting + {action.name};
      NamesOfOneMore(actions, path, i);
      PathOneMore(actions, path, i);
      path := path + [i];
      ok := VisitAll(i, action.prerequisites);
      if !ok {
        return;
      }
      visiting := visiting - {action.name};
      path := old(path);
      assert visiting == NamesOf(actions, path);
      NamesOfOneMore(actions, finished, i);
      OrderedOneMore(actions, finished, i);
      finished := finished + [i];
      visited := visited + {action.name};
    }

    /** One turn of that loop: the action that produces `p`. */
    method VisitProducer(i: nat, p: P) returns (ok: bool)
      requires Valid() && i < |actions| && path != [] && path[|path| - 1] == i && p in actions[i].prerequisites
      modifies this
      ensures !ok ==> !Acyclic(actions)
      ensures ok ==> Valid() && path == old(path) && visiting == old(visiting)
      ensures ok ==> old(finished) <= finished && Settled(actions, p, finished)
      decreases Unvisited(actions, visiting), 1
    {
      RequiredHasProducer(actions, i, p);
      ok := Visit(Producer(actions, p).value);
    }

    /** The loop of `visit`: every producer of what action `i` requires. */
    method VisitAll(i: nat, required: seq<P>) returns (ok: bool)
      requires Valid() && i < |actions| && path != [] && path[|path| - 1] == i
      requires required == actions[i].prerequisites
      modifies this
      ensures !ok ==> !Acyclic(actions)
      ensures ok ==> Valid() && path == old(path) && visiting == old(visiting)
      ensures ok ==> old(finished) <= finished
      ensures ok ==> forall p :: p in required ==> Settled(actions, p, finished)
      decreases Unvisited(actions, visiting), 2
    {
      for r := 0 to |required|
        invariant Valid() && path == old(path) && visiting == old(visiting)
        invariant old(finished) <= finished
        invariant forall p :: p in required[..r] ==> Settled(actions, p, finished)
      {
        ghost var sofar := finished;
        ok := VisitProducer(i, required[r]);
        if !ok {
          return;
        }
        SettledGrows(actions, required[..r], sofar, finished);
        assert required[..r + 1] == required[..r] + [required[r]];
      }
      assert required[..|required|] == required;
      ok := true;
    }
  }

  lemma RequiredHasProducer<A, P>(actions: seq<ActionDefinition<A, P>>, i: nat, p: P)
    requires WellFormed(actions) && i < |actions| && p in actions[i].prerequisites
    ensures Producer(actions, p).Some? && Producer(actions, p).value < |actions|
    ensures Edge(actions, i, Producer(actions, p).value)
  {
    assert WellFormedAction(actions, i);
    assert KnownPrerequisite(actions, i, p);
  }

  // ---------------------------------------------------------------- validation

  /** What each refusal says is so. */
  ghost predicate Justified<A, P>(actions: seq<ActionDefinition<A, P>>, e: CatalogError) {
    match e
    case RepeatedName => !NoRepeats(Names(actions)) || !NoRepeats(Emitted(actions))
    case InvalidPhaseOrNoPredicate => exists a :: a in actions && (a.phase !in PHASES || a.emits == [])
    case UnknownSubjectKind => exists a :: a in actions && a.subjectKind !in SUBJECT_KINDS
    case UnknownPrerequisite => exists a, p :: a in actions && p in a.prerequisites && Producer(actions, p).None?
    case PrerequisiteFromAnotherPhase => exists a, p :: a in actions && p in a.prerequisites && FromAnotherPhase(actions, a, p)
    case PrerequisiteCycle => WellFormed(actions) && !Acyclic(actions)
  }

  ghost predicate FromAnotherPhase<A, P>(actions: seq<ActionDefinition<A, P>>, a: ActionDefinition<A, P>, p: P) {
    Producer(actions, p).Some? && actions[Producer(actions, p).value].phase != a.phase
  }

  /** A well-formed, acyclic catalog gives no refusal its reason. */
  lemma NothingIsWrong<A, P>(actions: seq<ActionDefinition<A, P>>, e: CatalogError)
    requires WellFormed(actions) && Acyclic(actions)
    ensures !Justified(actions, e)
  {
    forall a | a in actions
      ensures a.phase in PHASES && a.emits != [] && a.subjectKind in SUBJECT_KINDS
      ensures forall p :: p in a.prerequisites ==> Producer(actions, p).Some? && !FromAnotherPhase(actions, a, p)
    {
      var i :| 0 <= i < |actions| && actions[i] == a;
      assert WellFormedAction(actions, i);
    }
  }

  /** The loop of `_validate` over one action's prerequisites. */
  method CheckPrerequisites<A(==), P(==)>(actions: seq<ActionDefinition<A, P>>, i: nat) returns (problem: Option<CatalogError>)
    requires i < |actions|
    ensures problem.None? <==> forall p :: p in actions[i].prerequisites ==> KnownPrerequisite(actions, i, p)
    ensures problem.Some? ==> Justified(actions, problem.value) && !problem.value.PrerequisiteCycle? && !problem.value.RepeatedName?
  {
    var required := actions[i].prerequisites;
    for r := 0 to |required|
      invariant forall q :: 0 <= q < r ==> KnownPrerequisite(actions, i, required[q])
    {
      assert actions[i] in actions && required[r] in actions[i].prerequisites;
      var producer := Producer(actions, required[r]);
      if producer.None? {
        return Some(UnknownPrerequisite);
      }
      if actions[producer.value].phase != actions[i].phase {
        assert FromAnotherPhase(actions, actions[i], required[r]);
        return Some(PrerequisiteFromAnotherPhase);
      }
    }
    problem := None;
  }

  /** Returns normally exactly on a well-formed, acyclic catalog, which is one no refusal has a reason
      for, and then hands over an order to run it in; any refusal says what is wrong. */
  method Validate<A(==), P(==)>(actions: seq<ActionDefinition<A, P>>)
    returns (outcome: Result<(), CatalogError>, ghost order: seq<nat>)
    ensures outcome.Ok? <==> WellFormed(actions) && Acyclic(actions)
    ensures outcome.Ok? <==> forall e :: !Justified(actions, e)
    ensures outcome.Ok? ==> IsTopological(actions, order)
    ensures outcome.Err? ==> Justified(actions, outcome.error)
    ensures outcome == Err(PrerequisiteCycle) <==> WellFormed(actions) && !Acyclic(actions)
    ensures outcome == Err(RepeatedName) <==> Justified(actions, RepeatedName)
  {
    order := [];
    if !NoRepeats(Names(actions)) || !NoRepeats(Emitted(actions)) {
      assert Justified(actions, RepeatedName);
      return Err(RepeatedName), order;
    }
    for i := 0 to |actions|
      invariant forall k :: 0 <= k < i ==> WellFormedAction(actions, k)
    {
      var action := actions[i];
      assert action in actions;
      assert WellFormed(actions) ==> WellFormedAction(actions, i);
      if action.phase !in PHASES || action.emits == [] {
        assert Justified(actions, InvalidPhaseOrNoPredicate);
        return Err(InvalidPhaseOrNoPredicate), order;
      }
      if action.subjectKind !in SUBJECT_KINDS {
        assert Justified(actions, UnknownSubjectKind);
        return Err(UnknownSubjectKind), order;
      }
      var problem := CheckPrerequisites(actions, i);
      if problem.Some? {
        return Err(problem.value), order;
      }
    }
    ghost var found;
    outcome, found := SearchAll(actions);
    order := found;
    if outcome.Ok? {
      forall e ensures !Justified(actions, e) {
        NothingIsWrong(actions, e);
      }
    } else {
      assert Justified(actions, PrerequisiteCycle);
    }
  }

  /** The search from every action in turn. */
  method SearchAll<A(==), P(==)>(actions: seq<ActionDefinition<A, P>>)
    returns (outcome: Result<(), CatalogError>, ghost order: seq<nat>)
    requires WellFormed(actions)
    ensures outcome.Ok? <==> Acyclic(actions)
    ensures outcome.Ok? ==> IsTopological(actions, order)
    ensures outcome.Err? ==> outcome == Err(PrerequisiteCycle)
  {
    order := [];
    var search := new Search(actions);
    for i := 0 to |actions|
      invariant search.Valid() && search.actions == actions && search.path == []
      invariant forall k :: 0 <= k < i ==> k in search.finished
    {
      ghost var before := search.finished;
      var ok := search.Visit(i);
      if !ok {
        return Err(PrerequisiteCycle), order;
      }
      assert forall x :: x in before ==> x in search.finished;
    }
    order := search.finished;
    TopologicalMeansAcyclic(actions, order);
    outcome := Ok(());
  }
}
