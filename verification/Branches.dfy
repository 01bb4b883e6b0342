/** Concurrent submits to one region: each reads the allow-list and builds its tree, reads the tip,
    and swaps, with any others in between. */
module Branches {
  import opened Wrappers
  import opened Evidence
  import opened Submit
  import Globs

  // ---------------------------------------------------------------- the system

  /** A submit in flight, before and after it has read the tip it will stand on. */
  datatype Flight = Built(tree: Files, message: string) | Reading(tip: Option<Commit>, tree: Files, message: string)

  datatype System = System(refs: Refs, flights: map<nat, Flight>)

  /** The ledger an allow-list is resolved from is the event's own: any claims, under any evidence. */
  datatype Event =
    | Build(who: nat, claims: seq<Claim>, evidence: set<Subject>, working: seq<Entry>, message: string)
    | ReadTip(who: nat)
    | Swap(who: nat)

  ghost predicate Enabled(region: Region, s: System, e: Event) {
    match e
    case Build(_, claims, _, working, _) => DistinctEntries(working) && AllBounded(claims, region.ceiling)
    case ReadTip(who) => who in s.flights && s.flights[who].Built?
    case Swap(who) => who in s.flights && s.flights[who].Reading?
  }

  function Next(region: Region, s: System, e: Event): System
    requires e.ReadTip? ==> e.who in s.flights
    requires e.Swap? ==> e.who in s.flights && s.flights[e.who].Reading?
  {
    match e
    case Build(who, claims, evidence, working, message) =>
      var tree := Constructed(s.refs.main.tree, working, ResolveAllowGlobs(claims, region, evidence));
      s.(flights := s.flights[who := Built(tree, message)])
    case ReadTip(who) =>
      var f := s.flights[who];
      s.(flights := s.flights[who := Reading(s.refs.branch, f.tree, f.message)])
    case Swap(who) =>
      var f := s.flights[who];
      System(Commits(s.refs, f.tip, f.tree, f.message).0, s.flights - {who})
  }

  ghost predicate Stepped(region: Region, s: System, t: System) {
    exists e :: Enabled(region, s, e) && t == Next(region, s, e)
  }

  ghost predicate Trace(region: Region, baseline: Files, run: seq<System>) {
    && run != [] && run[0] == System(Refs(Root(baseline), None, []), map[])
    && forall i {:trigger run[i]} :: 0 < i < |run| ==> Stepped(region, run[i - 1], run[i])
  }

  // ---------------------------------------------------------------- the chain

  /** Where the next commit has to stand. */
  function Tip(refs: Refs): Commit { if refs.branch.Some? then refs.branch.value else refs.main }

  /** The branch is the baseline and every commit that landed, in the order they landed. */
  ghost predicate Linear(refs: Refs) {
    Line(Tip(refs)) == [refs.main] + refs.landed && (refs.branch.None? ==> refs.landed == [])
  }

  /** No path but those the ceiling or the specification covers differs from the baseline. */
  ghost predicate Agrees(region: Region, baseline: Files, tree: Files) {
    forall path :: !Submit.Reachable(region, path) ==> At(tree, path) == At(baseline, path)
  }

  ghost predicate AllAgree(region: Region, baseline: Files, s: System) {
    && (forall c :: c in s.refs.landed ==> Agrees(region, baseline, c.tree))
    && (forall who :: who in s.flights ==> Agrees(region, baseline, s.flights[who].tree))
  }

  /** A swap that lands puts one commit on the very tip it replaces; any other leaves the branch's
      history alone. */
  lemma SwapsKeepTheLine(refs: Refs, tip: Option<Commit>, tree: Files, message: string)
    requires Linear(refs)
    ensures var (after, outcome) := Commits(refs, tip, tree, message);
      && Linear(after) && after.main == refs.main
      && (outcome == Committed ==>
            after.landed == refs.landed + [Child(Tip(refs), tree, message)] && Tip(after) == Child(Tip(refs), tree, message))
      && (outcome != Committed ==> after.landed == refs.landed && Tip(after) == Tip(refs))
      && (outcome == Concurrent ==> after == refs)
  {
    var commit := Child(Tip(refs), tree, message);
    assert Line(commit) == [refs.main] + refs.landed + [commit];
    assert [refs.main] + refs.landed + [commit] == [refs.main] + (refs.landed + [commit]);
  }

  lemma BuildsAgree(region: Region, baseline: Files, claims: seq<Claim>, evidence: set<Subject>, working: seq<Entry>)
    requires Reviewed(region) && AllBounded(claims, region.ceiling) && DistinctEntries(working)
    ensures Agrees(region, baseline, Constructed(baseline, working, ResolveAllowGlobs(claims, region, evidence)))
  {
    var globs := ResolveAllowGlobs(claims, region, evidence);
    forall path | !Submit.Reachable(region, path) ensures At(Constructed(baseline, working, globs), path) == At(baseline, path) {
      ConstructedExactly(baseline, working, globs, path);
      if Globs.MatchesAny(path, globs) {
        AllowListsStayUnderTheCeiling(claims, region, evidence, path);
      }
    }
  }

  /** And only then: the trees an allow-list lets submits build all agree with the baseline outside if
      and only if the allow-list covers nothing outside. */
  lemma BuildsAgreeExactlyWhen(region: Region, baseline: Files, globs: seq<string>)
    ensures (forall working :: DistinctEntries(working) ==> Agrees(region, baseline, Constructed(baseline, working, globs)))
      <==> forall path :: Globs.MatchesAny(path, globs) ==> Submit.Reachable(region, path)
  {
    if forall path :: Globs.MatchesAny(path, globs) ==> Submit.Reachable(region, path) {
      forall working, path | DistinctEntries(working) && !Submit.Reachable(region, path)
        ensures At(Constructed(baseline, working, globs), path) == At(baseline, path)
      {
        ConstructedExactly(baseline, working, globs, path);
      }
    } else {
      var path :| Globs.MatchesAny(path, globs) && !Submit.Reachable(region, path);
      var working := [Entry(path, if At(baseline, path) == Some("") then "changed" else "")];
      assert DistinctEntries(working) && working[0] in working;
      ConstructedExactly(baseline, working, globs, path);
      assert !Agrees(region, baseline, Constructed(baseline, working, globs));
    }
  }

  ghost predicate Sound(region: Region, baseline: Files, s: System) {
    s.refs.main == Root(baseline) && Linear(s.refs) && AllAgree(region, baseline, s)
  }

  lemma StepKeepsSound(region: Region, baseline: Files, s: System, e: Event)
    requires Reviewed(region) && Sound(region, baseline, s) && Enabled(region, s, e)
    ensures Sound(region, baseline, Next(region, s, e)) && s.refs.landed <= Next(region, s, e).refs.landed
  {
    match e
    case Build(_, claims, evidence, working, _) => BuildsAgree(region, baseline, claims, evidence, working);
    case ReadTip(_) =>
    case Swap(who) =>
      var f := s.flights[who];
      SwapsKeepTheLine(s.refs, f.tip, f.tree, f.message);
  }

  lemma {:induction false} RunsAreSound(region: Region, baseline: Files, run: seq<System>, i: nat)
    requires Reviewed(region) && Trace(region, baseline, run) && i < |run|
    ensures Sound(region, baseline, run[i])
  {
    if i > 0 {
      RunsAreSound(region, baseline, run, i - 1);
      assert Stepped(region, run[i - 1], run[i]);
      var e :| Enabled(region, run[i - 1], e) && run[i] == Next(region, run[i - 1], e);
      StepKeepsSound(region, baseline, run[i - 1], e);
    }
  }

  /** Whatever the interleaving, the branch is one chain back to the baseline: the commits reported
      as successful, each standing on the one that landed before it, and nothing else. */
  lemma TheBranchIsOneChain(region: Region, baseline: Files, run: seq<System>, i: nat)
    requires Reviewed(region) && Trace(region, baseline, run) && i < |run|
    ensures Line(Tip(run[i].refs)) == [Root(baseline)] + run[i].refs.landed
    ensures forall k :: 0 <= k < |run[i].refs.landed| ==>
      run[i].refs.landed[k].Child? && run[i].refs.landed[k].parent == ([Root(baseline)] + run[i].refs.landed)[k]
  {
    RunsAreSound(region, baseline, run, i);
    LinesLink(Tip(run[i].refs));
    var line := Line(Tip(run[i].refs));
    forall k | 0 <= k < |run[i].refs.landed|
      ensures run[i].refs.landed[k].Child? && run[i].refs.landed[k].parent == ([Root(baseline)] + run[i].refs.landed)[k]
    {
      assert line[k + 1] == run[i].refs.landed[k];
    }
  }

  lemma {:induction false} LinesLink(c: Commit)
    ensures Line(c) != [] && Line(c)[|Line(c)| - 1] == c && Line(c)[0].Root?
    ensures forall k :: 0 < k < |Line(c)| ==> Line(c)[k].Child? && Line(c)[k].parent == Line(c)[k - 1]
    decreases c
  {
    if c.Child? {
      LinesLink(c.parent);
    }
  }

  /** A commit that landed never leaves the branch. */
  lemma {:induction false} NothingLandedIsLost(region: Region, baseline: Files, run: seq<System>, i: nat, j: nat)
    requires Reviewed(region) && Trace(region, baseline, run) && i <= j < |run|
    ensures run[i].refs.landed <= run[j].refs.landed
    ensures forall c :: c in run[i].refs.landed ==> c in Line(Tip(run[j].refs))
    decreases j
  {
    RunsAreSound(region, baseline, run, j);
    if i < j {
      NothingLandedIsLost(region, baseline, run, i, j - 1);
      RunsAreSound(region, baseline, run, j - 1);
      assert Stepped(region, run[j - 1], run[j]);
      var e :| Enabled(region, run[j - 1], e) && run[j] == Next(region, run[j - 1], e);
      StepKeepsSound(region, baseline, run[j - 1], e);
    }
  }

  /** A submit whose tip the branch has left is told so, and one that lands was built on the tip it
      replaces: of all that were read at one tip, at most one lands. */
  lemma StaleTipsNeverLand(region: Region, baseline: Files, run: seq<System>, i: nat, j: nat, tree: Files, message: string)
    requires Reviewed(region) && Trace(region, baseline, run) && i <= j < |run|
    requires run[i].refs.landed != run[j].refs.landed
    ensures Commits(run[j].refs, run[i].refs.branch, tree, message).1 != Committed
    ensures Commits(run[j].refs, run[i].refs.branch, tree, message).0 == run[j].refs
  {
    RunsAreSound(region, baseline, run, i);
    RunsAreSound(region, baseline, run, j);
    NothingLandedIsLost(region, baseline, run, i, j);
    assert Line(Tip(run[i].refs)) != Line(Tip(run[j].refs)) by {
      assert |Line(Tip(run[i].refs))| == 1 + |run[i].refs.landed|;
      assert |Line(Tip(run[j].refs))| == 1 + |run[j].refs.landed|;
    }
  }

  lemma {:induction false} BranchesStay(region: Region, baseline: Files, run: seq<System>, i: nat, j: nat)
    requires Reviewed(region) && Trace(region, baseline, run) && i <= j < |run| && run[i].refs.branch.Some?
    ensures run[j].refs.branch.Some?
    decreases j
  {
    if i < j {
      BranchesStay(region, baseline, run, i, j - 1);
      assert Stepped(region, run[j - 1], run[j]);
      var e :| Enabled(region, run[j - 1], e) && run[j] == Next(region, run[j - 1], e);
      if e.Swap? {
        var f := run[j - 1].flights[e.who];
        CommitsExactly(run[j - 1].refs, f.tip, f.tree, f.message);
      }
    }
  }

  /** A branch is where it was exactly when nothing landed and it was not created meanwhile. */
  lemma SameBranchExactly(region: Region, baseline: Files, run: seq<System>, i: nat, j: nat)
    requires Reviewed(region) && Trace(region, baseline, run) && i <= j < |run|
    ensures run[j].refs.branch == run[i].refs.branch <==>
      run[j].refs.landed == run[i].refs.landed && (run[i].refs.branch.Some? || run[j].refs.branch.None?)
  {
    RunsAreSound(region, baseline, run, i);
    RunsAreSound(region, baseline, run, j);
    LinesLink(Tip(run[i].refs));
    LinesLink(Tip(run[j].refs));
    assert [run[i].refs.main] + run[i].refs.landed == Line(Tip(run[i].refs));
    assert [run[j].refs.main] + run[j].refs.landed == Line(Tip(run[j].refs));
    assert ([run[i].refs.main] + run[i].refs.landed)[1..] == run[i].refs.landed;
    assert ([run[j].refs.main] + run[j].refs.landed)[1..] == run[j].refs.landed;
    if run[i].refs.branch.Some? {
      BranchesStay(region, baseline, run, i, j);
    }
  }

  /** A submit that read the tip at `i` and swaps at `j` lands if and only if its tree is new, nothing has
      landed in between, and the branch was not created in between. */
  lemma LandsExactlyWhen(region: Region, baseline: Files, run: seq<System>, i: nat, j: nat, tree: Files, message: string)
    requires Reviewed(region) && Trace(region, baseline, run) && i <= j < |run|
    ensures Commits(run[j].refs, run[i].refs.branch, tree, message).1 == Committed <==>
      && tree != Tip(run[i].refs).tree && run[j].refs.landed == run[i].refs.landed
      && (run[i].refs.branch.Some? || run[j].refs.branch.None?)
  {
    RunsAreSound(region, baseline, run, i);
    RunsAreSound(region, baseline, run, j);
    CommitsExactly(run[j].refs, run[i].refs.branch, tree, message);
    SameBranchExactly(region, baseline, run, i, j);
  }

  /** A submit builds, path by path, its working file where the allow-list covers it and the baseline's
      everywhere else, and keeps it until it swaps. */
  lemma BuildsExactly(region: Region, s: System, who: nat, claims: seq<Claim>, evidence: set<Subject>,
                      working: seq<Entry>, message: string, path: string)
    requires DistinctEntries(working)
    ensures var s' := Next(region, s, Build(who, claims, evidence, working, message));
      var covered := Globs.MatchesAny(path, ResolveAllowGlobs(claims, region, evidence));
      && s'.refs == s.refs && who in s'.flights && s'.flights[who].Built? && s'.flights[who].message == message
      && (forall e :: e in working && e.path == path && covered ==> At(s'.flights[who].tree, path) == Some(e.content))
      && (!covered || (forall e :: e in working ==> e.path != path) ==> At(s'.flights[who].tree, path) == At(s.refs.main.tree, path))
  {
    ConstructedExactly(s.refs.main.tree, working, ResolveAllowGlobs(claims, region, evidence), path);
  }

  /** `who` reads the tip at `i`, swaps at `j`, and does nothing else in between. */
  ghost predicate ReadsThenSwaps(region: Region, run: seq<System>, who: nat, i: nat, j: nat) {
    && i < j && j + 1 < |run|
    && Enabled(region, run[i], ReadTip(who)) && run[i + 1] == Next(region, run[i], ReadTip(who))
    && (forall k :: i < k <= j ==> who in run[k].flights && run[k].flights[who] == run[i + 1].flights[who])
    && run[j + 1] == Next(region, run[j], Swap(who))
  }

  /** Over any run: such a submit's commit is the branch's next one, on the tip it read, if and only if its
      tree is new, nothing landed while it was under way, and the branch was not created meanwhile. */
  lemma SubmitsLandExactlyWhen(region: Region, baseline: Files, run: seq<System>, who: nat, i: nat, j: nat)
    requires Reviewed(region) && Trace(region, baseline, run) && ReadsThenSwaps(region, run, who, i, j)
    ensures var f := run[i].flights[who];
      var commit := Child(Tip(run[i].refs), f.tree, f.message);
      (run[j + 1].refs.branch == Some(commit) && run[j + 1].refs.landed == run[j].refs.landed + [commit]) <==>
        && f.tree != Tip(run[i].refs).tree && run[j].refs.landed == run[i].refs.landed
        && (run[i].refs.branch.Some? || run[j].refs.branch.None?)
  {
    var f := run[i].flights[who];
    assert run[j].flights[who] == run[i + 1].flights[who] == Reading(run[i].refs.branch, f.tree, f.message);
    LandsExactlyWhen(region, baseline, run, i, j, f.tree, f.message);
    CommitsExactly(run[j].refs, run[i].refs.branch, f.tree, f.message);
    RunsAreSound(region, baseline, run, i);
    RunsAreSound(region, baseline, run, j);
  }

  /** Over every run, no commit of the branch touches a path outside the ceiling and the
      specification: none changed, none dropped, none added. */
  lemma CommitsStayUnderTheCeiling(region: Region, baseline: Files, run: seq<System>, i: nat, c: Commit, path: string)
    requires Reviewed(region) && Trace(region, baseline, run) && i < |run|
    requires c in Line(Tip(run[i].refs)) && !Submit.Reachable(region, path)
    ensures At(c.tree, path) == At(baseline, path)
  {
    RunsAreSound(region, baseline, run, i);
    assert c == Root(baseline) || c in run[i].refs.landed;
  }
}
