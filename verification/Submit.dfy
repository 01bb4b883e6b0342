/** Submits: which files an agent may change, the tree a submit builds, and the branch it lands on. */
module Submit {
  import opened Wrappers
  import opened Workflow
  import opened Catalog
  import opened Evidence
  import opened Globs
  import opened Ceilings

  /** A tree: what each tracked path holds. */
  type Files = map<string, string>

  function At(files: Files, path: string): Option<string> {
    if path in files then Some(files[path]) else None
  }

  // ---------------------------------------------------------------- the allow-list

  /** What a region's reviewed configuration says: the phase, its specification file, and the ceiling
      no allow-list may pass. */
  datatype Region = Region(phase: string, specPath: string, ceiling: seq<string>)

  /** An analyzer claim that may set the allow-list: current, passing, holding the specification's
      own path, with every entry matched by the ceiling as if it were a path. */
  predicate Widens(c: Claim, region: Region, evidence: set<Subject>) {
    && c.predicateType == Sese_Verified && c.verdict == Pass && Matches(c, evidence)
    && c.detail.allowGlobs.Some? && region.specPath in c.detail.allowGlobs.value
    && forall g :: g in c.detail.allowGlobs.value ==> MatchesAny(g, region.ceiling)
  }

  /** The newest such claim; of equally new ones, the last appended. */
  function NewestWidening(claims: seq<Claim>, region: Region, evidence: set<Subject>): (r: Option<nat>)
    ensures r.Some? ==> r.value < |claims| && Widens(claims[r.value], region, evidence)
    decreases |claims|
  {
    if claims == [] then None
    else
      var n := |claims| - 1;
      var before := NewestWidening(claims[..n], region, evidence);
      if Widens(claims[n], region, evidence) && (before.None? || claims[before.value].ts <= claims[n].ts) then Some(n) else before
  }

  lemma {:induction false} NewestWideningIsNewest(claims: seq<Claim>, region: Region, evidence: set<Subject>)
    ensures var r := NewestWidening(claims, region, evidence);
      forall j :: 0 <= j < |claims| && Widens(claims[j], region, evidence) ==>
        r.Some? && (claims[j].ts < claims[r.value].ts || (claims[j].ts == claims[r.value].ts && j <= r.value))
    decreases |claims|
  {
    if claims != [] {
      var n := |claims| - 1;
      NewestWideningIsNewest(claims[..n], region, evidence);
      assert forall j :: 0 <= j < n ==> claims[..n][j] == claims[j];
    }
  }

  function ResolveAllowGlobs(claims: seq<Claim>, region: Region, evidence: set<Subject>): seq<string> {
    if region.phase == ONBOARDING then region.ceiling
    else
      match NewestWidening(claims, region, evidence)
      case None => [region.specPath]
      case Some(i) => claims[i].detail.allowGlobs.value
  }

  /** What the allow-list is, path by path: in onboarding the ceiling; for a port the entries of the newest
      claim that may set it, and while there is none the specification alone. A claim may set it that is a
      current pass of the analyzer, lists the specification, and lists only what the ceiling matches. */
  lemma AllowListExactly(claims: seq<Claim>, region: Region, evidence: set<Subject>, path: string)
    ensures var covered := MatchesAny(path, ResolveAllowGlobs(claims, region, evidence));
      var newest := NewestWidening(claims, region, evidence);
      && (region.phase == ONBOARDING ==> (covered <==> MatchesAny(path, region.ceiling)))
      && (region.phase != ONBOARDING && newest.None? ==> (covered <==> GlobMatches(path, region.specPath)))
      && (region.phase != ONBOARDING && newest.Some? ==>
            (covered <==> exists g :: g in claims[newest.value].detail.allowGlobs.value && GlobMatches(path, g)))
      && (newest.Some? <==> exists j :: 0 <= j < |claims| && Widens(claims[j], region, evidence))
  {
    NewestWideningIsNewest(claims, region, evidence);
    if region.phase != ONBOARDING && NewestWidening(claims, region, evidence).None? {
      assert forall g :: g in [region.specPath] <==> g == region.specPath;
    }
  }

  lemma WidensExactly(c: Claim, region: Region, evidence: set<Subject>)
    ensures Widens(c, region, evidence) <==>
      && c.predicateType == Sese_Verified && c.verdict == Pass
      && c.version == SCHEMA_VERSION && (forall m :: m in evidence ==> m in c.materials)
      && c.detail.allowGlobs.Some?
      && region.specPath in c.detail.allowGlobs.value
      && forall g :: g in c.detail.allowGlobs.value ==> exists pattern :: pattern in region.ceiling && GlobMatches(g, pattern)
  {
  }

  ghost predicate AllBounded(claims: seq<Claim>, ceiling: seq<string>) {
    forall i, g :: 0 <= i < |claims| && claims[i].detail.allowGlobs.Some? && g in claims[i].detail.allowGlobs.value ==> Bounded(g, ceiling)
  }

  /** A ceiling that takes no wildcard of an entry for a character: one of literals and stars, for a start. */
  ghost predicate Reviewed(region: Region) {
    forall c :: c in region.ceiling ==> Safe(c)
  }

  /** Where a submit may ever reach: under the ceiling, or the specification itself. */
  predicate Reachable(region: Region, path: string) {
    MatchesAny(path, region.ceiling) || GlobMatches(path, region.specPath)
  }

  /** Whatever claims the ledger holds, the resolved allow-list covers nothing else. */
  lemma AllowListsStayUnderTheCeiling(claims: seq<Claim>, region: Region, evidence: set<Subject>, path: string)
    requires Reviewed(region) && AllBounded(claims, region.ceiling)
    requires MatchesAny(path, ResolveAllowGlobs(claims, region, evidence))
    ensures Reachable(region, path)
  {
    var widening := NewestWidening(claims, region, evidence);
    if region.phase != ONBOARDING && widening.Some? {
      var globs := claims[widening.value].detail.allowGlobs.value;
      var g :| g in globs && GlobMatches(path, g);
      EntryStaysUnderTheCeiling(g, region, path);
    }
  }

  lemma EntryStaysUnderTheCeiling(g: string, region: Region, path: string)
    requires Reviewed(region) && Bounded(g, region.ceiling) && GlobMatches(path, g)
    ensures MatchesAny(path, region.ceiling)
  {
    BoundedIsExact(g, region.ceiling);
  }

  /** Exactly when: an allow-list stays under the ceiling if and only if every one of its entries is
      bounded. */
  lemma AllowListIsUnderExactlyWhenBounded(globs: seq<string>, region: Region)
    requires Reviewed(region)
    ensures (forall g :: g in globs ==> Bounded(g, region.ceiling))
      <==> forall path: string :: MatchesAny(path, globs) ==> MatchesAny(path, region.ceiling)
  {
    if forall path: string :: MatchesAny(path, globs) ==> MatchesAny(path, region.ceiling) {
      forall g | g in globs ensures Bounded(g, region.ceiling) {
        forall path: string | GlobMatches(path, g) ensures MatchesAny(path, region.ceiling) {
          assert MatchesAny(path, globs);
        }
        BoundedIsExact(g, region.ceiling);
      }
    }
    if forall g :: g in globs ==> Bounded(g, region.ceiling) {
      forall path: string | MatchesAny(path, globs) ensures MatchesAny(path, region.ceiling) {
        var g :| g in globs && GlobMatches(path, g);
        EntryStaysUnderTheCeiling(g, region, path);
      }
    }
  }

  /** Without that the ceiling does not hold: one entry the ceiling is deceived by is enough for a
      claim the rules accept to let a file through that the ceiling does not match. */
  lemma DeceivedCeilingsWiden(id: nat, tree: nat, spec: string, entry: string, ceiling: string, path: string)
    requires GlobMatches(spec, ceiling) && GlobMatches(entry, ceiling)
    requires GlobMatches(path, entry) && !GlobMatches(path, ceiling) && !GlobMatches(path, spec)
    ensures var region := Region(PORTING, spec, [ceiling]);
      var claim := Claim(id, 0, Tree(tree), Sese_Verified, 0, Pass, Detail([], Some([spec, entry])), {}, SCHEMA_VERSION);
      && Widens(claim, region, {})
      && MatchesAny(path, ResolveAllowGlobs([claim], region, {})) && !Reachable(region, path)
  {
    var region := Region(PORTING, spec, [ceiling]);
    var claim := Claim(id, 0, Tree(tree), Sese_Verified, 0, Pass, Detail([], Some([spec, entry])), {}, SCHEMA_VERSION);
    assert ceiling in [ceiling] && spec in [spec, entry] && entry in [spec, entry];
    assert MatchesAny(spec, [ceiling]) && MatchesAny(entry, [ceiling]);
    OneClaimSets(claim, region);
  }

  lemma OneClaimSets(c: Claim, region: Region)
    requires region.phase == PORTING && Widens(c, region, {})
    ensures ResolveAllowGlobs([c], region, {}) == c.detail.allowGlobs.value
  {
    assert [c][..0] == [];
    assert NewestWidening([c], region, {}) == Some(0);
  }

  // A claim listing **/a under the ceiling */a lets the file a through.
  lemma AnyDepthEntriesWiden(id: nat, tree: nat)
    ensures var region := Region(PORTING, "x/a", ["*/a"]);
      var claim := Claim(id, 0, Tree(tree), Sese_Verified, 0, Pass, Detail([], Some(["x/a", "**/a"])), {}, SCHEMA_VERSION);
      && Reviewed(region) && Widens(claim, region, {})
      && MatchesAny("a", ResolveAllowGlobs([claim], region, {})) && !Reachable(region, "a")
  {
    AnyDepthEntryEscapes();
    StarOnlyIsSafe("*/a");
    SpecUnderStar();
    DeceivedCeilingsWiden(id, tree, "x/a", "**/a", "*/a", "a");
  }

  // And one listing the class [ab] under the ceiling *ab* does so too.
  lemma ClassEntriesWiden(id: nat, tree: nat)
    ensures var region := Region(PORTING, "ab", ["*ab*"]);
      var claim := Claim(id, 0, Tree(tree), Sese_Verified, 0, Pass, Detail([], Some(["ab", "[ab]"])), {}, SCHEMA_VERSION);
      && Reviewed(region) && Widens(claim, region, {})
      && MatchesAny("a", ResolveAllowGlobs([claim], region, {})) && !Reachable(region, "a")
  {
    ClassEntryEscapes();
    StarOnlyIsSafe("*ab*");
    SpecUnderClassCeiling();
    DeceivedCeilingsWiden(id, tree, "ab", "[ab]", "*ab*", "a");
  }

  lemma StarMatchesTheSpec()
    ensures MatchTokens("x/a", Tokens("*/a"))
  {
    PlainMatchesItself("/a");
    StarTakesAll("x");
    SlashInFront("a");
    MatchConcat("x", [Star], "/a", Tokens("/a"));
    assert "*/" + "a" == "*/a" && "/" + "a" == "/a" && "/a"[1..] == "a";
    assert Tokens("/a") == [One('/')] + Tokens("a");
    assert "x" + "/a" == "x/a" && [Star] + ([One('/')] + Tokens("a")) == [Star, One('/')] + Tokens("a");
  }

  lemma SpecUnderStar()
    ensures GlobMatches("x/a", "*/a") && !GlobMatches("a", "x/a")
  {
    assert Lower("x/a") == "x/a" && Lower("*/a") == "*/a" && Lower("a") == "a";
    GlobOfSpelled("x/a", "*/a");
    GlobOfSpelled("a", "x/a");
    StarMatchesTheSpec();
    PlainTokens("x/a");
    NarrowIsNotMatched("a", Tokens("x/a"));
  }

  lemma StarsMatchTheSpec()
    ensures MatchTokens("ab", Tokens("*ab*"))
  {
    PlainTokens("*ab*");
    PlainTokens("ab");
    PlainMatchesItself("ab");
    StarTakesAll("");
    MatchConcat("", [Star], "ab", Tokens("ab"));
    MatchConcat("" + "ab", [Star] + Tokens("ab"), "", [Star]);
    assert "" + "ab" + "" == "ab" && [Star] + Tokens("ab") + [Star] == Tokens("*ab*");
  }

  lemma SpecUnderClassCeiling()
    ensures GlobMatches("ab", "*ab*") && !GlobMatches("a", "ab")
  {
    assert Lower("ab") == "ab" && Lower("*ab*") == "*ab*" && Lower("a") == "a";
    GlobOfSpelled("ab", "*ab*");
    GlobOfSpelled("a", "ab");
    StarsMatchTheSpec();
    PlainTokens("ab");
    NarrowIsNotMatched("a", Tokens("ab"));
  }

  // ---------------------------------------------------------------- the tree a submit builds

  datatype Entry = Entry(path: string, content: string)

  predicate DistinctEntries(working: seq<Entry>) {
    forall i, j :: 0 <= i < j < |working| ==> working[i].path != working[j].path
  }

  function Allowed(working: seq<Entry>, globs: seq<string>): Files {
    if working == [] then map[]
    else
      var last := working[|working| - 1];
      var before := Allowed(working[..|working| - 1], globs);
      if MatchesAny(last.path, globs) then before[last.path := last.content] else before
  }

  function NotAllowed(working: seq<Entry>, globs: seq<string>): seq<string> {
    if working == [] then []
    else
      var last := working[|working| - 1];
      NotAllowed(working[..|working| - 1], globs) + if MatchesAny(last.path, globs) then [] else [last.path]
  }

  /** The allowed files of the working copy laid over the baseline. */
  function Constructed(baseline: Files, working: seq<Entry>, globs: seq<string>): Files {
    baseline + Allowed(working, globs)
  }

  /** The baseline files the allow-list does not cover. */
  function FrozenFiles(baseline: Files, globs: seq<string>): Files {
    map p | p in baseline && !MatchesAny(p, globs) :: baseline[p]
  }

  /** What the overlay applies and what it rejects, of these working files. */
  ghost predicate SplitExactly(working: seq<Entry>, globs: seq<string>, applied: Files, rejected: seq<string>) {
    && (forall p :: p in applied ==> MatchesAny(p, globs) && Entry(p, applied[p]) in working)
    && (forall e :: e in working && MatchesAny(e.path, globs) ==> At(applied, e.path) == Some(e.content))
    && (forall p :: p in rejected <==> (!MatchesAny(p, globs) && exists e :: e in working && e.path == p))
  }

  lemma OneMoreSplits(before: seq<Entry>, last: Entry, globs: seq<string>, applied: Files, rejected: seq<string>)
    requires SplitExactly(before, globs, applied, rejected) && forall e :: e in before ==> e.path != last.path
    ensures MatchesAny(last.path, globs) ==> SplitExactly(before + [last], globs, applied[last.path := last.content], rejected)
    ensures !MatchesAny(last.path, globs) ==> SplitExactly(before + [last], globs, applied, rejected + [last.path])
  {
    assert forall e :: e in before + [last] <==> e in before || e == last;
    assert last in before + [last];
  }

  lemma {:induction false} AllowedExactly(working: seq<Entry>, globs: seq<string>)
    requires DistinctEntries(working)
    ensures SplitExactly(working, globs, Allowed(working, globs), NotAllowed(working, globs))
    decreases |working|
  {
    if working != [] {
      var n := |working| - 1;
      var before, last := working[..n], working[n];
      AllowedExactly(before, globs);
      assert working == before + [last];
      forall e | e in before ensures e.path != last.path {
        var i :| 0 <= i < n && before[i] == e;
      }
      OneMoreSplits(before, last, globs, Allowed(before, globs), NotAllowed(before, globs));
    }
  }

  /** Read path by path: the working copy's file where the allow-list covers it and there is one, and
      the baseline's everywhere else; so a frozen file is always the baseline's, and a covered file
      left out of the working copy is not removed. */
  lemma ConstructedExactly(baseline: Files, working: seq<Entry>, globs: seq<string>, path: string)
    requires DistinctEntries(working)
    ensures forall e :: e in working && e.path == path && MatchesAny(path, globs) ==>
      At(Constructed(baseline, working, globs), path) == Some(e.content)
    ensures (!MatchesAny(path, globs) || forall e :: e in working ==> e.path != path) ==>
      At(Constructed(baseline, working, globs), path) == At(baseline, path)
    ensures path in FrozenFiles(baseline, globs) ==>
      At(Constructed(baseline, working, globs), path) == Some(FrozenFiles(baseline, globs)[path])
  {
    AllowedExactly(working, globs);
    if path in Allowed(working, globs) {
      assert Entry(path, Allowed(working, globs)[path]) in working;
    }
  }

  method Overlay(working: seq<Entry>, globs: seq<string>) returns (applied: Files, rejected: seq<string>)
    ensures applied == Allowed(working, globs) && rejected == NotAllowed(working, globs)
  {
    applied, rejected := map[], [];
    for i := 0 to |working|
      invariant applied == Allowed(working[..i], globs) && rejected == NotAllowed(working[..i], globs)
    {
      assert working[..i + 1][..i] == working[..i];
      if MatchesAny(working[i].path, globs) {
        applied := applied[working[i].path := working[i].content];
      } else {
        rejected := rejected + [working[i].path];
      }
    }
    assert working[..|working|] == working;
  }

  // ---------------------------------------------------------------- commits and the branch

  /** A commit is its history: the tree, and the commit it was made on. */
  datatype Commit = Root(tree: Files) | Child(parent: Commit, tree: Files, message: string)

  /** A commit and everything it stands on, oldest first. */
  function Line(c: Commit): seq<Commit> {
    match c
    case Root(_) => [c]
    case Child(parent, _, _) => Line(parent) + [c]
  }

  /** One region's branch in the repository, with the commits that were reported as successful. */
  datatype Refs = Refs(main: Commit, branch: Option<Commit>, landed: seq<Commit>)

  datatype Outcome = Committed | Unchanged | Concurrent

  /** What becomes of a tree built by a submit that read `tip` some time ago: nothing when the tree is
      the parent's own (a branch that was missing is created), otherwise a commit on the tip it read,
      which lands only if the branch is still there. */
  function Commits(refs: Refs, tip: Option<Commit>, tree: Files, message: string): (Refs, Outcome) {
    var parent := if tip.Some? then tip.value else refs.main;
    if tree == parent.tree then
      if tip.Some? then (refs, Unchanged)
      else if refs.branch.None? then (refs.(branch := Some(parent)), Unchanged)
      else (refs, Concurrent)
    else
      var commit := Child(parent, tree, message);
      if refs.branch == tip then (refs.(branch := Some(commit), landed := refs.landed + [commit]), Committed)
      else (refs, Concurrent)
  }

  /** When each outcome is given, and what it does to the branch. */
  lemma CommitsExactly(refs: Refs, tip: Option<Commit>, tree: Files, message: string)
    ensures var (after, outcome) := Commits(refs, tip, tree, message);
      var parent := if tip.Some? then tip.value else refs.main;
      && (outcome == Committed <==> refs.branch == tip && tree != parent.tree)
      && (outcome == Unchanged <==> tree == parent.tree && (tip.Some? || refs.branch.None?))
      && (outcome == Committed ==>
            after.branch == Some(Child(parent, tree, message)) && after.landed == refs.landed + [Child(parent, tree, message)])
      && (outcome == Unchanged ==> after.branch == (if tip.Some? then refs.branch else Some(refs.main)) && after.landed == refs.landed)
      && (outcome == Concurrent ==> after == refs)
      && after.main == refs.main
  {
  }

  class Repository {
    const main: Commit
    var branch: Option<Commit>
    ghost var landed: seq<Commit>

    constructor (baseline: Files)
      ensures main == Root(baseline) && branch == None && landed == []
    {
      main, branch, landed := Root(baseline), None, [];
    }

    ghost function State(): Refs
      reads this
    {
      Refs(main, branch, landed)
    }

    /** The branch moves to `to` only if it is still what the caller saw. */
    method UpdateRef(to: Commit, seen: Option<Commit>) returns (ok: bool)
      modifies this`branch
      ensures ok <==> old(branch) == seen
      ensures branch == if ok then Some(to) else old(branch)
    {
      ok := branch == seen;
      if ok {
        branch := Some(to);
      }
    }

    /** `tip` is what this submit read; other submits may have moved the branch since. */
    method CommitTreeIfChanged(tip: Option<Commit>, tree: Files, message: string) returns (outcome: Outcome)
      modifies this
      ensures (State(), outcome) == Commits(old(State()), tip, tree, message)
    {
      var parent := if tip.Some? then tip.value else main;
      if tree == parent.tree {
        if tip.None? {
          var ok := UpdateRef(parent, None);
          return if ok then Unchanged else Concurrent;
        }
        return Unchanged;
      }
      var commit := Child(parent, tree, message);
      var ok := UpdateRef(commit, tip);
      if ok {
        landed := landed + [commit];
      }
      outcome := if ok then Committed else Concurrent;
    }

    /** The submit after its files were read and its tip was: build, commit, report. */
    method Submit(baseline: Files, working: seq<Entry>, globs: seq<string>, tip: Option<Commit>, message: string)
      returns (rejected: seq<string>, frozen: Files, notSent: set<string>, outcome: Outcome)
      requires DistinctEntries(working)
      modifies this
      ensures (State(), outcome) == Commits(old(State()), tip, Constructed(baseline, working, globs), message)
      ensures rejected == NotAllowed(working, globs)
      ensures frozen == FrozenFiles(baseline, globs)
      ensures forall p :: p in notSent <==> p in baseline && MatchesAny(p, globs) && forall e :: e in working ==> e.path != p
    {
      var applied;
      applied, rejected := Overlay(working, globs);
      AllowedExactly(working, globs);
      frozen := FrozenFiles(baseline, globs);
      notSent := set p | p in baseline && MatchesAny(p, globs) && forall e :: e in working ==> e.path != p;
      outcome := CommitTreeIfChanged(tip, baseline + applied, message);
    }
  }
}
