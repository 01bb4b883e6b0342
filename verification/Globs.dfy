/** Path normalization and the one glob rule everything matches by
    (equivalent/ledger/subjects.py).

    A path or a pattern is a string of characters; case is folded for the ASCII
    letters. Patterns are those of `fnmatch`: literals, `*`, `?` and `[...]`
    classes, ranges and negation included. */
module Globs {
  import opened Wrappers

  // ---------------------------------------------------------------- normalization

  function LowerChar(c: char): char {
    if 'A' <= c <= 'Z' then (c as int + 32) as char else c
  }

  function Lower(s: string): (r: string)
    ensures |r| == |s|
    ensures forall i :: 0 <= i < |s| ==> r[i] == LowerChar(s[i])
  {
    seq(|s|, i requires 0 <= i < |s| => LowerChar(s[i]))
  }

  /** Folding takes each capital letter to its small one and leaves everything else. */
  lemma LowerFolds(c: char)
    ensures LowerChar(LowerChar(c)) == LowerChar(c) && !('A' <= LowerChar(c) <= 'Z')
    ensures LowerChar(c) != c ==> 'A' <= c <= 'Z' && LowerChar(c) as int - 'a' as int == c as int - 'A' as int
  {
  }

  function Slashed(s: string): (r: string)
    ensures |r| == |s|
    ensures forall i :: 0 <= i < |s| ==> r[i] == if s[i] == '\\' then '/' else s[i]
  {
    seq(|s|, i requires 0 <= i < |s| => if s[i] == '\\' then '/' else s[i])
  }

  predicate DotSlash(s: string) {
    |s| >= 2 && s[0] == '.' && s[1] == '/'
  }

  function Stripped(s: string): string {
    if DotSlash(s) then Stripped(s[2..]) else s
  }

  function Normalize(path: string): string {
    Stripped(Slashed(path))
  }

  method NormalizePath(path: string) returns (r: string)
    ensures r == Normalize(path)
  {
    r := Slashed(path);
    while DotSlash(r)
      invariant Stripped(r) == Normalize(path)
      decreases |r|
    {
      r := r[2..];
    }
  }

  /** A spelling no reader would change. */
  predicate IsNormal(path: string) {
    !DotSlash(path) && forall i :: 0 <= i < |path| ==> path[i] != '\\'
  }

  lemma {:induction false} StrippedIsNormal(s: string)
    requires forall i :: 0 <= i < |s| ==> s[i] != '\\'
    ensures IsNormal(Stripped(s))
  {
    if DotSlash(s) {
      StrippedIsNormal(s[2..]);
    }
  }

  /** One respelling reaches the canonical path, and the canonical path stays put. */
  lemma NormalizeIsIdempotent(path: string)
    ensures IsNormal(Normalize(path))
    ensures Normalize(Normalize(path)) == Normalize(path)
  {
    StrippedIsNormal(Slashed(path));
    NormalSpellingIsKept(Normalize(path));
  }

  lemma NormalSpellingIsKept(path: string)
    requires IsNormal(path)
    ensures Normalize(path) == path
  {
    assert Slashed(path) == path;
  }

  /** Prefixing `./` any number of times, or writing backslashes, names the same path. */
  lemma RespellingsAgree(path: string)
    ensures Normalize("./" + path) == Normalize(path)
    ensures Normalize(Slashed(path)) == Normalize(path)
  {
    assert Slashed("./" + path) == "./" + Slashed(path);
    assert ("./" + Slashed(path))[2..] == Slashed(path);
    assert Slashed(Slashed(path)) == Slashed(path);
  }

  // ---------------------------------------------------------------- patterns

  /** One piece of a pattern; a class is kept as the text between its brackets. */
  datatype Token = Star | AnyOne | One(c: char) | Class(body: string)

  function FindClose(p: string, k: nat): (r: Option<nat>)
    ensures r.Some? ==> k <= r.value < |p| && p[r.value] == ']'
    decreases |p| - k
  {
    if k >= |p| then None else if p[k] == ']' then Some(k) else FindClose(p, k + 1)
  }

  /** Where the class that opens `p` closes: a `]` in front, or behind `!`, is one of its members. */
  function ClassEnd(p: string): (r: Option<nat>)
    ensures r.Some? ==> 1 < r.value < |p|
  {
    var k := if |p| > 1 && p[1] == '!' then 2 else 1;
    FindClose(p, if k < |p| && p[k] == ']' then k + 1 else k)
  }

  /** A bracket that is never closed is a literal. */
  function Tokens(p: string): seq<Token>
    decreases |p|
  {
    if p == "" then []
    else if p[0] == '*' then [Star] + Tokens(p[1..])
    else if p[0] == '?' then [AnyOne] + Tokens(p[1..])
    else if p[0] == '[' && ClassEnd(p).Some? then
      [Class(p[1..ClassEnd(p).value])] + Tokens(p[ClassEnd(p).value + 1..])
    else [One(p[0])] + Tokens(p[1..])
  }

  predicate RangeInFront(body: string) {
    |body| > 2 && body[1] == '-'
  }

  /** The members a class body lists: characters, and ranges from one to another. */
  predicate Lists(body: string, c: char)
    decreases |body|
  {
    body != "" &&
    if RangeInFront(body) then body[0] <= c <= body[2] || Lists(body[3..], c)
    else body[0] == c || Lists(body[1..], c)
  }

  /** Ranges that run backwards are dropped before the class is read. */
  function WithoutEmptyFront(body: string): string
    decreases |body|
  {
    if RangeInFront(body) && body[0] > body[2] then WithoutEmptyFront(body[3..]) else body
  }

  /** Membership in a class. A `!` negates it in front, and so does one that comes to stand in front
      once empty ranges are dropped; of a range from `!` the two ends alone remain. */
  predicate InClass(body: string, c: char) {
    var rest := WithoutEmptyFront(body);
    if body != "" && body[0] == '!' then !Lists(body[1..], c)
    else if rest == "" || rest[0] != '!' then Lists(rest, c)
    else if RangeInFront(rest) then !(c == '-' || c == rest[2] || Lists(rest[3..], c))
    else !Lists(rest[1..], c)
  }

  lemma {:induction false} FindCloseExactly(p: string, k: nat, n: nat)
    ensures FindClose(p, k) == Some(n) <==> k <= n < |p| && p[n] == ']' && forall i :: k <= i < n ==> p[i] != ']'
    decreases |p| - k
  {
    if k < |p| && p[k] != ']' {
      FindCloseExactly(p, k + 1, n);
    }
  }

  /** A class ends at the first bracket that does not stand in its first place, which is behind the `!`
      that negates it. */
  lemma ClassEndExactly(p: string, n: nat)
    ensures ClassEnd(p) == Some(n) <==>
      var second := if |p| > 1 && p[1] == '!' then 3 else 2;
      second <= n < |p| && p[n] == ']' && forall i :: second <= i < n ==> p[i] != ']'
  {
    var k := if |p| > 1 && p[1] == '!' then 2 else 1;
    FindCloseExactly(p, k, n);
    FindCloseExactly(p, k + 1, n);
  }

  lemma {:induction false} ListsPlainly(body: string, c: char)
    requires forall i :: 0 <= i < |body| ==> body[i] != '-'
    ensures Lists(body, c) <==> c in body
    decreases |body|
  {
    if body != "" {
      ListsPlainly(body[1..], c);
      assert body == [body[0]] + body[1..];
    }
  }

  lemma {:induction false} EmptyRangesListNothing(body: string, c: char)
    ensures Lists(WithoutEmptyFront(body), c) <==> Lists(body, c)
    decreases |body|
  {
    if RangeInFront(body) && body[0] > body[2] {
      EmptyRangesListNothing(body[3..], c);
    }
  }

  predicate StartsWithBang(body: string) {
    body != "" && body[0] == '!'
  }

  /** A class of characters holds those, one of a range what lies between its ends, and a `!` in front of
      any other takes the rest. */
  lemma ClassesRead(body: string, a: char, b: char, c: char)
    ensures body != "" && body[0] != '!' && (forall i :: 0 <= i < |body| ==> body[i] != '-') ==>
      (InClass(body, c) <==> c in body)
    ensures a != '!' ==> (InClass([a, '-', b], c) <==> a <= c <= b)
    ensures !StartsWithBang(body) && !StartsWithBang(WithoutEmptyFront(body)) ==>
      (InClass("!" + body, c) <==> !InClass(body, c))
  {
    EmptyRangesListNothing(body, c);
    assert ("!" + body)[1..] == body;
    if forall i :: 0 <= i < |body| ==> body[i] != '-' {
      ListsPlainly(body, c);
    }
    if a != '!' {
      RangeReads(a, b, c);
    }
  }

  lemma RangeReads(a: char, b: char, c: char)
    requires a != '!'
    ensures InClass([a, '-', b], c) <==> a <= c <= b
  {
    var body := [a, '-', b];
    EmptyRangesListNothing(body, c);
    assert body[3..] == "" && !Lists("", c);
    assert Lists(body, c) <==> a <= c <= b;
  }

  predicate Accepts(t: Token, c: char) {
    match t
    case Star => true
    case AnyOne => true
    case One(x) => c == x
    case Class(body) => InClass(body, c)
  }

  /** The whole of `s` against the whole pattern. */
  predicate MatchTokens(s: string, ts: seq<Token>)
    decreases |s| + |ts|
  {
    if ts == [] then s == ""
    else if ts[0].Star? then MatchTokens(s, ts[1..]) || (s != "" && MatchTokens(s[1..], ts))
    else s != "" && Accepts(ts[0], s[0]) && MatchTokens(s[1..], ts[1..])
  }

  predicate Match(s: string, p: string) {
    MatchTokens(s, Tokens(p))
  }

  predicate AnyDepth(pattern: string) {
    |pattern| >= 3 && pattern[0] == '*' && pattern[1] == '*' && pattern[2] == '/'
  }

  predicate GlobMatches(path: string, pattern: string) {
    var lowered := Lower(Normalize(path));
    var p := Lower(pattern);
    if AnyDepth(p) then Match(lowered, p[3..]) || Match(lowered, "*/" + p[3..])
    else Match(lowered, p)
  }

  predicate MatchesAny(path: string, globs: seq<string>) {
    exists g :: g in globs && GlobMatches(path, g)
  }

  /** No character classes. */
  predicate Plain(p: string) {
    forall i :: 0 <= i < |p| ==> p[i] != '['
  }

  /** Literals and `*` only. */
  predicate StarOnly(p: string) {
    Plain(p) && forall i :: 0 <= i < |p| ==> p[i] != '?'
  }

  // ---------------------------------------------------------------- a pattern and its readings

  /** A pattern without the any-depth prefix has one reading; with it, the rest alone and the rest
      under some directory. */
  ghost predicate Reading(pattern: string, ts: seq<Token>) {
    if AnyDepth(Lower(pattern)) then
      ts == Tokens(Lower(pattern)[3..]) || ts == [Star, One('/')] + Tokens(Lower(pattern)[3..])
    else ts == Tokens(Lower(pattern))
  }

  lemma SlashInFront(rest: string)
    ensures Tokens("*/" + rest) == [Star, One('/')] + Tokens(rest)
  {
    var p := "*/" + rest;
    assert p[1..] == "/" + rest && p[1..][1..] == rest;
    assert [Star] + ([One('/')] + Tokens(rest)) == [Star, One('/')] + Tokens(rest);
  }

  lemma MatchesAReading(path: string, pattern: string)
    ensures GlobMatches(path, pattern) <==> exists ts :: Reading(pattern, ts) && MatchTokens(Lower(Normalize(path)), ts)
  {
    var p := Lower(pattern);
    if AnyDepth(p) {
      SlashInFront(p[3..]);
      assert Reading(pattern, Tokens(p[3..])) && Reading(pattern, [Star, One('/')] + Tokens(p[3..]));
    } else {
      assert Reading(pattern, Tokens(p));
    }
  }

  /** Spelled the way readers compare paths: lower case, no backslash, no `./` in front. */
  predicate IsSpelling(s: string) {
    IsNormal(s) && Lower(s) == s
  }

  lemma SpellingsStay(s: string)
    requires IsSpelling(s)
    ensures Lower(Normalize(s)) == s
  {
    NormalSpellingIsKept(s);
  }

  lemma PathsAreSpelled(path: string)
    ensures IsSpelling(Lower(Normalize(path)))
  {
    NormalizeIsIdempotent(path);
    var s, n := Lower(Normalize(path)), Normalize(path);
    assert forall i :: 0 <= i < |s| ==> (s[i] == '.' <==> n[i] == '.') && (s[i] == '/' <==> n[i] == '/');
    assert Lower(s) == s;
  }

  // ---------------------------------------------------------------- one spelling of a pattern

  /** `r` writes the pattern out with each class replaced by one of its members. */
  predicate Spells(r: string, ts: seq<Token>) {
    && |r| == |ts|
    && forall i :: 0 <= i < |r| ==>
         match ts[i]
         case Star => r[i] == '*'
         case AnyOne => r[i] == '?'
         case One(c) => r[i] == c
         case Class(body) => InClass(body, r[i])
  }

  /** `s` against the pattern with its classes fixed to the members in `r`. */
  predicate MatchSpelled(s: string, r: string, ts: seq<Token>)
    requires |r| == |ts|
    decreases |s| + |ts|
  {
    if ts == [] then s == ""
    else if ts[0].Star? then MatchSpelled(s, r[1..], ts[1..]) || (s != "" && MatchSpelled(s[1..], r, ts))
    else s != "" && (ts[0].AnyOne? || s[0] == r[0]) && MatchSpelled(s[1..], r[1..], ts[1..])
  }

  /** Whatever matches a pattern matches one of its spellings, made of its own characters. */
  lemma {:induction false} SomeSpelling(s: string, ts: seq<Token>) returns (r: string)
    requires MatchTokens(s, ts)
    ensures Spells(r, ts) && MatchSpelled(s, r, ts)
    decreases |s| + |ts|
  {
    if ts == [] {
      r := "";
    } else if ts[0].Star? && MatchTokens(s, ts[1..]) {
      var rest := SomeSpelling(s, ts[1..]);
      r := ['*'] + rest;
    } else if ts[0].Star? {
      r := SomeSpelling(s[1..], ts);
    } else {
      var rest := SomeSpelling(s[1..], ts[1..]);
      r := [if ts[0].AnyOne? then '?' else s[0]] + rest;
    }
  }

  /** A character of a spelling that is no wildcard is one of what matches it. */
  lemma {:induction false} SpelledAppear(s: string, r: string, ts: seq<Token>, i: nat)
    requires Spells(r, ts) && MatchSpelled(s, r, ts) && i < |r| && r[i] != '*' && r[i] != '?'
    ensures exists k :: 0 <= k < |s| && s[k] == r[i]
    decreases |s| + |ts|
  {
    if ts[0].Star? && MatchSpelled(s, r[1..], ts[1..]) {
      SpelledAppear(s, r[1..], ts[1..], i - 1);
    } else if ts[0].Star? {
      SpelledAppear(s[1..], r, ts, i);
      var k :| 0 <= k < |s[1..]| && s[1..][k] == r[i];
      assert s[k + 1] == r[i];
    } else if i == 0 {
      assert s[0] == r[0];
    } else {
      SpelledAppear(s[1..], r[1..], ts[1..], i - 1);
      var k :| 0 <= k < |s[1..]| && s[1..][k] == r[1..][i - 1];
      assert s[k + 1] == r[i];
    }
  }

  /** So the spelling is itself a spelling of a path. */
  lemma SpellingOfAPath(s: string, r: string, ts: seq<Token>)
    requires Spells(r, ts) && MatchSpelled(s, r, ts) && IsSpelling(s)
    ensures IsSpelling(r)
  {
    forall i | 0 <= i < |r| ensures r[i] != '\\' && LowerChar(r[i]) == r[i] {
      if r[i] != '*' && r[i] != '?' {
        SpelledAppear(s, r, ts, i);
        var k :| 0 <= k < |s| && s[k] == r[i];
        assert Lower(s)[k] == s[k];
      }
    }
    assert Lower(r) == r;
    if DotSlash(r) {
      LeadingSpelled(s, r, ts);
    }
  }

  lemma LeadingSpelled(s: string, r: string, ts: seq<Token>)
    requires |r| >= 2 && Spells(r, ts) && MatchSpelled(s, r, ts)
    requires forall i :: 0 <= i < 2 ==> r[i] != '*' && r[i] != '?'
    ensures |s| >= 2 && s[0] == r[0] && s[1] == r[1]
  {
    assert MatchSpelled(s[1..], r[1..], ts[1..]);
  }

  /** Every spelling, read as a path, is matched by its pattern. */
  lemma {:induction false} SpellingsMatch(r: string, ts: seq<Token>)
    requires Spells(r, ts)
    ensures MatchTokens(r, ts)
    decreases |ts|
  {
    if ts != [] {
      SpellingsMatch(r[1..], ts[1..]);
      if ts[0].Star? {
        assert MatchTokens(r[1..], ts);
      }
    }
  }

  // ---------------------------------------------------------------- inclusion

  /** A pattern that takes no wildcard of another for one of its own characters. */
  predicate Blind(ts: seq<Token>) {
    forall i :: 0 <= i < |ts| && !ts[i].Star? ==> !Accepts(ts[i], '*') && !Accepts(ts[i], '?')
  }

  /** Reading one spelling as a string loses nothing under such a pattern: what the spelling matches
      there, anything matching the spelling matches. */
  lemma {:induction false} MatchIsTransitive(s: string, r: string, ts: seq<Token>, cs: seq<Token>)
    requires Blind(cs) && Spells(r, ts)
    requires MatchSpelled(s, r, ts) && MatchTokens(r, cs)
    ensures MatchTokens(s, cs)
    decreases |s| + |r| + |cs|
  {
    if cs == [] {
    } else if cs[0].Star? {
      if MatchTokens(r, cs[1..]) {
        MatchIsTransitive(s, r, ts, cs[1..]);
      } else if ts[0].Star? {
        if MatchSpelled(s, r[1..], ts[1..]) {
          MatchIsTransitive(s, r[1..], ts[1..], cs);
        } else {
          MatchIsTransitive(s[1..], r, ts, cs);
        }
      } else {
        MatchIsTransitive(s[1..], r[1..], ts[1..], cs);
      }
    } else {
      MatchIsTransitive(s[1..], r[1..], ts[1..], cs[1..]);
    }
  }

  /** A ceiling the entries of an allow-list may be asked of as if they were paths. */
  predicate Safe(ceiling: string) {
    Blind(Tokens(if AnyDepth(Lower(ceiling)) then Lower(ceiling)[3..] else Lower(ceiling)))
  }

  lemma {:induction false} StarsAndLiteralsAreBlind(p: string)
    requires StarOnly(p)
    ensures Blind(Tokens(p))
    decreases |p|
  {
    if p != "" {
      StarsAndLiteralsAreBlind(p[1..]);
    }
  }

  lemma StarOnlyIsSafe(ceiling: string)
    requires StarOnly(ceiling)
    ensures Safe(ceiling)
  {
    var p := Lower(ceiling);
    StarsAndLiteralsAreBlind(if AnyDepth(p) then p[3..] else p);
  }

  lemma ReadingsAreBlind(ceiling: string, cs: seq<Token>)
    requires Safe(ceiling) && Reading(ceiling, cs)
    ensures Blind(cs)
  {
  }

  /** `r` is one way of reading the entry as a path. */
  ghost predicate SpellsEntry(r: string, entry: string) {
    IsSpelling(r) && exists ts :: Reading(entry, ts) && Spells(r, ts)
  }

  /** The ceiling matches every spelling of the entry: the test the rules make of the entry's own
      text, made of each way its classes and its prefix can be read. */
  ghost predicate Bounded(entry: string, ceiling: seq<string>) {
    forall r :: SpellsEntry(r, entry) ==> MatchesAny(r, ceiling)
  }

  /** Whether every path the entry covers is under some pattern of the ceiling. */
  ghost predicate Under(entry: string, ceiling: seq<string>) {
    forall path: string :: GlobMatches(path, entry) ==> MatchesAny(path, ceiling)
  }

  lemma SpellingCovers(path: string, r: string, ts: seq<Token>, ceiling: string)
    requires Safe(ceiling) && Spells(r, ts) && MatchSpelled(Lower(Normalize(path)), r, ts)
    requires IsSpelling(r) && GlobMatches(r, ceiling)
    ensures GlobMatches(path, ceiling)
  {
    SpellingsStay(r);
    MatchesAReading(r, ceiling);
    var cs :| Reading(ceiling, cs) && MatchTokens(r, cs);
    ReadingsAreBlind(ceiling, cs);
    MatchIsTransitive(Lower(Normalize(path)), r, ts, cs);
    MatchesAReading(path, ceiling);
  }

  lemma CoveredBySomeSpelling(path: string, entry: string) returns (r: string, ts: seq<Token>)
    requires GlobMatches(path, entry)
    ensures Reading(entry, ts) && Spells(r, ts) && MatchSpelled(Lower(Normalize(path)), r, ts)
    ensures SpellsEntry(r, entry)
  {
    MatchesAReading(path, entry);
    ts :| Reading(entry, ts) && MatchTokens(Lower(Normalize(path)), ts);
    r := SomeSpelling(Lower(Normalize(path)), ts);
    PathsAreSpelled(path);
    SpellingOfAPath(Lower(Normalize(path)), r, ts);
  }

  /** The ceiling theorem, for every entry that can be written, classes included: under a safe
      ceiling the entry covers nothing the ceiling does not if and only if it is bounded. */
  lemma BoundedIsExact(entry: string, ceiling: seq<string>)
    requires forall c :: c in ceiling ==> Safe(c)
    ensures Bounded(entry, ceiling) <==> Under(entry, ceiling)
  {
    if Bounded(entry, ceiling) {
      forall path: string | GlobMatches(path, entry) ensures MatchesAny(path, ceiling) {
        var r, ts := CoveredBySomeSpelling(path, entry);
        var c :| c in ceiling && GlobMatches(r, c);
        SpellingCovers(path, r, ts, c);
      }
    }
    if Under(entry, ceiling) {
      forall r | SpellsEntry(r, entry) ensures MatchesAny(r, ceiling) {
        EntryCoversItsSpellings(r, entry);
      }
    }
  }

  lemma EntryCoversItsSpellings(r: string, entry: string)
    requires SpellsEntry(r, entry)
    ensures GlobMatches(r, entry)
  {
    var ts :| Reading(entry, ts) && Spells(r, ts);
    SpellingsMatch(r, ts);
    SpellingsStay(r);
    MatchesAReading(r, entry);
  }

  // ---------------------------------------------------------------- entries without classes

  lemma {:induction false} PlainTokens(p: string)
    requires Plain(p)
    ensures |Tokens(p)| == |p|
    ensures forall i :: 0 <= i < |p| ==>
      Tokens(p)[i] == if p[i] == '*' then Star else if p[i] == '?' then AnyOne else One(p[i])
    decreases |p|
  {
    if p != "" {
      PlainTokens(p[1..]);
    }
  }

  lemma PlainSpellsItself(p: string, r: string)
    requires Plain(p)
    ensures Spells(r, Tokens(p)) <==> r == p
  {
    PlainTokens(p);
  }

  lemma LoweredPrefix(entry: string)
    requires AnyDepth(Lower(entry))
    ensures Lower(entry[3..]) == Lower(entry)[3..]
    ensures entry[0] == '*' && entry[1] == '*' && entry[2] == '/' && entry == "**/" + entry[3..]
    ensures IsNormal(entry) <==> forall i :: 0 <= i < |entry[3..]| ==> entry[3..][i] != '\\'
  {
    assert forall i :: 0 <= i < |entry[3..]| ==> entry[3..][i] == entry[i + 3];
    assert entry[0] == '*' && entry[1] == '*' && entry[2] == '/';
    assert forall i :: 3 <= i < |entry| ==> entry[i] == entry[3..][i - 3];
  }

  lemma LoweringKeepsNormal(s: string)
    ensures IsSpelling(Lower(s)) <==> IsNormal(s)
    ensures IsNormal(s) ==> Lower(Normalize(Lower(s))) == Lower(Normalize(s))
  {
    var l := Lower(s);
    assert forall i :: 0 <= i < |s| ==> (l[i] == '.' <==> s[i] == '.') && (l[i] == '/' <==> s[i] == '/') && (l[i] == '\\' <==> s[i] == '\\');
    assert Lower(l) == l;
    if IsNormal(s) {
      NormalSpellingIsKept(s);
      NormalSpellingIsKept(l);
    }
  }

  lemma SameTest(s: string, ceiling: seq<string>)
    requires IsNormal(s)
    ensures MatchesAny(Lower(s), ceiling) <==> MatchesAny(s, ceiling)
  {
    LoweringKeepsNormal(s);
  }

  /** One star in front of a directory, or two: a safe ceiling cannot tell. */
  lemma DeepEntriesAreUnder(rest: string, ceiling: string)
    requires Safe(ceiling) && IsSpelling("*/" + rest) && IsSpelling("**/" + rest) && Plain(rest)
    ensures GlobMatches("*/" + rest, ceiling) <==> GlobMatches("**/" + rest, ceiling)
  {
    var one, two := "*/" + rest, "**/" + rest;
    SpellingsStay(one);
    SpellingsStay(two);
    assert two[1..] == one;
    PlainSpellsItself(one, one);
    PlainSpellsItself(two, two);
    SpellingsMatch(one, Tokens(one));
    assert Tokens(two) == [Star] + Tokens(one);
    assert MatchTokens(one, Tokens(two));
    assert Tokens(one)[0] == Star && MatchTokens(two, Tokens(one));
    PlainMatchIsSpelled(one, two);
    PlainMatchIsSpelled(two, one);
    assert Lower(Normalize(one)) == one && Lower(Normalize(two)) == two;
    if GlobMatches(two, ceiling) {
      SpellingCovers(one, two, Tokens(two), ceiling);
    }
    if GlobMatches(one, ceiling) {
      SpellingCovers(two, one, Tokens(one), ceiling);
    }
  }

  lemma PlainMatchIsSpelled(s: string, p: string)
    requires Plain(p) && MatchTokens(s, Tokens(p))
    ensures |Tokens(p)| == |p| && MatchSpelled(s, p, Tokens(p))
  {
    PlainTokens(p);
    var r := SomeSpelling(s, Tokens(p));
    PlainSpellsItself(p, r);
  }

  /** For an entry without classes the exact condition is two questions, both of the kind the rules
      already ask: is the entry, and without an any-depth prefix its rest, matched as a path. */
  lemma PlainEntryIsBoundedExactly(entry: string, ceiling: seq<string>)
    requires Plain(entry) && forall c :: c in ceiling ==> Safe(c)
    ensures Bounded(entry, ceiling) <==>
      && (IsNormal(entry) ==> MatchesAny(entry, ceiling))
      && (AnyDepth(Lower(entry)) && IsNormal(entry[3..]) ==> MatchesAny(entry[3..], ceiling))
  {
    if AnyDepth(Lower(entry)) {
      DeepEntrySpellings(entry, ceiling);
    } else {
      forall r ensures SpellsEntry(r, entry) <==> (r == Lower(entry) && IsNormal(entry)) {
        PlainSpellsItself(Lower(entry), r);
        LoweringKeepsNormal(entry);
        assert Reading(entry, Tokens(Lower(entry)));
      }
      if IsNormal(entry) {
        SameTest(entry, ceiling);
        assert SpellsEntry(Lower(entry), entry);
      }
    }
  }

  lemma LowerOfTwo(a: string, b: string)
    ensures Lower(a + b) == Lower(a) + Lower(b)
  {
    forall i | 0 <= i < |a + b| ensures Lower(a + b)[i] == (Lower(a) + Lower(b))[i] {
      assert (a + b)[i] == if i < |a| then a[i] else b[i - |a|];
    }
  }

  lemma StarredIsNormal(rest: string)
    ensures IsNormal("*/" + rest) <==> forall i :: 0 <= i < |rest| ==> rest[i] != '\\'
  {
    var one := "*/" + rest;
    forall i | 0 <= i < |one| ensures one[i] == if i == 0 then '*' else if i == 1 then '/' else rest[i - 2] {
    }
    if IsNormal(one) {
      forall i | 0 <= i < |rest| ensures rest[i] != '\\' {
        assert one[i + 2] == rest[i];
      }
    }
  }

  lemma LowerOfDeep(rest: string)
    ensures Lower("*/" + rest) == "*/" + Lower(rest) && Lower("**/" + rest) == "**/" + Lower(rest)
  {
    LowerOfTwo("*/", rest);
    LowerOfTwo("**/", rest);
    assert Lower("*/") == "*/" && Lower("**/") == "**/";
  }

  lemma DeepNormal(entry: string)
    requires AnyDepth(Lower(entry))
    ensures Lower("*/" + entry[3..]) == "*/" + Lower(entry)[3..] && Lower(entry) == "**/" + Lower(entry)[3..]
    ensures IsNormal("*/" + entry[3..]) <==> IsNormal(entry)
  {
    LoweredPrefix(entry);
    LowerOfDeep(entry[3..]);
    StarredIsNormal(entry[3..]);
  }

  /** An entry with the prefix has two spellings, as far as they spell paths. */
  lemma DeepSpellings(entry: string, r: string)
    requires AnyDepth(Lower(entry)) && Plain(entry)
    ensures SpellsEntry(r, entry) <==>
      || (r == Lower(entry)[3..] && IsNormal(entry[3..]))
      || (r == "*/" + Lower(entry)[3..] && IsNormal(entry))
  {
    var rest := Lower(entry)[3..];
    LoweredPrefix(entry);
    DeepNormal(entry);
    LoweringKeepsNormal(entry[3..]);
    LoweringKeepsNormal("*/" + entry[3..]);
    SlashInFront(rest);
    PlainSpellsItself(rest, r);
    PlainSpellsItself("*/" + rest, r);
    assert Reading(entry, Tokens(rest)) && Reading(entry, Tokens("*/" + rest));
  }

  lemma DeepEntrySpellings(entry: string, ceiling: seq<string>)
    requires AnyDepth(Lower(entry)) && Plain(entry) && forall c :: c in ceiling ==> Safe(c)
    ensures Bounded(entry, ceiling) <==>
      && (IsNormal(entry) ==> MatchesAny(entry, ceiling))
      && (IsNormal(entry[3..]) ==> MatchesAny(entry[3..], ceiling))
  {
    var rest := Lower(entry)[3..];
    forall r ensures SpellsEntry(r, entry) <==>
      || (r == rest && IsNormal(entry[3..])) || (r == "*/" + rest && IsNormal(entry))
    {
      DeepSpellings(entry, r);
    }
    if IsNormal(entry) {
      assert SpellsEntry("*/" + rest, entry);
      DeepTest(entry, ceiling);
    }
    if IsNormal(entry[3..]) {
      assert SpellsEntry(rest, entry);
      LoweredPrefix(entry);
      SameTest(entry[3..], ceiling);
    }
  }

  lemma DeepTest(entry: string, ceiling: seq<string>)
    requires AnyDepth(Lower(entry)) && Plain(entry) && IsNormal(entry) && forall c :: c in ceiling ==> Safe(c)
    ensures MatchesAny("*/" + Lower(entry)[3..], ceiling) <==> MatchesAny(entry, ceiling)
  {
    var rest := Lower(entry)[3..];
    DeepNormal(entry);
    LoweringKeepsNormal(entry);
    LoweringKeepsNormal("*/" + entry[3..]);
    SameTest(entry, ceiling);
    forall c | c in ceiling ensures GlobMatches("*/" + rest, c) <==> GlobMatches("**/" + rest, c) {
      DeepEntriesAreUnder(rest, c);
    }
  }

  /** So for the entries literals and stars make, with no any-depth prefix, the rule as it stands is
      exact: the ceiling matches the entry as a path if and only if it covers all the entry does. */
  lemma CeilingTestIsExact(entry: string, ceiling: seq<string>)
    requires Plain(entry) && IsNormal(entry) && !AnyDepth(Lower(entry))
    requires forall c :: c in ceiling ==> Safe(c)
    ensures MatchesAny(entry, ceiling) <==> Under(entry, ceiling)
  {
    PlainEntryIsBoundedExactly(entry, ceiling);
    BoundedIsExact(entry, ceiling);
  }
}
