/** Which ceilings may be asked about an entry's text, and concrete entries and ceilings on which
    asking is wrong. */
module Ceilings {
  import opened Wrappers
  import opened Globs

  // ---------------------------------------------------------------- which ceilings are safe

  function Width(ts: seq<Token>): nat {
    if ts == [] then 0 else (if ts[0].Star? then 0 else 1) + Width(ts[1..])
  }

  lemma {:induction false} NarrowIsNotMatched(s: string, ts: seq<Token>)
    requires |s| < Width(ts)
    ensures !MatchTokens(s, ts)
    decreases |s| + |ts|
  {
    if ts != [] && ts[0].Star? {
      NarrowIsNotMatched(s, ts[1..]);
      if s != "" {
        NarrowIsNotMatched(s[1..], ts);
      }
    } else if ts != [] && s != "" {
      NarrowIsNotMatched(s[1..], ts[1..]);
    }
  }

  /** `r` fills the pattern with its stars left empty. */
  predicate Fills(r: string, ts: seq<Token>)
    decreases |ts|
  {
    if ts == [] then r == ""
    else if ts[0].Star? then Fills(r, ts[1..])
    else r != "" && Accepts(ts[0], r[0]) && Fills(r[1..], ts[1..])
  }

  lemma {:induction false} FillingsMatch(r: string, ts: seq<Token>)
    requires Fills(r, ts)
    ensures MatchTokens(r, ts) && |r| == Width(ts)
    decreases |ts|
  {
    if ts != [] {
      FillingsMatch(if ts[0].Star? then r else r[1..], ts[1..]);
    }
  }

  /** What is just wide enough can only fill the pattern. */
  lemma {:induction false} NarrowestFills(s: string, ts: seq<Token>)
    requires MatchTokens(s, ts) && |s| == Width(ts)
    ensures Fills(s, ts)
    decreases |s| + |ts|
  {
    if ts != [] && ts[0].Star? {
      if !MatchTokens(s, ts[1..]) {
        NarrowIsNotMatched(s[1..], ts);
      }
      NarrowestFills(s, ts[1..]);
    } else if ts != [] {
      NarrowestFills(s[1..], ts[1..]);
    }
  }

  /** The place in a filling of the `k`-th piece, and what may stand there. */
  lemma {:induction false} FillingAt(r: string, ts: seq<Token>, k: nat, x: char)
    requires Fills(r, ts) && k < |ts| && !ts[k].Star?
    ensures Width(ts[..k]) < |r| && Accepts(ts[k], r[Width(ts[..k])])
    ensures Accepts(ts[k], x) ==> Fills(r[Width(ts[..k]) := x], ts)
    decreases k
  {
    var i := Width(ts[..k]);
    if k == 0 {
      assert r[0 := x][1..] == r[1..];
    } else {
      assert ts[..k][1..] == ts[1..][..k - 1];
      if ts[0].Star? {
        FillingAt(r, ts[1..], k - 1, x);
      } else {
        FillingAt(r[1..], ts[1..], k - 1, x);
        assert r[i := x][1..] == r[1..][i - 1 := x];
      }
    }
  }

  /** A piece that takes a wildcard for one of its own characters. */
  predicate Gullible(t: Token) {
    !t.Star? && (Accepts(t, '*') || Accepts(t, '?'))
  }

  function Core(ceiling: string): seq<Token> {
    Tokens(if AnyDepth(Lower(ceiling)) then Lower(ceiling)[3..] else Lower(ceiling))
  }

  /** An ordinary path the ceiling matches with its stars empty: no wildcard in it, and still a
      normal path when a character that stands for a gullible piece is left out. */
  ghost predicate Ordinary(r: string, ceiling: string) {
    && Fills(r, Core(ceiling)) && IsSpelling(r)
    && (forall i :: 0 <= i < |r| ==> r[i] != '*' && r[i] != '?' && r[i] != '[')
    && (forall k :: 0 <= k < |Core(ceiling)| && Gullible(Core(ceiling)[k]) ==> StaysNormal(r, Width(Core(ceiling)[..k])))
  }

  predicate StaysNormal(r: string, i: nat) {
    i < |r| && IsNormal(r[..i] + r[i + 1..])
  }

  lemma {:induction false} TokensConcat(a: string, b: string)
    requires Plain(a)
    ensures Tokens(a + b) == Tokens(a) + Tokens(b)
    decreases |a|
  {
    if a == "" {
      assert a + b == b;
    } else {
      assert (a + b)[1..] == a[1..] + b;
      TokensConcat(a[1..], b);
    }
  }

  lemma {:induction false} MatchConcat(s: string, ts: seq<Token>, t: string, us: seq<Token>)
    requires MatchTokens(s, ts) && MatchTokens(t, us)
    ensures MatchTokens(s + t, ts + us)
    decreases |s| + |ts|
  {
    if ts == [] {
      assert ts + us == us && s + t == t;
    } else {
      assert (ts + us)[1..] == ts[1..] + us && (ts + us)[0] == ts[0];
      if ts[0].Star? && MatchTokens(s, ts[1..]) {
        MatchConcat(s, ts[1..], t, us);
      } else {
        assert (s + t)[1..] == s[1..] + t;
        MatchConcat(s[1..], if ts[0].Star? then ts else ts[1..], t, us);
      }
    }
  }

  lemma PlainMatchesItself(p: string)
    requires Plain(p)
    ensures MatchTokens(p, Tokens(p))
  {
    PlainSpellsItself(p, p);
    SpellingsMatch(p, Tokens(p));
  }

  /** The entry `a*b` covers `ab`, and `a?b` covers `a*b`. */
  lemma WildcardInTheMiddle(a: string, b: string)
    requires Plain(a) && Plain(b)
    ensures MatchTokens(a + b, Tokens(a + "*" + b)) && MatchTokens(a + "*" + b, Tokens(a + "?" + b))
  {
    PlainMatchesItself(a);
    PlainMatchesItself(b);
    forall w, x | (w == "*" && x == "") || (w == "?" && x == "*") ensures MatchTokens(a + x + b, Tokens(a + w + b)) {
      assert w[1..] == "" && Tokens(w) == [if w == "*" then Star else AnyOne];
      assert x != "" ==> x[1..] == "";
      assert MatchTokens("", []) && MatchTokens(x, Tokens(w));
      TokensConcat(a, w);
      TokensConcat(a + w, b);
      MatchConcat(a, Tokens(a), x, Tokens(w));
      MatchConcat(a + x, Tokens(a + w), b, Tokens(b));
    }
    assert a + "" + b == a + b;
  }

  /** A filling with one gullible piece spelled by its wildcard is an entry the ceiling matches. */
  lemma GullibleCeilingMatches(ceiling: string, r: string, k: nat, w: char)
    requires Ordinary(r, ceiling) && k < |Core(ceiling)| && Gullible(Core(ceiling)[k])
    requires (w == '*' || w == '?') && Accepts(Core(ceiling)[k], w)
    ensures var i := Width(Core(ceiling)[..k]);
      && i < |r| && IsSpelling(r[i := w]) && Plain(r[i := w]) && !AnyDepth(r[i := w])
      && GlobMatches(r[i := w], ceiling)
  {
    var ts, i := Core(ceiling), Width(Core(ceiling)[..k]);
    FillingAt(r, ts, k, w);
    EntryIsOrdinary(r, i, w);
    FillingsMatch(r[i := w], ts);
    SpellingsStay(r[i := w]);
    assert Reading(ceiling, ts);
    MatchesAReading(r[i := w], ceiling);
  }

  /** The entry a gullible ceiling is deceived by, and a path that shows it. */
  lemma GullibleCeilingEscapes(ceiling: string, r: string, k: nat) returns (entry: string, path: string)
    requires Ordinary(r, ceiling) && k < |Core(ceiling)| && Gullible(Core(ceiling)[k])
    ensures Plain(entry) && !AnyDepth(Lower(entry)) && GlobMatches(entry, ceiling)
    ensures GlobMatches(path, entry) && !GlobMatches(path, ceiling)
  {
    var i, star := Width(Core(ceiling)[..k]), Accepts(Core(ceiling)[k], '*');
    var w := if star then '*' else '?';
    GullibleCeilingMatches(ceiling, r, k, w);
    FillingsMatch(r, Core(ceiling));
    entry := r[i := w];
    path := if star then r[..i] + r[i + 1..] else r[i := '*'];
    EntryCoversThePath(r, i, star);
    NotUnderTheCeiling(ceiling, path, k);
  }

  lemma EntryCoversThePath(r: string, i: nat, star: bool)
    requires IsSpelling(r) && i < |r| && (star ==> StaysNormal(r, i))
    requires forall j :: 0 <= j < |r| ==> r[j] != '*' && r[j] != '?' && r[j] != '['
    ensures var path := if star then r[..i] + r[i + 1..] else r[i := '*'];
      IsSpelling(path) && GlobMatches(path, r[i := if star then '*' else '?'])
  {
    var a, b, w := r[..i], r[i + 1..], if star then '*' else '?';
    WildcardInTheMiddle(a, b);
    EntryIsOrdinary(r, i, w);
    EntryIsOrdinary(r, i, '*');
    LowerOfParts(r, i);
    assert r[i := '*'] == a + "*" + b && r[i := '?'] == a + "?" + b;
    GlobOfSpelled(if star then a + b else r[i := '*'], r[i := w]);
  }

  lemma LowerOfParts(r: string, i: nat)
    requires Lower(r) == r && i < |r|
    ensures Lower(r[..i] + r[i + 1..]) == r[..i] + r[i + 1..]
  {
    var s := r[..i] + r[i + 1..];
    forall j | 0 <= j < |s| ensures LowerChar(s[j]) == s[j] {
      assert s[j] == r[if j < i then j else j + 1];
      assert Lower(r)[if j < i then j else j + 1] == s[j];
    }
  }

  lemma EntryIsOrdinary(r: string, i: nat, w: char)
    requires IsSpelling(r) && i < |r| && (w == '*' || w == '?')
    requires forall j :: 0 <= j < |r| ==> r[j] != '*' && r[j] != '?' && r[j] != '['
    ensures IsSpelling(r[i := w]) && Plain(r[i := w]) && !AnyDepth(r[i := w])
  {
    var e := r[i := w];
    forall j | 0 <= j < |e| ensures LowerChar(e[j]) == e[j] {
      assert j != i ==> Lower(r)[j] == r[j];
    }
    assert Lower(e) == e;
  }

  /** Too narrow for the ceiling, or just wide enough but with a character it does not take. */
  lemma NotUnderTheCeiling(ceiling: string, path: string, k: nat)
    requires IsSpelling(path) && k < |Core(ceiling)| && !Core(ceiling)[k].Star?
    requires |path| < Width(Core(ceiling)) ||
      (|path| == Width(Core(ceiling)) && Width(Core(ceiling)[..k]) < |path| && !Accepts(Core(ceiling)[k], path[Width(Core(ceiling)[..k])]))
    ensures !GlobMatches(path, ceiling)
  {
    var ts, deep := Core(ceiling), [Star, One('/')] + Core(ceiling);
    SpellingsStay(path);
    assert deep[1..] == [One('/')] + ts && deep[1..][1..] == ts && Width(deep) == 1 + Width(ts);
    NarrowIsNotMatched(path, deep);
    if MatchTokens(path, ts) {
      if |path| < Width(ts) {
        NarrowIsNotMatched(path, ts);
      } else {
        NarrowestFills(path, ts);
        FillingAt(path, ts, k, '*');
      }
    }
    MatchesAReading(path, ceiling);
  }

  ghost predicate HoldsForPlainEntries(ceiling: string) {
    forall e :: Plain(e) && !AnyDepth(Lower(e)) && GlobMatches(e, ceiling) ==> Under(e, [ceiling])
  }

  /** Asking a ceiling about plain entries as if they were paths is sound exactly when it is safe, of
      every ceiling that matches some ordinary path. */
  lemma CeilingIsSafeExactlyWhen(ceiling: string, r: string)
    requires Ordinary(r, ceiling)
    ensures HoldsForPlainEntries(ceiling) <==> Safe(ceiling)
  {
    if Safe(ceiling) {
      forall e | Plain(e) && !AnyDepth(Lower(e)) && GlobMatches(e, ceiling) ensures Under(e, [ceiling]) {
        PlainEntryIsBoundedExactly(e, [ceiling]);
        BoundedIsExact(e, [ceiling]);
      }
    } else {
      var k :| 0 <= k < |Core(ceiling)| && Gullible(Core(ceiling)[k]);
      var e, path := GullibleCeilingEscapes(ceiling, r, k);
      assert !MatchesAny(path, [ceiling]);
    }
  }

  /** The literals of a pattern, with an `x` for each `?`. */
  function Filled(ts: seq<Token>): string {
    if ts == [] then ""
    else
      (match ts[0] case Star => "" case One(c) => [c] case _ => "x") + Filled(ts[1..])
  }

  lemma {:induction false} FilledFills(p: string)
    requires Plain(p)
    ensures Fills(Filled(Tokens(p)), Tokens(p))
    decreases |p|
  {
    if p != "" {
      FilledFills(p[1..]);
      var ts := Tokens(p);
      PlainTokens(p);
      assert ts[1..] == Tokens(p[1..]);
      var front := match ts[0] case Star => "" case One(c) => [c] case _ => "x";
      assert Filled(ts) == front + Filled(ts[1..]);
      if ts[0].Star? {
        assert Filled(ts) == Filled(ts[1..]);
      } else {
        assert Filled(ts)[0] == front[0] && Filled(ts)[1..] == Filled(ts[1..]);
      }
    }
  }

  lemma {:induction false} FilledIsPlain(p: string)
    requires Plain(p)
    ensures forall i :: 0 <= i < |Filled(Tokens(p))| ==> Filled(Tokens(p))[i] != '*' && Filled(Tokens(p))[i] != '?' && Filled(Tokens(p))[i] != '['
    decreases |p|
  {
    if p != "" {
      FilledIsPlain(p[1..]);
      assert Tokens(p)[1..] == Tokens(p[1..]);
    }
  }

  lemma PlainIsSafeExactly(ceiling: string)
    requires Plain(ceiling)
    ensures Safe(ceiling) <==> StarOnly(ceiling)
  {
    var p := Lower(ceiling);
    var core := if AnyDepth(p) then p[3..] else p;
    PlainTokens(core);
    if StarOnly(ceiling) {
      StarOnlyIsSafe(ceiling);
    } else {
      var i :| 0 <= i < |ceiling| && ceiling[i] == '?';
      assert p[i] == '?';
      var j := if AnyDepth(p) then i - 3 else i;
      assert core[j] == '?' && Tokens(core)[j] == AnyOne;
    }
  }

  /** For a ceiling of literals, `*` and `?`, whose literals spell a normal path, also without any one
      of its question marks: it is sound if and only if it has none. */
  lemma QuestionMarksAreExactlyWhatFails(ceiling: string)
    requires Plain(ceiling) && IsSpelling(Filled(Core(ceiling)))
    requires forall k :: 0 <= k < |Core(ceiling)| && Core(ceiling)[k].AnyOne? ==> StaysNormal(Filled(Core(ceiling)), Width(Core(ceiling)[..k]))
    ensures HoldsForPlainEntries(ceiling) <==> StarOnly(ceiling)
  {
    var p := Lower(ceiling);
    var core := if AnyDepth(p) then p[3..] else p;
    PlainTokens(core);
    FilledFills(core);
    FilledIsPlain(core);
    CeilingIsSafeExactlyWhen(ceiling, Filled(Core(ceiling)));
    PlainIsSafeExactly(ceiling);
  }

  // ---------------------------------------------------------------- inputs on which the rule fails

  /** Matching one pattern without the prefix, when both sides are spelled in lower case. */
  lemma GlobOfSpelled(path: string, pattern: string)
    requires IsSpelling(path) && Lower(pattern) == pattern && !AnyDepth(pattern)
    ensures GlobMatches(path, pattern) <==> MatchTokens(path, Tokens(pattern))
  {
    SpellingsStay(path);
  }

  // The any-depth prefix: */a matches the entry **/a read as a path, yet the entry covers the path a,
  // which */a does not.
  lemma AnyDepthEntryEscapes()
    ensures GlobMatches("**/a", "*/a") && GlobMatches("a", "**/a") && !GlobMatches("a", "*/a")
  {
    var deep, c, a := "**/a", "*/a", "a";
    NormalSpellingIsKept(deep);
    NormalSpellingIsKept(a);
    assert Lower(deep) == deep && Lower(c) == c && Lower(a) == a;
    assert deep[3..] == a && c[1..] == "/a" && c[1..][1..] == a && a[1..] == "";
    assert Tokens("") == [] && Tokens(a) == [One('a')] && Tokens(c) == [Star, One('/'), One('a')];
    assert deep[1..][1..] == "/a" && deep[1..][1..][1..] == a;
    assert MatchTokens("", []) && MatchTokens(a, [One('a')]) && MatchTokens("/a", [One('/'), One('a')]);
    assert MatchTokens("/a", Tokens(c)) && MatchTokens("*/a", Tokens(c)) && MatchTokens(deep, Tokens(c));
    assert !MatchTokens(a, [One('/'), One('a')]) && !MatchTokens("", [One('/'), One('a')]);
    assert !MatchTokens("", Tokens(c)) && !MatchTokens(a, Tokens(c));
  }

  lemma TokensOfTheClass()
    ensures Tokens("[ab]") == [Class("ab")] && Tokens("*ab*") == [Star, One('a'), One('b'), Star]
  {
    var entry, c := "[ab]", "*ab*";
    assert entry[1..3] == "ab" && entry[4..] == "" && FindClose(entry, 3) == Some(3) && FindClose(entry, 2) == Some(3);
    assert ClassEnd(entry) == Some(3);
    PlainTokens(c);
  }

  lemma {:induction false} StarTakesAll(s: string)
    ensures MatchTokens(s, [Star])
    decreases |s|
  {
    if s != "" {
      StarTakesAll(s[1..]);
    }
  }

  lemma ClassTextIsMatched()
    ensures MatchTokens("[ab]", [Star, One('a'), One('b'), Star])
  {
    StarTakesAll("[");
    StarTakesAll("]");
    assert "ab"[1..] == "b" && "b"[1..] == "" && [One('a'), One('b')][1..] == [One('b')];
    assert MatchTokens("", []) && MatchTokens("b", [One('b')]) && MatchTokens("ab", [One('a'), One('b')]);
    MatchConcat("[", [Star], "ab", [One('a'), One('b')]);
    MatchConcat("[" + "ab", [Star] + [One('a'), One('b')], "]", [Star]);
    assert "[" + "ab" + "]" == "[ab]";
    assert [Star] + [One('a'), One('b')] + [Star] == [Star, One('a'), One('b'), Star];
  }

  // A character class: *ab* matches the text of the entry [ab], yet the entry covers the path a,
  // which *ab* does not.
  lemma ClassEntryEscapes()
    ensures GlobMatches("[ab]", "*ab*") && GlobMatches("a", "[ab]") && !GlobMatches("a", "*ab*")
  {
    var entry, c, a := "[ab]", "*ab*", "a";
    assert Lower(entry) == entry && Lower(c) == c && Lower(a) == a;
    TokensOfTheClass();
    ClassTextIsMatched();
    GlobOfSpelled(entry, c);
    GlobOfSpelled(a, entry);
    GlobOfSpelled(a, c);
    assert InClass("ab", 'a') && MatchTokens(a, [Class("ab")]);
    NarrowIsNotMatched(a, [Star, One('a'), One('b'), Star]);
  }

  // One such: the ceiling ? matches the entry * as a path, which covers ab.
  lemma QuestionMarkCeilingEscapes()
    ensures GlobMatches("*", "?") && GlobMatches("ab", "*") && !GlobMatches("ab", "?")
  {
    NormalSpellingIsKept("*");
    NormalSpellingIsKept("ab");
    assert Lower("*") == "*" && Lower("?") == "?" && Lower("ab") == "ab";
    assert "*"[1..] == "" && "?"[1..] == "" && "ab"[1..] == "b" && "b"[1..] == "";
    assert Tokens("*") == [Star] && Tokens("?") == [AnyOne];
    assert MatchTokens("", []) && MatchTokens("", [Star]) && MatchTokens("b", [Star]) && MatchTokens("ab", [Star]);
    assert MatchTokens("*", [AnyOne]) && !MatchTokens("b", []);
  }
}
