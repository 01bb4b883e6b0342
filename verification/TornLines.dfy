/** What a writer leaves behind that dies with its line half written: the lock is free again, and the
    next line lands on the torn one. */
module TornLines {
  import opened Wrappers
  import opened Json
  import opened LedgerFile
  import opened LedgerStore

  // ---------------------------------------------------------------- an object read from inside a string

  lemma {:induction false} NothingMends(s: Scan, text: string)
    requires s.mode == Broken
    ensures Run(s, text) == s
    decreases |text|
  {
    if text != "" {
      NothingMends(s, text[1..]);
    }
  }

  predicate InOrBroken(s: Scan) { s.mode == InString || s.mode == Broken }

  predicate OutOrBroken(s: Scan) { s.mode == Outside || s.mode == Broken }

  lemma {:induction false} PlainStaysInside(s: Scan, text: string)
    requires InOrBroken(s) && forall i :: 0 <= i < |text| ==> !Structural(text[i])
    ensures InOrBroken(Run(s, text))
    decreases |text|
  {
    if text != "" {
      PlainStaysInside(Step(s, text[0]), text[1..]);
    }
  }

  /** What is a string's body to the writer is outside any string here, and an escape breaks it. */
  lemma {:induction false} UnitsStayOutside(s: Scan, body: seq<Unit>)
    requires OutOrBroken(s) && Valid(Quoted(body))
    ensures OutOrBroken(Run(s, UnitsText(body)))
    decreases |body|
  {
    if body != [] {
      var head := UnitText(body[0]);
      assert body[0] in body && Valid(Quoted(body[1..]));
      RunConcat(s, head, UnitsText(body[1..]));
      UnitStaysOutside(s, body[0]);
      UnitsStayOutside(Run(s, head), body[1..]);
    }
  }

  lemma UnitStaysOutside(s: Scan, u: Unit)
    requires OutOrBroken(s) && (u.Bare? ==> u.c != '"' && u.c != '\\')
    ensures OutOrBroken(Run(s, UnitText(u)))
  {
    assert UnitText(u)[1..] == if u.Bare? then "" else [u.c];
    if u.Escaped? {
      NothingMends(Step(s, '\\'), [u.c]);
    }
  }

  /** So a value read from inside a string ends inside one, or broke off. */
  lemma {:induction false} ValueEndsInside(s: Scan, v: Value)
    requires InOrBroken(s) && Valid(v)
    ensures InOrBroken(Run(s, Text(v)))
    decreases v
  {
    match v
    case Literal(text) => PlainStaysInside(s, text);
    case Quoted(body) =>
      RunBracketed(s, '"', UnitsText(body), '"');
      UnitsStayOutside(Step(s, '"'), body);
    case Array(items) =>
      RunBracketed(s, '[', BodyText(items), ']');
      BodyEndsInside(Step(s, '['), items);
    case Object(members) =>
      RunBracketed(s, '{', BodyText(members), '}');
      BodyEndsInside(Step(s, '{'), members);
  }

  lemma {:induction false} BodyEndsInside(s: Scan, b: Body)
    requires InOrBroken(s) && ValidBody(b)
    ensures InOrBroken(Run(s, BodyText(b)))
    decreases b
  {
    match b
    case End =>
    case Between(c, rest) =>
      assert ([c] + BodyText(rest))[1..] == BodyText(rest);
      BodyEndsInside(Step(s, c), rest);
    case Holding(v, tail) =>
      RunConcat(s, Text(v), BodyText(tail));
      ValueEndsInside(s, v);
      BodyEndsInside(Run(s, Text(v)), tail);
  }

  lemma ObjectEndsInside(s: Scan, w: Value)
    requires s.mode != Outside && Valid(w) && w.Object?
    ensures InOrBroken(Run(s, Text(w)))
  {
    RunBracketed(s, '{', BodyText(w.members), '}');
    BodyEndsInside(Step(s, '{'), w.members);
  }

  // ---------------------------------------------------------------- no torn object and another make a text

  /** The value a text holds is the object the text begins with. */
  lemma ObjectsAreNotPrefixes(u: Value, v: Value)
    requires Valid(u) && u.Object? && Valid(v) && v.Object? && Text(u) <= Text(v)
    ensures Text(u) == Text(v)
  {
    RunValue(0, u);
    ValueStaysUp(0, v, |Text(u)|);
    assert Text(v)[..|Text(u)|] == Text(u);
  }

  lemma BracesMeanAnObject(v: Value)
    requires Valid(v) && Text(v) != "" && Text(v)[0] == '{'
    ensures v.Object?
  {
  }

  lemma ValuesAreWritten(v: Value)
    requires Valid(v)
    ensures Text(v) != ""
  {
  }

  lemma SameFront(a: string, x: string, b: string, y: string)
    requires a + x == b + y && |a| == |b|
    ensures x == y
  {
    assert (a + x)[|a|..] == x && (b + y)[|b|..] == y;
  }

  lemma ObjectsStart(v: Value)
    requires v.Object?
    ensures Text(v) != "" && Text(v)[0] == '{' && !Neutral(Text(v)[0]) && !AllNeutral(Text(v))
  {
  }

  lemma FrontIsNeutral(before: string, rest: string)
    requires AllNeutral(before)
    ensures before != "" ==> Neutral((before + rest)[0])
  {
  }

  lemma NothingInFront(before: string, x: string, after: string, s: string)
    requires AllNeutral(before) && before + x + after == s && s != "" && !Neutral(s[0])
    ensures s == x + after
  {
    FrontIsNeutral(before, x + after);
    assert before + x + after == before + (x + after);
    assert before == "";
  }

  /** The first of two objects is all the value there is. */
  lemma WhatIsBehind(v: Value, w: Value, before: string, u: Value, after: string)
    requires Valid(v) && v.Object? && Surrounds(Text(v) + Text(w), before, u, after)
    ensures after == Text(w)
  {
    var s := Text(v) + Text(w);
    ObjectsStart(v);
    assert s[0] == Text(v)[0];
    NothingInFront(before, Text(u), after, s);
    ValuesAreWritten(u);
    assert Text(u)[0] == s[0];
    BracesMeanAnObject(u);
    SameObject(u, v, s);
    SameFront(Text(u), after, Text(v), Text(w));
  }

  lemma TwoObjectsAreNoText(v: Value, w: Value)
    requires Valid(v) && v.Object? && Valid(w) && w.Object?
    ensures !IsText(Text(v) + Text(w))
  {
    ObjectsStart(w);
    forall before, u, after ensures !Surrounds(Text(v) + Text(w), before, u, after) {
      if Surrounds(Text(v) + Text(w), before, u, after) {
        WhatIsBehind(v, w, before, u, after);
      }
    }
  }

  lemma SameObject(u: Value, v: Value, s: string)
    requires Valid(u) && u.Object? && Valid(v) && v.Object? && Text(u) <= s && Text(v) <= s
    ensures Text(u) == Text(v)
  {
    if |Text(u)| <= |Text(v)| {
      assert Text(u) == s[..|Text(u)|] == Text(v)[..|Text(u)|];
      ObjectsAreNotPrefixes(u, v);
    } else {
      assert Text(v) == s[..|Text(v)|] == Text(u)[..|Text(v)|];
      ObjectsAreNotPrefixes(v, u);
    }
  }

  /** Whatever part of an object is written, an object written on it makes no JSON text. */
  lemma TornThenWholeIsNoText(v: Value, k: nat, w: Value)
    requires Valid(v) && v.Object? && Valid(w) && w.Object? && 0 < k <= |Text(v)|
    ensures !IsText(Text(v)[..k] + Text(w))
  {
    var torn := Text(v)[..k];
    if k == |Text(v)| {
      assert torn == Text(v);
      TwoObjectsAreNoText(v, w);
    } else {
      var s := Run(Scan(0, Outside), torn);
      ValueStaysUp(0, v, k);
      RunConcat(Scan(0, Outside), torn, Text(w));
      if s.mode == Outside {
        RunValue(s.depth, w);
      } else {
        ObjectEndsInside(s, w);
      }
      if IsText(torn + Text(w)) {
        TextsBalance(torn + Text(w));
      }
    }
  }

  // ---------------------------------------------------------------- what such a file reads as

  /** A whole line that is no JSON fails the read. */
  lemma BadLinesFail<C>(codec: Codec<C>, line: string, text: string)
    requires codec.load(line) == NotJson && !Blank(line) && forall i :: 0 <= i < |line| ==> !Boundary(line[i])
    ensures Parse(codec, line + "\n" + text).Err?
  {
    var whole := line + "\n" + text;
    AfterLastNewlineConcat(line + "\n", text);
    if AfterLastNewline(text) == 0 {
      assert Complete(whole) == line;
      SplitOne(line);
    } else {
      assert Complete(whole) == line + "\n" + Complete(text);
      SplitOff(line, Complete(text));
    }
  }

  lemma {:induction false} WholeLinesInFront<C(!new)>(codec: Codec<C>, log: seq<C>, rest: string)
    requires Faithful(codec)
    ensures Parse(codec, Flatten(codec, log) + rest) == After(log, Parse(codec, rest))
    decreases |log|
  {
    if log == [] {
      assert Flatten(codec, log) + rest == rest;
      AfterConcat([], [], Parse(codec, rest));
    } else {
      var line, more := codec.Line(log[0]), Flatten(codec, log[1..]);
      assert Lines(codec, log)[1..] == Lines(codec, log[1..]);
      assert Flatten(codec, log) + rest == line + "\n" + (more + rest);
      LinesAreSound(codec, log[0]);
      ParseStep(codec, line, log[0], more + rest);
      WholeLinesInFront(codec, log[1..], rest);
      AfterConcat([log[0]], log[1..], Parse(codec, rest));
      assert [log[0]] + log[1..] == log;
    }
  }

  lemma TornLineIsBad<C(!new)>(codec: Codec<C>, c: C, k: nat, d: C)
    requires Faithful(codec) && 0 < k <= |codec.Line(c)|
    ensures var line := codec.Line(c)[..k] + codec.Line(d);
      codec.load(line) == NotJson && !Blank(line) && forall i :: 0 <= i < |line| ==> !Boundary(line[i])
  {
    DumpIsOneLine(codec.dump(c));
    DumpIsOneLine(codec.dump(d));
    TornThenWholeIsNoText(Dump(codec.dump(c)), k, Dump(codec.dump(d)));
    LinesAreSound(codec, c);
    LinesAreSound(codec, d);
    assert (codec.Line(c)[..k] + codec.Line(d))[0] == '{';
  }

  lemma FollowedTornLine<C(!new)>(codec: Codec<C>, c: C, k: nat, more: seq<C>)
    requires Faithful(codec) && 0 < k <= |codec.Line(c)| && more != []
    ensures Parse(codec, codec.Line(c)[..k] + Flatten(codec, more)).Err?
  {
    var line, rest := codec.Line(c)[..k] + codec.Line(more[0]), Flatten(codec, more[1..]);
    TornLineIsBad(codec, c, k, more[0]);
    assert Lines(codec, more)[1..] == Lines(codec, more[1..]);
    assert Flatten(codec, more) == codec.Line(more[0]) + "\n" + rest;
    assert codec.Line(c)[..k] + Flatten(codec, more) == line + "\n" + rest;
    BadLinesFail(codec, line, rest);
  }

  lemma LastTornLine<C(!new)>(codec: Codec<C>, c: C, k: nat)
    requires Faithful(codec) && k <= |codec.Line(c)|
    ensures Parse(codec, codec.Line(c)[..k] + Flatten(codec, [])) == Ok(if k == |codec.Line(c)| then [c] else [])
  {
    LinesAreSound(codec, c);
    ParsePartial(codec, codec.Line(c), c, k);
    assert codec.Line(c)[..k] + "" == codec.Line(c)[..k];
  }

  /** Behind the lines of `log` and a torn one, the file is readable until a line follows, and never
      after: what the torn line would have held is left out unless the whole object was written. */
  lemma TornLinesFailOnceFollowed<C(!new)>(codec: Codec<C>, log: seq<C>, c: C, k: nat, more: seq<C>)
    requires Faithful(codec) && 0 < k <= |codec.Line(c)|
    ensures var read := Parse(codec, Flatten(codec, log) + (codec.Line(c)[..k] + Flatten(codec, more)));
      && (read.Err? <==> more != [])
      && (more == [] ==> read == Ok(log + if k == |codec.Line(c)| then [c] else []))
  {
    WholeLinesInFront(codec, log, codec.Line(c)[..k] + Flatten(codec, more));
    if more == [] {
      LastTornLine(codec, c, k);
    } else {
      FollowedTornLine(codec, c, k, more);
    }
  }

  /** And where nothing of the line was flushed, nothing fails. */
  lemma AfterADeath<C(!new)>(codec: Codec<C>, log: seq<C>, c: C, k: nat, more: seq<C>)
    requires Faithful(codec) && k <= |codec.Line(c)|
    ensures Parse(codec, (Flatten(codec, log) + codec.Line(c)[..k]) + Flatten(codec, more)).Err? <==> k > 0 && more != []
  {
    var before, torn, rest := Flatten(codec, log), codec.Line(c)[..k], Flatten(codec, more);
    assert (before + torn) + rest == before + (torn + rest);
    if k == 0 {
      assert torn + rest == rest;
      WholeLinesInFront(codec, log, rest);
      ReadingItAll(codec, more);
    } else {
      TornLinesFailOnceFollowed(codec, log, c, k, more);
    }
  }

  // ---------------------------------------------------------------- a writer that dies

  /** `k` characters of the last line are flushed, behind all the lines before it. */
  ghost predicate HalfWritten<C>(codec: Codec<C>, f: File<C>, k: nat) {
    f.log != [] &&
    var n := |f.log| - 1;
    k <= |codec.Line(f.log[n])| && f.content == Flatten(codec, f.log[..n]) + codec.Line(f.log[n])[..k]
  }

  ghost predicate PendingFits<C>(codec: Codec<C>, f: File<C>) {
    f.pending != "" ==> f.log != [] && |f.pending| <= |codec.Line(f.log[|f.log| - 1])| + 1
  }

  lemma StepFits<C(!new)>(codec: Codec<C>, f: File<C>, e: Event<C>)
    requires PendingFits(codec, f) && Enabled(codec, f, e)
    ensures PendingFits(codec, Next(codec, f, e))
  {
  }

  lemma {:induction false} PendingIsTheLastLine<C(!new)>(codec: Codec<C>, run: seq<File<C>>, i: nat)
    requires Trace(codec, run) && i < |run|
    ensures PendingFits(codec, run[i])
  {
    if i > 0 {
      PendingIsTheLastLine(codec, run, i - 1);
      assert Stepped(codec, run[i - 1], run[i]);
      var e :| Enabled(codec, run[i - 1], e) && run[i] == Next(codec, run[i - 1], e);
      StepFits(codec, run[i - 1], e);
    }
  }

  lemma PartOfTheLine(content: string, pending: string, before: string, line: string)
    requires content + pending == before + (line + "\n") && 0 < |pending| <= |line| + 1
    ensures content == before + line[..|line| + 1 - |pending|]
  {
    var k := |line| + 1 - |pending|;
    assert content == (content + pending)[..|before| + k];
    assert (before + (line + "\n"))[..|before| + k] == before + (line + "\n")[..k];
    assert (line + "\n")[..k] == line[..k];
  }

  /** At any moment of any run, what is flushed is the lines before the one being written and part of
      that one. */
  lemma FlushedPart<C(!new)>(codec: Codec<C>, f: File<C>) returns (k: nat)
    requires Sound(codec, f) && PendingFits(codec, f) && f.pending != ""
    ensures HalfWritten(codec, f, k)
  {
    var n := |f.log| - 1;
    var before, line := Flatten(codec, f.log[..n]), codec.Line(f.log[n]);
    FlattenOneMore(codec, f.log[..n], f.log[n]);
    assert f.log[..n] + [f.log[n]] == f.log;
    assert before + line + "\n" == before + (line + "\n");
    PartOfTheLine(f.content, f.pending, before, line);
    k := |line| + 1 - |f.pending|;
  }

  /** A process that holds the lock dies in the middle of a write, and other processes append `more`
      whole lines: the read fails exactly when some of the dead writer's line was flushed and a line has
      followed it. */
  lemma DeadWritersBreakTheFile<C(!new)>(codec: Codec<C>, run: seq<File<C>>, i: nat, more: seq<C>) returns (k: nat)
    requires Faithful(codec) && Trace(codec, run) && i < |run| && run[i].pending != ""
    ensures HalfWritten(codec, run[i], k)
    ensures Parse(codec, run[i].content + Flatten(codec, more)).Err? <==> k > 0 && more != []
  {
    PendingIsTheLastLine(codec, run, i);
    RunsAreSound(codec, run, i);
    k := FlushedPart(codec, run[i]);
    var n := |run[i].log| - 1;
    AfterADeath(codec, run[i].log[..n], run[i].log[n], k, more);
  }
}
