/** Free-form Fortran lines joined into logical statements
    (equivalent/analyzers/check_sese.py; continuation is section 6.3.2.4 of
    ISO/IEC 1539-1:2018). */
module Statements {
  import opened Wrappers
  import opened CodeParts

  // ---------------------------------------------------------------- one line

  predicate EndsWithAmpersand(s: string) {
    s != "" && s[|s| - 1] == '&'
  }

  function WithoutTrailing(s: string): string {
    if EndsWithAmpersand(s) then s[..|s| - 1] else s
  }

  /** What a continuation line adds: its optional leading ampersand removed. */
  function Continuation(code: string): string {
    var s := LStrip(code);
    if s != "" && s[0] == '&' then s[1..] else s
  }

  /** The code of line `n`, counted from one. */
  function Code(lines: seq<string>, n: nat): string
    requires 1 <= n <= |lines|
  {
    lines[n - 1]
  }

  predicate IsCode(lines: seq<string>, n: nat)
    requires 1 <= n <= |lines|
  {
    Code(lines, n) != ""
  }

  /** What line `n` contributes to a statement that began on line `start`. */
  function Piece(lines: seq<string>, start: nat, n: nat): string
    requires 1 <= n <= |lines|
  {
    if n == start then Code(lines, n) else Continuation(Code(lines, n))
  }

  predicate Continued(lines: seq<string>, start: nat, n: nat)
    requires 1 <= n <= |lines|
  {
    EndsWithAmpersand(Piece(lines, start, n))
  }

  // ---------------------------------------------------------------- statements

  datatype Statement = Statement(start: nat, end: nat, code: string, unterminated: bool)

  /** The statement line `n` begins, or the open one it extends. */
  function Item(lines: seq<string>, n: nat, pending: Option<Statement>): Statement
    requires 1 <= n <= |lines|
  {
    match pending
    case None => Statement(n, n, WithoutTrailing(Code(lines, n)), false)
    case Some(p) => p.(code := p.code + WithoutTrailing(Continuation(Code(lines, n))), end := n)
  }

  predicate StaysOpen(lines: seq<string>, n: nat, pending: Option<Statement>)
    requires 1 <= n <= |lines|
  {
    EndsWithAmpersand(if pending.Some? then Continuation(Code(lines, n)) else Code(lines, n))
  }

  /** The statements still to come from line `n` on, given one left open. */
  function Rest(lines: seq<string>, n: nat, pending: Option<Statement>): seq<Statement>
    requires 1 <= n <= |lines| + 1
    decreases |lines| + 1 - n
  {
    if n > |lines| then
      if pending.Some? then [pending.value.(unterminated := true)] else []
    else if !IsCode(lines, n) then Rest(lines, n + 1, pending)
    else if StaysOpen(lines, n, pending) then Rest(lines, n + 1, Some(Item(lines, n, pending)))
    else [Item(lines, n, pending)] + Rest(lines, n + 1, None)
  }

  function Logical(source: seq<string>): seq<Statement> {
    Rest(Codes(source), 1, None)
  }

  lemma Regroup(a: seq<Statement>, s: Statement, b: seq<Statement>)
    ensures a + ([s] + b) == (a + [s]) + b
  {
  }

  /** The physical lines `from` to `to` as a reader is shown them. */
  function Shown(source: seq<string>, from: nat, to: nat): (text: seq<string>)
    requires 1 <= from <= to <= |source|
  {
    seq(to - from + 1, i requires 0 <= i <= to - from => Strip(source[from - 1 + i]))
  }

  /** A statement is shown with its lines, blank ones between them included; one the file breaks off in,
      with all that is left. */
  ghost predicate ShownWith(source: seq<string>, s: Statement, text: seq<string>) {
    && 1 <= s.start <= s.end <= |source|
    && text == Shown(source, s.start, if s.unterminated then |source| else s.end)
  }

  ghost predicate PendingShownWith(source: seq<string>, i: nat, pending: Option<Statement>, text: seq<string>) {
    pending.Some? ==>
      && 1 <= pending.value.start <= pending.value.end <= i <= |source| && !pending.value.unterminated
      && text == Shown(source, pending.value.start, i)
  }

  method Joined(code: string, number: nat, pending: Option<Statement>, ghost lines: seq<string>)
    returns (item: Statement, continued: bool)
    requires 1 <= number <= |lines| && code == Code(lines, number)
    ensures item == Item(lines, number, pending) && continued == StaysOpen(lines, number, pending)
    ensures Extends(item, number, pending)
  {
    var code := code;
    if pending.Some? {
      code := LStrip(code);
      if code != "" && code[0] == '&' {
        code := code[1..];
      }
    }
    continued := EndsWithAmpersand(code);
    if continued {
      code := code[..|code| - 1];
    }
    item := match pending
      case Some(p) => p.(code := p.code + code, end := number)
      case None => Statement(number, number, code, false);
  }

  lemma ShownOneMore(source: seq<string>, i: nat, pending: Option<Statement>, text: seq<string>)
    requires i < |source| && PendingShownWith(source, i, pending, text)
    ensures var more := (if pending.Some? then text else []) + [Strip(source[i])];
      var start := if pending.Some? then pending.value.start else i + 1;
      1 <= start <= i + 1 && more == Shown(source, start, i + 1)
  {
  }

  /** What is left to read past line `n`: the statement it ends, if any, and what is open then. */
  ghost predicate Reads(lines: seq<string>, n: nat, pending: Option<Statement>, ended: Option<Statement>, open: Option<Statement>)
    requires 1 <= n <= |lines|
  {
    Rest(lines, n, pending) == (if ended.Some? then [ended.value] else []) + Rest(lines, n + 1, open)
  }

  lemma LineReads(lines: seq<string>, n: nat, pending: Option<Statement>)
    requires 1 <= n <= |lines|
    ensures !IsCode(lines, n) ==> Reads(lines, n, pending, None, pending)
    ensures IsCode(lines, n) && StaysOpen(lines, n, pending) ==> Reads(lines, n, pending, None, Some(Item(lines, n, pending)))
    ensures IsCode(lines, n) && !StaysOpen(lines, n, pending) ==> Reads(lines, n, pending, Some(Item(lines, n, pending)), None)
  {
  }

  /** `item` goes on from the open statement, if there is one, to line `n`. */
  predicate Extends(item: Statement, n: nat, pending: Option<Statement>) {
    && item.start == (if pending.Some? then pending.value.start else n) && item.end == n
    && item.unterminated == (pending.Some? && pending.value.unterminated)
  }

  lemma ItemIsShown(source: seq<string>, n: nat, pending: Option<Statement>, text: seq<string>, item: Statement)
    requires 1 <= n <= |source| && PendingShownWith(source, n - 1, pending, text) && Extends(item, n, pending)
    ensures var more := (if pending.Some? then text else []) + [Strip(source[n - 1])];
      PendingShownWith(source, n, Some(item), more) && ShownWith(source, item, more)
  {
    ShownOneMore(source, n - 1, pending, text);
  }

  lemma BlankIsShown(source: seq<string>, n: nat, pending: Option<Statement>, text: seq<string>)
    requires 1 <= n <= |source| && PendingShownWith(source, n - 1, pending, text) && pending.Some?
    ensures PendingShownWith(source, n, pending, text + [Strip(source[n - 1])])
  {
    ShownOneMore(source, n - 1, pending, text);
  }

  /** The loop's body on a line of code ... */
  method ReadCode(source: seq<string>, i: nat, code: string, pending: Option<Statement>, text: seq<string>, ghost lines: seq<string>)
    returns (ended: Option<Statement>, open: Option<Statement>, shown: seq<string>)
    requires i < |source| == |lines| && lines[i] == code != "" && PendingShownWith(source, i, pending, text)
    ensures Reads(lines, i + 1, pending, ended, open)
    ensures ended.Some? ==> ShownWith(source, ended.value, shown)
    ensures PendingShownWith(source, i + 1, open, shown)
  {
    LineReads(lines, i + 1, pending);
    var item, continued := Joined(code, i + 1, pending, lines);
    ItemIsShown(source, i + 1, pending, text, item);
    shown := (if pending.Some? then text else []) + [Strip(source[i])];
    ended, open := if continued then None else Some(item), if continued then Some(item) else None;
  }

  /** ... and on any line whose code is `code`. */
  method ReadLine(source: seq<string>, i: nat, code: string, pending: Option<Statement>, text: seq<string>, ghost lines: seq<string>)
    returns (ended: Option<Statement>, open: Option<Statement>, shown: seq<string>)
    requires i < |source| == |lines| && lines[i] == code && PendingShownWith(source, i, pending, text)
    ensures Reads(lines, i + 1, pending, ended, open)
    ensures ended.Some? ==> ShownWith(source, ended.value, shown)
    ensures PendingShownWith(source, i + 1, open, shown)
  {
    if code != "" {
      ended, open, shown := ReadCode(source, i, code, pending, text, lines);
    } else {
      LineReads(lines, i + 1, pending);
      ended, open, shown := None, pending, text;
      if pending.Some? {
        BlankIsShown(source, i + 1, pending, text);
        shown := text + [Strip(source[i])];
      }
    }
  }

  /** After the first `i` lines: these statements are done, the open one and the lines to come make the rest. */
  ghost predicate ReadSoFar(source: seq<string>, lines: seq<string>, i: nat, statements: seq<Statement>,
                            texts: seq<seq<string>>, pending: Option<Statement>, text: seq<string>)
  {
    && i <= |source| == |lines| && Rest(lines, 1, None) == statements + Rest(lines, i + 1, pending)
    && |texts| == |statements| && (forall k :: 0 <= k < |statements| ==> ShownWith(source, statements[k], texts[k]))
    && PendingShownWith(source, i, pending, text)
  }

  lemma ReadOneMore(source: seq<string>, lines: seq<string>, i: nat, statements: seq<Statement>,
                    texts: seq<seq<string>>, pending: Option<Statement>, text: seq<string>,
                    ended: Option<Statement>, open: Option<Statement>, shown: seq<string>)
    requires ReadSoFar(source, lines, i, statements, texts, pending, text) && i < |source|
    requires Reads(lines, i + 1, pending, ended, open)
    requires (ended.Some? ==> ShownWith(source, ended.value, shown)) && PendingShownWith(source, i + 1, open, shown)
    ensures ended.Some? ==> ReadSoFar(source, lines, i + 1, statements + [ended.value], texts + [shown], open, shown)
    ensures ended.None? ==> ReadSoFar(source, lines, i + 1, statements, texts, open, shown)
  {
    var rest := Rest(lines, i + 2, open);
    if ended.Some? {
      Regroup(statements, ended.value, rest);
    } else {
      assert [] + rest == rest;
    }
  }

  lemma NothingMore(source: seq<string>, lines: seq<string>, statements: seq<Statement>,
                    texts: seq<seq<string>>, pending: Option<Statement>, text: seq<string>)
    requires ReadSoFar(source, lines, |source|, statements, texts, pending, text)
    ensures pending.Some? ==>
      && Rest(lines, 1, None) == statements + [pending.value.(unterminated := true)]
      && ShownWith(source, pending.value.(unterminated := true), text)
    ensures pending.None? ==> Rest(lines, 1, None) == statements
  {
  }

  method LogicalStatements(source: seq<string>) returns (statements: seq<Statement>, texts: seq<seq<string>>)
    ensures statements == Logical(source) && |texts| == |statements|
    ensures forall k :: 0 <= k < |statements| ==> ShownWith(source, statements[k], texts[k])
  {
    ghost var lines := Codes(source);
    statements, texts := [], [];
    var pending: Option<Statement>, text := None, [];
    for i := 0 to |source|
      invariant ReadSoFar(source, lines, i, statements, texts, pending, text)
    {
      var code := RStrip(CodePart(source[i]));
      var ended, open, shown := ReadLine(source, i, code, pending, text, lines);
      ReadOneMore(source, lines, i, statements, texts, pending, text, ended, open, shown);
      if ended.Some? {
        statements, texts := statements + [ended.value], texts + [shown];
      }
      pending, text := open, shown;
    }
    NothingMore(source, lines, statements, texts, pending, text);
    if pending.Some? {
      statements, texts := statements + [pending.value.(unterminated := true)], texts + [text];
    }
  }

  // ---------------------------------------------------------------- what the spans are

  /** The code of the lines `start` to `n` of one statement, joined. */
  function SpanText(lines: seq<string>, start: nat, n: nat): string
    requires 1 <= start && n <= |lines|
    decreases n
  {
    if n < start then ""
    else if IsCode(lines, n) then
      SpanText(lines, start, n - 1) + WithoutTrailing(Piece(lines, start, n))
    else SpanText(lines, start, n - 1)
  }

  /** `s` runs from a line of code, through lines every one of which asks to be
      continued, and holds their text joined. */
  ghost predicate Spans(lines: seq<string>, s: Statement) {
    && 1 <= s.start <= s.end <= |lines|
    && IsCode(lines, s.start) && IsCode(lines, s.end)
    && (forall n :: s.start <= n < s.end && IsCode(lines, n) ==> Continued(lines, s.start, n))
    && s.code == SpanText(lines, s.start, s.end)
  }

  /** It ends where nothing asks for more, or where the file does. */
  ghost predicate Complete(lines: seq<string>, s: Statement)
    requires Spans(lines, s)
  {
    if s.unterminated
    then Continued(lines, s.start, s.end) && forall n :: s.end < n <= |lines| ==> !IsCode(lines, n)
    else !Continued(lines, s.start, s.end)
  }

  ghost predicate Increasing(statements: seq<Statement>) {
    forall i, j :: 0 <= i < j < |statements| ==> statements[i].end < statements[j].start
  }

  ghost predicate Covers(s: Statement, n: nat) {
    s.start <= n <= s.end
  }

  ghost predicate CoveredFrom(lines: seq<string>, from: nat, statements: seq<Statement>) {
    forall n :: 1 <= from <= n <= |lines| && IsCode(lines, n) ==>
      exists k :: 0 <= k < |statements| && Covers(statements[k], n)
  }

  /** An open statement that has reached line `n`. */
  ghost predicate Open(lines: seq<string>, n: nat, pending: Option<Statement>) {
    pending.Some? ==>
      && Spans(lines, pending.value) && pending.value.end < n && !pending.value.unterminated
      && Continued(lines, pending.value.start, pending.value.end)
      && (forall m :: pending.value.end < m < n && m <= |lines| ==> !IsCode(lines, m))
  }

  lemma {:induction false} SpanTextSkipsBlanks(lines: seq<string>, start: nat, m: nat, n: nat)
    requires 1 <= start && m <= n <= |lines|
    requires forall k :: m < k <= n && k >= 1 ==> !IsCode(lines, k)
    ensures SpanText(lines, start, n) == SpanText(lines, start, m)
    decreases n
  {
    if m < n && n >= start {
      SpanTextSkipsBlanks(lines, start, m, n - 1);
    } else if m < n {
      assert SpanText(lines, start, m) == "";
    }
  }

  lemma FirstItemSpans(lines: seq<string>, n: nat)
    requires 1 <= n <= |lines| && IsCode(lines, n)
    ensures Item(lines, n, None).code == SpanText(lines, n, n)
    ensures StaysOpen(lines, n, None) <==> Continued(lines, n, n)
  {
    assert SpanText(lines, n, n - 1) == "";
    assert "" + WithoutTrailing(Piece(lines, n, n)) == WithoutTrailing(Piece(lines, n, n));
  }

  lemma NextItemSpans(lines: seq<string>, n: nat, p: Statement)
    requires 1 <= n <= |lines| && IsCode(lines, n) && Open(lines, n, Some(p))
    ensures Item(lines, n, Some(p)).code == SpanText(lines, p.start, n)
    ensures StaysOpen(lines, n, Some(p)) <==> Continued(lines, p.start, n)
  {
    SpanTextSkipsBlanks(lines, p.start, p.end, n - 1);
    assert Piece(lines, p.start, n) == Continuation(Code(lines, n));
  }

  lemma ItemSpans(lines: seq<string>, n: nat, pending: Option<Statement>)
    requires 1 <= n <= |lines| && IsCode(lines, n) && Open(lines, n, pending)
    ensures Spans(lines, Item(lines, n, pending))
    ensures StaysOpen(lines, n, pending) <==> Continued(lines, Item(lines, n, pending).start, n)
  {
    if pending.Some? {
      NextItemSpans(lines, n, pending.value);
    } else {
      FirstItemSpans(lines, n);
    }
  }

  lemma ItemEndsOrStaysOpen(lines: seq<string>, n: nat, pending: Option<Statement>)
    requires 1 <= n <= |lines| && IsCode(lines, n) && Open(lines, n, pending)
    ensures var item := Item(lines, n, pending);
      && item.end == n && item.start <= n
      && (if pending.Some? then item.start == pending.value.start && pending.value.end < n else item.start == n)
      && (StaysOpen(lines, n, pending) ==> Open(lines, n + 1, Some(item)))
      && (!StaysOpen(lines, n, pending) ==> Spans(lines, item) && Complete(lines, item))
  {
    ItemSpans(lines, n, pending);
  }

  /** What the statements still to come are, where they begin and what they cover. */
  ghost predicate Partition(lines: seq<string>, n: nat, pending: Option<Statement>, r: seq<Statement>) {
    && (forall s :: s in r ==> Spans(lines, s) && Complete(lines, s))
    && (forall s :: s in r ==> s.start >= n || (pending.Some? && s.start == pending.value.start))
    && (pending.Some? ==> r != [] && r[0].start == pending.value.start && r[0].end >= pending.value.end)
    && Increasing(r) && CoveredFrom(lines, n, r)
  }

  lemma CoveredByTheOpenOne(lines: seq<string>, n: nat, pending: Option<Statement>, item: Statement, r: seq<Statement>)
    requires 1 <= n <= |lines| && item.start <= n && item.end == n
    requires if pending.Some? then item.start == pending.value.start && pending.value.end < n else item.start == n
    requires Partition(lines, n + 1, Some(item), r)
    ensures Partition(lines, n, pending, r)
  {
    assert Covers(r[0], n);
  }

  lemma CoveredByTheClosedOne(lines: seq<string>, n: nat, pending: Option<Statement>, item: Statement, tail: seq<Statement>)
    requires 1 <= n <= |lines| && Spans(lines, item) && Complete(lines, item) && item.end == n
    requires if pending.Some? then item.start == pending.value.start && pending.value.end < n else item.start == n
    requires Partition(lines, n + 1, None, tail)
    ensures Partition(lines, n, pending, [item] + tail)
  {
    var r := [item] + tail;
    assert forall s :: s in r <==> s == item || s in tail;
    IncreasingOneMore(item, tail);
    CoveredOneMore(lines, n, item, tail);
  }

  lemma IncreasingOneMore(item: Statement, tail: seq<Statement>)
    requires Increasing(tail) && forall s :: s in tail ==> item.end < s.start
    ensures Increasing([item] + tail)
  {
    var r := [item] + tail;
    forall i, j | 0 <= i < j < |r| ensures r[i].end < r[j].start {
      assert r[j] == tail[j - 1] && tail[j - 1] in tail;
      if i > 0 {
        assert r[i] == tail[i - 1];
      }
    }
  }

  lemma CoveredOneMore(lines: seq<string>, n: nat, item: Statement, tail: seq<Statement>)
    requires 1 <= n <= |lines| && Covers(item, n) && CoveredFrom(lines, n + 1, tail)
    ensures CoveredFrom(lines, n, [item] + tail)
  {
    var r := [item] + tail;
    forall m | n <= m <= |lines| && IsCode(lines, m)
      ensures exists k :: 0 <= k < |r| && Covers(r[k], m)
    {
      if m == n {
        assert Covers(r[0], m);
      } else {
        var k :| 0 <= k < |tail| && Covers(tail[k], m);
        assert Covers(r[k + 1], m);
      }
    }
  }

  ghost predicate Partitioned(lines: seq<string>, n: nat, pending: Option<Statement>)
    requires 1 <= n <= |lines| + 1 && Open(lines, n, pending)
  {
    Partition(lines, n, pending, Rest(lines, n, pending))
  }

  lemma NothingLeft(lines: seq<string>, pending: Option<Statement>)
    requires Open(lines, |lines| + 1, pending)
    ensures Partitioned(lines, |lines| + 1, pending)
  {
  }

  lemma BlankLeavesOpen(lines: seq<string>, n: nat, pending: Option<Statement>)
    requires 1 <= n <= |lines| && !IsCode(lines, n) && Open(lines, n, pending)
    ensures Open(lines, n + 1, pending)
  {
  }

  lemma CoveredPastABlank(lines: seq<string>, n: nat, pending: Option<Statement>, r: seq<Statement>)
    requires 1 <= n <= |lines| && !IsCode(lines, n) && Partition(lines, n + 1, pending, r)
    ensures Partition(lines, n, pending, r)
  {
  }

  lemma PastABlank(lines: seq<string>, n: nat, pending: Option<Statement>)
    requires 1 <= n <= |lines| && !IsCode(lines, n) && Open(lines, n, pending)
    requires Open(lines, n + 1, pending) && Partitioned(lines, n + 1, pending)
    ensures Partitioned(lines, n, pending)
  {
    CoveredPastABlank(lines, n, pending, Rest(lines, n + 1, pending));
  }

  lemma PastAnOpenLine(lines: seq<string>, n: nat, pending: Option<Statement>)
    requires 1 <= n <= |lines| && IsCode(lines, n) && Open(lines, n, pending) && StaysOpen(lines, n, pending)
    ensures Open(lines, n + 1, Some(Item(lines, n, pending)))
    ensures Partitioned(lines, n + 1, Some(Item(lines, n, pending))) ==> Partitioned(lines, n, pending)
  {
    var item := Item(lines, n, pending);
    ItemEndsOrStaysOpen(lines, n, pending);
    var r := Rest(lines, n + 1, Some(item));
    if Partition(lines, n + 1, Some(item), r) {
      CoveredByTheOpenOne(lines, n, pending, item, r);
    }
  }

  lemma PastAnEnding(lines: seq<string>, n: nat, pending: Option<Statement>)
    requires 1 <= n <= |lines| && IsCode(lines, n) && Open(lines, n, pending) && !StaysOpen(lines, n, pending)
    requires Partitioned(lines, n + 1, None)
    ensures Partitioned(lines, n, pending)
  {
    var item := Item(lines, n, pending);
    ItemEndsOrStaysOpen(lines, n, pending);
    CoveredByTheClosedOne(lines, n, pending, item, Rest(lines, n + 1, None));
  }

  lemma {:induction false} RestIsAPartition(lines: seq<string>, n: nat, pending: Option<Statement>)
    requires 1 <= n <= |lines| + 1 && Open(lines, n, pending)
    ensures Partitioned(lines, n, pending)
    decreases |lines| + 1 - n
  {
    if n > |lines| {
      NothingLeft(lines, pending);
    } else if !IsCode(lines, n) {
      BlankLeavesOpen(lines, n, pending);
      RestIsAPartition(lines, n + 1, pending);
      PastABlank(lines, n, pending);
    } else if StaysOpen(lines, n, pending) {
      PastAnOpenLine(lines, n, pending);
      RestIsAPartition(lines, n + 1, Some(Item(lines, n, pending)));
    } else {
      RestIsAPartition(lines, n + 1, None);
      PastAnEnding(lines, n, pending);
    }
  }

  /** Logical statements are disjoint, in order, cover every line of code, and
      each is a maximal run of continued lines holding their joined text. */
  lemma LogicalStatementsPartitionTheCode(source: seq<string>)
    ensures Increasing(Logical(source)) && CoveredFrom(Codes(source), 1, Logical(source))
    ensures forall s :: s in Logical(source) ==> Spans(Codes(source), s) && Complete(Codes(source), s)
  {
    RestIsAPartition(Codes(source), 1, None);
  }

  // ---------------------------------------------------------------- literals over several lines

  /** The statements of the lines as the language reads them. */
  function TrueLogical(source: seq<string>): seq<Statement> {
    Rest(TrueCodes(source, None), 1, None)
  }

  /** Joining what was blanked line by line joins what the language would when no line leaves a literal
      open. */
  lemma LogicalIsTrue(source: seq<string>)
    requires ClosesEveryLiteral(source)
    ensures Logical(source) == TrueLogical(source)
  {
    BlankingByLineIsExact(source);
  }

  predicate OrdinaryText(t: string) {
    forall i :: 0 <= i < |t| ==> !IsQuote(t[i]) && t[i] != '!'
  }

  /** Two lines between whose literals any text hides. */
  function Hiding(t: string): seq<string> { ["s='&", "&';" + t + ";s=''"] }

  lemma {:induction false} NothingUpTo(t: string, rest: string)
    requires OrdinaryText(t) && rest != "" && rest[0] == '\''
    ensures Literal(t + rest, '\'') == match Literal(rest, '\'') case Some(n) => Some(|t| + n) case None => None
    decreases |t|
  {
    if t == "" {
      assert t + rest == rest;
    } else {
      assert (t + rest)[1..] == t[1..] + rest;
      NothingUpTo(t[1..], rest);
    }
  }

  lemma {:induction false} OrdinaryIsCode(t: string, rest: string)
    requires OrdinaryText(t)
    ensures Outside(t + rest).code == t + Outside(rest).code && Outside(t + rest).open == Outside(rest).open
    decreases |t|
  {
    if t == "" {
      assert t + rest == rest;
    } else {
      assert (t + rest)[1..] == t[1..] + rest;
      OrdinaryIsCode(t[1..], rest);
      assert [t[0]] + (t[1..] + Outside(rest).code) == t + Outside(rest).code;
    }
  }

  lemma FirstHidingLine()
    ensures CodePart("s='&") == "s='&" && Outside("s='&") == Scan("s=''&", Some('\''))
  {
    var s := "s='&";
    assert s[1..] == "='&" && s[1..][1..] == "'&" && s[1..][1..][1..] == "&" && "&"[1..] == "";
    assert Literal("&", '\'').None?;
    CodePartSteps("&");
    CodePartSteps("'&");
    CodePartSteps("='&");
    CodePartSteps(s);
    assert LStrip("") == "" && Inside("&", '\'') == Scan("&", Some('\''));
    assert Outside("'&") == Scan("''" + "&", Some('\''));
    assert Outside("='&") == Scan("=" + "''&", Some('\''));
  }

  lemma UpToTheNextLiteral(rest: string)
    requires OrdinaryText(rest)
    ensures Literal(rest + "''", '\'') == Some(|rest| + 1) && (rest + "''")[|rest| + 1..] == "'"
  {
    NothingUpTo(rest, "''");
    assert "''"[2..] == "" && Literal("''"[2..], '\'').None?;
    assert Literal("''", '\'') == Some(1);
  }

  lemma LoneApostrophe()
    ensures CodePart("'") == "'"
  {
    CodePartSteps("'");
    assert "'"[1..] == "" && CodePart("") == "";
  }

  /** One literal is seen from the end of the first to the start of the next. */
  lemma BlankedTogether(rest: string)
    requires OrdinaryText(rest)
    ensures CodePart(['\''] + (rest + "''")) == "'''"
  {
    var s := ['\''] + (rest + "''");
    UpToTheNextLiteral(rest);
    LoneApostrophe();
    assert s[1..] == rest + "''" && s[1 + (|rest| + 1)..] == "'";
    CodePartSteps(s);
  }

  lemma SecondHidingLine(t: string)
    requires OrdinaryText(t)
    ensures CodePart(Hiding(t)[1]) == "&'''"
  {
    var rest := ";" + t + ";s=";
    var line := Hiding(t)[1];
    assert line == "&" + (['\''] + (rest + "''")) && line[1..] == ['\''] + (rest + "''");
    BlankedTogether(rest);
    CodePartSteps(line);
  }

  lemma ContinuedAtOnce(body: string, q: char)
    requires IsQuote(q) && body != "" && body[0] != q
    ensures ScanLine("&" + ([q] + body), Some(q)) == Scan("&" + Outside(body).code, Outside(body).open)
  {
    var line := "&" + ([q] + body);
    assert LStrip(line) == line && line[1..] == [q] + body;
    assert Inside([q] + body, q) == Outside(body) by {
      assert ([q] + body)[1..] == body;
    }
  }

  lemma EmptyLiteral()
    ensures Outside("''") == Scan("''", None)
  {
    assert "''"[1..] == "'" && "'"[1..] == "" && Inside("'", '\'') == Outside("");
  }

  lemma PartsOfTheSecond(t: string)
    ensures Hiding(t)[1] == "&" + (['\''] + ((";" + t + ";s=") + "''"))
    ensures ((";" + t + ";s=") + "''")[0] == ';'
    ensures "&" + ((";" + t + ";s=") + "''") == "&;" + t + ";s=''"
  {
  }

  lemma SecondHidingLineRead(t: string)
    requires OrdinaryText(t)
    ensures ScanLine(Hiding(t)[1], Some('\'')) == Scan("&;" + t + ";s=''", None)
  {
    var rest := ";" + t + ";s=";
    PartsOfTheSecond(t);
    ContinuedAtOnce(rest + "''", '\'');
    OrdinaryIsCode(rest, "''");
    EmptyLiteral();
  }

  /** A continued statement of two lines. */
  lemma TwoLines(lines: seq<string>, first: string, second: string)
    requires lines == [first + "&", "&" + second] && second != "" && !EndsWithAmpersand(second)
    ensures Rest(lines, 1, None) == [Statement(1, 2, first + second, false)]
  {
    var open := Statement(1, 1, first, false);
    assert WithoutTrailing(first + "&") == first;
    assert Item(lines, 1, None) == open && StaysOpen(lines, 1, None);
    assert LStrip("&" + second) == "&" + second && ("&" + second)[1..] == second;
    assert Continuation(Code(lines, 2)) == second && WithoutTrailing(second) == second;
    assert Item(lines, 2, Some(open)) == Statement(1, 2, first + second, false) && !StaysOpen(lines, 2, Some(open));
    assert Rest(lines, 3, None) == [];
    assert Rest(lines, 2, Some(open)) == [Item(lines, 2, Some(open))] + Rest(lines, 3, None);
  }

  lemma EndsInInk(s: string)
    requires s != "" && !IsSpace(s[|s| - 1])
    ensures RStrip(s) == s
  {
  }

  lemma HidingCodes(t: string)
    requires OrdinaryText(t)
    ensures Codes(Hiding(t)) == ["s='" + "&", "&" + "'''"]
  {
    FirstHidingLine();
    SecondHidingLine(t);
    EndsInInk("s='&");
    EndsInInk("&'''");
    assert "s='" + "&" == "s='&" && "&" + "'''" == "&'''";
  }

  lemma TwoScans(a: string, b: string, first: Scan, second: Scan)
    requires Outside(a) == first && ScanLine(b, first.open) == second
    ensures ScanFrom([a, b], None) == [first, second]
  {
    assert [a, b][1..] == [b] && [b][1..] == [];
    assert ScanFrom([b], first.open) == [second] + ScanFrom([], second.open);
  }

  lemma HidingTrueCodes(t: string)
    requires OrdinaryText(t)
    ensures TrueCodes(Hiding(t), None) == ["s=''&", "&;" + t + ";s=''"]
  {
    var second := "&;" + t + ";s=''";
    FirstHidingLine();
    SecondHidingLineRead(t);
    TwoScans("s='&", Hiding(t)[1], Scan("s=''&", Some('\'')), Scan(second, None));
    assert Hiding(t) == ["s='&", Hiding(t)[1]];
    EndsInInk("s=''&");
    EndsInInk(second);
  }

  lemma PartsOfTheRead()
    ensures "s='" + "'''" == "s=''''" && !EndsWithAmpersand("'''") && "'''" != ""
  {
  }

  lemma HidingIsReadAs(t: string)
    requires OrdinaryText(t)
    ensures Logical(Hiding(t)) == [Statement(1, 2, "s=''''", false)]
  {
    var first, second := "s='", "'''";
    HidingCodes(t);
    PartsOfTheRead();
    TwoLines([first + "&", "&" + second], first, second);
  }

  lemma PartsOfTheMeant(t: string)
    ensures "s=''" + "&" == "s=''&" && "&" + (";" + t + ";s=''") == "&;" + t + ";s=''"
    ensures "s=''" + (";" + t + ";s=''") == "s='';" + t + ";s=''"
    ensures !EndsWithAmpersand(";" + t + ";s=''")
  {
  }

  lemma HidingMeans(t: string)
    requires OrdinaryText(t)
    ensures TrueLogical(Hiding(t)) == [Statement(1, 2, "s='';" + t + ";s=''", false)]
  {
    HidingTrueCodes(t);
    PartsOfTheMeant(t);
    TwoLines(["s=''&", "&;" + t + ";s=''"], "s=''", ";" + t + ";s=''");
  }

  /** A literal continued over two lines hides whatever stands between it and the next one: the statement
      the analyzer reads is the same for every text, and none of the text is in it. */
  lemma ContinuedLiteralsHide(t: string)
    requires OrdinaryText(t)
    ensures Logical(Hiding(t)) == [Statement(1, 2, "s=''''", false)]
    ensures TrueLogical(Hiding(t)) == [Statement(1, 2, "s='';" + t + ";s=''", false)]
  {
    HidingIsReadAs(t);
    HidingMeans(t);
  }
}
