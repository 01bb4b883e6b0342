/** The ledger file: one JSON object a line, appended under a lock by any number of processes and
    read without one, so that a reader may see any prefix of what has been written. */
module LedgerFile {
  import opened Wrappers
  import Json

  // ---------------------------------------------------------------- claims as lines

  /** What parsing one line comes to: no JSON at all, JSON that is no claim, or a claim. */
  datatype Loaded<C> = NotJson | Refused | Loaded(claim: C)

  /** How claims are written and read back; the claims themselves stay abstract. */
  datatype Codec<!C> = Codec(dump: C -> Json.Tree, load: string -> Loaded<C>, id: C -> string)
  {
    function Line(c: C): string { Json.Text(Json.Dump(dump(c))) }
  }

  /** A claim is written as an object, reads back as itself, and only JSON is ever parsed. */
  ghost predicate Faithful<C(!new)>(codec: Codec<C>) {
    && (forall c :: codec.dump(c).Dict? && Json.NumbersAreWritten(codec.dump(c)))
    && (forall c :: codec.load(codec.Line(c)) == Loaded(c))
    && (forall text :: !Json.IsText(text) ==> codec.load(text) == NotJson)
  }

  function Joined(lines: seq<string>): string
    decreases |lines|
  {
    if lines == [] then "" else lines[0] + "\n" + Joined(lines[1..])
  }

  function Lines<C>(codec: Codec<C>, claims: seq<C>): (lines: seq<string>)
    ensures |lines| == |claims| && forall i :: 0 <= i < |claims| ==> lines[i] == codec.Line(claims[i])
  {
    seq(|claims|, i requires 0 <= i < |claims| => codec.Line(claims[i]))
  }

  /** The whole file, once every write has been flushed. */
  function Flatten<C>(codec: Codec<C>, claims: seq<C>): string {
    Joined(Lines(codec, claims))
  }

  // ---------------------------------------------------------------- reading

  /** The characters at which a text is split into lines. */
  predicate Boundary(c: char) {
    c == '\n' || c == '\r' || c == '\U{0B}' || c == '\U{0C}' || '\U{1C}' <= c <= '\U{1E}'
    || c == '\U{85}' || c == '\U{2028}' || c == '\U{2029}'
  }

  predicate Blank(line: string) {
    forall i :: 0 <= i < |line| ==> IsSpace(line[i])
  }

  function FirstBoundary(text: string): (n: nat)
    ensures n <= |text| && (n < |text| ==> Boundary(text[n]))
    ensures forall i :: 0 <= i < n ==> !Boundary(text[i])
    decreases |text|
  {
    if text == "" || Boundary(text[0]) then 0 else 1 + FirstBoundary(text[1..])
  }

  function SplitLines(text: string): seq<string>
    decreases |text|
  {
    if text == "" then []
    else
      var n := FirstBoundary(text);
      if n == |text| then [text]
      else
        var next := if "\r\n" <= text[n..] then n + 2 else n + 1;
        [text[..n]] + SplitLines(text[next..])
  }

  /** Where the last newline ends, or 0 when there is none: what lies before is complete. */
  function AfterLastNewline(text: string): (n: nat)
    ensures n <= |text| && (n > 0 ==> text[n - 1] == '\n')
    ensures forall i :: n <= i < |text| ==> text[i] != '\n'
    decreases |text|
  {
    if text == "" then 0
    else if text[|text| - 1] == '\n' then |text|
    else AfterLastNewline(text[..|text| - 1])
  }

  /** Claims read, and what the text behind them reads as. */
  function After<C>(claims: seq<C>, rest: Result<seq<C>, string>): Result<seq<C>, string> {
    match rest
    case Ok(more) => Ok(claims + more)
    case Err(e) => Err(e)
  }

  lemma AfterConcat<C>(a: seq<C>, b: seq<C>, rest: Result<seq<C>, string>)
    ensures After(a, After(b, rest)) == After(a + b, rest)
    ensures After([], rest) == rest
  {
    if rest.Ok? {
      assert a + (b + rest.value) == (a + b) + rest.value;
      assert [] + rest.value == rest.value;
    }
  }

  function LoadLines<C>(codec: Codec<C>, lines: seq<string>): Result<seq<C>, string>
    decreases |lines|
  {
    if lines == [] then Ok([])
    else if Blank(lines[0]) then LoadLines(codec, lines[1..])
    else
      match codec.load(lines[0])
      case Loaded(c) => After([c], LoadLines(codec, lines[1..]))
      case _ => Err(lines[0])
  }

  /** The last line, when no newline ends it: loaded if it parses, left out if it does not. */
  function LoadPartial<C>(codec: Codec<C>, partial: string): Result<seq<C>, string> {
    if Blank(partial) then Ok([])
    else
      match codec.load(partial)
      case Loaded(c) => Ok([c])
      case NotJson => Ok([])
      case Refused => Err(partial)
  }

  function Complete(text: string): string {
    var n := AfterLastNewline(text);
    if n == 0 then "" else text[..n - 1]
  }

  function Parse<C>(codec: Codec<C>, text: string): Result<seq<C>, string> {
    var n := AfterLastNewline(text);
    match LoadLines(codec, SplitLines(Complete(text)))
    case Err(e) => Err(e)
    case Ok(claims) => After(claims, LoadPartial(codec, text[n..]))
  }

  lemma {:induction false} LoadLinesConcat<C>(codec: Codec<C>, a: seq<string>, b: seq<string>)
    requires LoadLines(codec, a).Ok?
    ensures LoadLines(codec, a + b) == After(LoadLines(codec, a).value, LoadLines(codec, b))
    decreases |a|
  {
    if a == [] {
      assert a + b == b;
      AfterConcat<C>([], [], LoadLines(codec, b));
    } else {
      assert (a + b)[1..] == a[1..] + b && (a + b)[0] == a[0];
      LoadLinesConcat(codec, a[1..], b);
      if !Blank(a[0]) {
        AfterConcat([codec.load(a[0]).claim], LoadLines(codec, a[1..]).value, LoadLines(codec, b));
      }
    }
  }

  lemma LoadOneLine<C>(codec: Codec<C>, line: string)
    ensures LoadLines(codec, [line]) ==
      (if Blank(line) then Ok([])
       else match codec.load(line) case Loaded(c) => Ok([c]) case _ => Err(line))
  {
    assert [line][1..] == [];
    if codec.load(line).Loaded? {
      assert [codec.load(line).claim] + [] == [codec.load(line).claim];
    }
  }

  lemma LoadOneMore<C>(codec: Codec<C>, lines: seq<string>, i: nat)
    requires i < |lines| && LoadLines(codec, lines[..i]).Ok?
    ensures !Blank(lines[i]) && codec.load(lines[i]).Loaded?
      ==> LoadLines(codec, lines[..i + 1]) == Ok(LoadLines(codec, lines[..i]).value + [codec.load(lines[i]).claim])
    ensures Blank(lines[i]) ==> LoadLines(codec, lines[..i + 1]) == LoadLines(codec, lines[..i])
    ensures !Blank(lines[i]) && !codec.load(lines[i]).Loaded? ==> LoadLines(codec, lines) == Err(lines[i])
  {
    assert lines[..i + 1] == lines[..i] + [lines[i]];
    LoadLinesConcat(codec, lines[..i], [lines[i]]);
    LoadOneLine(codec, lines[i]);
    assert lines == lines[..i] + lines[i..];
    LoadLinesConcat(codec, lines[..i], lines[i..]);
    assert LoadLines(codec, lines[..i]).value + [] == LoadLines(codec, lines[..i]).value;
  }

  ghost predicate Readable<C>(codec: Codec<C>, line: string) {
    Blank(line) || codec.load(line).Loaded?
  }

  lemma {:induction false} LinesFailExactly<C>(codec: Codec<C>, lines: seq<string>)
    ensures LoadLines(codec, lines).Ok? <==> forall i :: 0 <= i < |lines| ==> Readable(codec, lines[i])
    ensures LoadLines(codec, lines).Err? ==>
      exists i: nat :: FirstUnreadable(codec, lines, i) && lines[i] == LoadLines(codec, lines).error
    decreases |lines|
  {
    if lines != [] {
      var rest := lines[1..];
      LinesFailExactly(codec, rest);
      assert forall i :: 0 < i < |lines| ==> lines[i] == rest[i - 1];
      if Readable(codec, lines[0]) {
        if LoadLines(codec, rest).Err? {
          var i: nat :| FirstUnreadable(codec, rest, i) && rest[i] == LoadLines(codec, rest).error;
          assert FirstUnreadable(codec, lines, i + 1);
        }
      } else {
        assert FirstUnreadable(codec, lines, 0);
      }
    }
  }

  ghost predicate FirstUnreadable<C>(codec: Codec<C>, lines: seq<string>, i: nat) {
    && i < |lines| && !Readable(codec, lines[i])
    && forall j :: 0 <= j < i ==> Readable(codec, lines[j])
  }

  /** A read fails exactly at a finished line that is neither blank nor a claim, or, with all of those in
      order, at an unfinished one that is JSON but no claim; and names the first such line. */
  lemma ReadsFailExactly<C>(codec: Codec<C>, text: string)
    ensures var lines, tail := SplitLines(Complete(text)), text[AfterLastNewline(text)..];
      && (Parse(codec, text).Ok? <==>
            (forall i :: 0 <= i < |lines| ==> Readable(codec, lines[i])) && (Blank(tail) || !codec.load(tail).Refused?))
      && (Parse(codec, text).Err? ==>
            if forall i :: 0 <= i < |lines| ==> Readable(codec, lines[i]) then Parse(codec, text).error == tail
            else exists i: nat :: FirstUnreadable(codec, lines, i) && lines[i] == Parse(codec, text).error)
  {
    var lines, tail := SplitLines(Complete(text)), text[AfterLastNewline(text)..];
    LinesFailExactly(codec, lines);
    if LoadLines(codec, lines).Ok? {
      assert Parse(codec, text) == After(LoadLines(codec, lines).value, LoadPartial(codec, tail));
    } else {
      assert Parse(codec, text) == Err(LoadLines(codec, lines).error);
    }
  }

  method ReadJsonl<C>(codec: Codec<C>, text: string) returns (claims: Result<seq<C>, string>)
    ensures claims == Parse(codec, text)
  {
    var n := AfterLastNewline(text);
    var complete, partial := Complete(text), text[n..];
    var lines := SplitLines(complete);
    var out: seq<C> := [];
    var i := 0;
    while i < |lines|
      invariant i <= |lines| && LoadLines(codec, lines[..i]) == Ok(out)
    {
      LoadOneMore(codec, lines, i);
      if !Blank(lines[i]) {
        match codec.load(lines[i]) {
          case Loaded(c) => out := out + [c];
          case _ => return Err(lines[i]);
        }
      }
      i := i + 1;
    }
    assert lines[..i] == lines && out + [] == out;
    if !Blank(partial) {
      match codec.load(partial) {
        case Loaded(c) => out := out + [c];
        case NotJson =>
        case Refused => return Err(partial);
      }
    }
    return Ok(out);
  }

  // ---------------------------------------------------------------- any prefix reads as a prefix

  /** A line that holds one claim and no line boundary. */
  ghost predicate Holds<C>(codec: Codec<C>, line: string, c: C) {
    codec.load(line) == Loaded(c) && !Blank(line) && forall i :: 0 <= i < |line| ==> !Boundary(line[i])
  }

  /** A line whose prefixes are no JSON. */
  ghost predicate Indivisible<C>(codec: Codec<C>, line: string) {
    forall k :: 0 <= k < |line| ==> codec.load(line[..k]) == NotJson
  }

  lemma LinesAreSound<C(!new)>(codec: Codec<C>, c: C)
    requires Faithful(codec)
    ensures Holds(codec, codec.Line(c), c) && Indivisible(codec, codec.Line(c))
  {
    Json.DumpIsOneLine(codec.dump(c));
    assert codec.Line(c)[0] == '{';
    forall k | 0 <= k < |codec.Line(c)| ensures codec.load(codec.Line(c)[..k]) == NotJson {
      Json.OnlyTheWholeObjectIsAText(Json.Dump(codec.dump(c)), k);
    }
  }

  lemma {:induction false} FirstBoundaryIs(text: string, n: nat)
    requires n < |text| && Boundary(text[n]) && forall i :: 0 <= i < n ==> !Boundary(text[i])
    ensures FirstBoundary(text) == n
  {
  }

  lemma {:induction false} AfterLastNewlineConcat(a: string, b: string)
    requires a != "" && a[|a| - 1] == '\n'
    ensures AfterLastNewline(a + b) == |a| + AfterLastNewline(b)
  {
    var n := AfterLastNewline(a + b);
    assert (a + b)[|a| - 1] == '\n';
    if n > |a| {
      assert b[n - |a| - 1] == (a + b)[n - 1];
    }
    forall i | 0 <= i < |b| ensures (a + b)[|a| + i] == b[i] {
    }
  }

  lemma SplitOff(line: string, text: string)
    requires forall i :: 0 <= i < |line| ==> !Boundary(line[i])
    ensures SplitLines(line + "\n" + text) == [line] + SplitLines(text)
  {
    var whole := line + "\n" + text;
    FirstBoundaryIs(whole, |line|);
    assert whole[..|line|] == line && whole[|line| + 1..] == text;
    assert whole[|line|..][0] == '\n';
  }

  lemma SplitOne(line: string)
    requires line != "" && forall i :: 0 <= i < |line| ==> !Boundary(line[i])
    ensures SplitLines(line) == [line]
  {
    assert FirstBoundary(line) == |line|;
  }

  lemma CompleteStep<C>(codec: Codec<C>, line: string, c: C, text: string)
    requires Holds(codec, line, c)
    ensures LoadLines(codec, SplitLines(Complete(line + "\n" + text))) == After([c], LoadLines(codec, SplitLines(Complete(text))))
  {
    var whole := line + "\n" + text;
    AfterLastNewlineConcat(line + "\n", text);
    var n := AfterLastNewline(text);
    LoadOneLine(codec, line);
    if n == 0 {
      assert Complete(whole) == line;
      SplitOne(line);
      assert [c] + [] == [c];
    } else {
      assert Complete(whole) == line + "\n" + Complete(text);
      SplitOff(line, Complete(text));
      LoadLinesConcat(codec, [line], SplitLines(Complete(text)));
    }
  }

  lemma PartialStep(line: string, text: string)
    ensures var whole := line + "\n" + text;
      whole[AfterLastNewline(whole)..] == text[AfterLastNewline(text)..]
  {
    var whole := line + "\n" + text;
    AfterLastNewlineConcat(line + "\n", text);
  }

  /** One whole line in front of a text is one more claim in front of what the text reads as. */
  lemma ParseStep<C>(codec: Codec<C>, line: string, c: C, text: string)
    requires Holds(codec, line, c)
    ensures Parse(codec, line + "\n" + text) == After([c], Parse(codec, text))
  {
    PartialStep(line, text);
    var before, last := LoadLines(codec, SplitLines(Complete(text))), LoadPartial(codec, text[AfterLastNewline(text)..]);
    if before.Ok? {
      AfterConcat([c], before.value, last);
    }
    CompleteStep(codec, line, c, text);
  }

  /** A text that is one line or part of one, with no newline. */
  lemma ParsePartial<C>(codec: Codec<C>, line: string, c: C, k: nat)
    requires Holds(codec, line, c) && Indivisible(codec, line) && k <= |line|
    ensures Parse(codec, line[..k]) == Ok(if k == |line| then [c] else [])
  {
    var text := line[..k];
    assert AfterLastNewline(text) == 0 && text[0..] == text;
    AfterConcat([], [], LoadPartial(codec, text));
    if k == |line| {
      assert text == line;
    }
  }

  /** How many of the lines lie whole within the first `t` characters, newline or not. */
  function WholeLines(lines: seq<string>, t: nat): (n: nat)
    ensures n <= |lines|
    decreases |lines|
  {
    if lines == [] || t < |lines[0]| then 0
    else if t == |lines[0]| then 1
    else 1 + WholeLines(lines[1..], t - |lines[0]| - 1)
  }

  /** Any way of reading a text. */
  type Reader<!C> = string -> Result<seq<C>, string>

  ghost predicate ReadsFront<C>(read: Reader<C>, line: string, c: C, text: string) {
    read(line + "\n" + text) == After([c], read(text))
  }

  ghost predicate ReadsPart<C>(read: Reader<C>, line: string, c: C, k: nat)
    requires k <= |line|
  {
    read(line[..k]) == Ok(if k == |line| then [c] else [])
  }

  /** Reads each line as its claim, in front of anything, and a part of a line as nothing. */
  ghost predicate ReadsLines<C>(read: Reader<C>, lines: seq<string>, claims: seq<C>) {
    && |lines| == |claims| && read("") == Ok([])
    && (forall i, text :: 0 <= i < |lines| ==> ReadsFront(read, lines[i], claims[i], text))
    && (forall i, k :: 0 <= i < |lines| && 0 <= k <= |lines[i]| ==> ReadsPart(read, lines[i], claims[i], k))
  }

  lemma TailsRead<C>(read: Reader<C>, lines: seq<string>, claims: seq<C>)
    requires ReadsLines(read, lines, claims) && lines != []
    ensures ReadsLines(read, lines[1..], claims[1..])
  {
  }

  lemma {:induction false} ReadingLines<C>(read: Reader<C>, lines: seq<string>, claims: seq<C>, t: nat)
    requires ReadsLines(read, lines, claims) && t <= |Joined(lines)|
    ensures read(Joined(lines)[..t]) == Ok(claims[..WholeLines(lines, t)])
    decreases |lines|
  {
    if lines == [] {
      assert Joined(lines)[..t] == "" && claims[..0] == [];
    } else if t <= |lines[0]| {
      assert Joined(lines)[..t] == lines[0][..t];
      assert claims[..1] == [claims[0]] && claims[..0] == [];
      assert ReadsPart(read, lines[0], claims[0], t);
    } else {
      var rest, m := Joined(lines[1..]), t - |lines[0]| - 1;
      assert Joined(lines)[..t] == lines[0] + "\n" + rest[..m];
      FirstAndRest(claims, WholeLines(lines[1..], m));
      TailsRead(read, lines, claims);
      ReadingLines(read, lines[1..], claims[1..], m);
      assert ReadsFront(read, lines[0], claims[0], rest[..m]);
    }
  }

  lemma FirstAndRest<C>(claims: seq<C>, n: nat)
    requires n < |claims|
    ensures claims[..1 + n] == [claims[0]] + claims[1..][..n]
  {
  }

  lemma NothingToRead<C>(codec: Codec<C>)
    ensures Parse(codec, "") == Ok([])
  {
    assert SplitLines(Complete("")) == [];
    AfterConcat<C>([], [], Ok([]));
  }

  function ReaderOf<C>(codec: Codec<C>): Reader<C> {
    text => Parse(codec, text)
  }

  lemma FilesAreRead<C(!new)>(codec: Codec<C>, claims: seq<C>)
    requires Faithful(codec)
    ensures ReadsLines(ReaderOf(codec), Lines(codec, claims), claims)
  {
    var read, lines := ReaderOf(codec), Lines(codec, claims);
    NothingToRead(codec);
    forall i, text | 0 <= i < |lines| ensures ReadsFront(read, lines[i], claims[i], text) {
      LinesAreSound(codec, claims[i]);
      ParseStep(codec, lines[i], claims[i], text);
    }
    forall i, k | 0 <= i < |lines| && 0 <= k <= |lines[i]| ensures ReadsPart(read, lines[i], claims[i], k) {
      LinesAreSound(codec, claims[i]);
      ParsePartial(codec, lines[i], claims[i], k);
    }
  }

  lemma {:induction false} ReadingAll<C>(read: Reader<C>, lines: seq<string>, claims: seq<C>)
    requires ReadsLines(read, lines, claims)
    ensures read(Joined(lines)) == Ok(claims)
  {
    assert lines[..|lines|] == lines && claims[..|claims|] == claims && Joined(lines)[..|Joined(lines)|] == Joined(lines);
    FinishedLinesAreRead(lines, |lines|, |Joined(lines)|);
    ReadingLines(read, lines, claims, |Joined(lines)|);
  }

  /** A read of any prefix of the file answers with a prefix of the recorded claims: every claim
      whose object lies within it, no other, and never an error. */
  lemma ReadingAPrefix<C(!new)>(codec: Codec<C>, claims: seq<C>, t: nat)
    requires Faithful(codec) && t <= |Flatten(codec, claims)|
    ensures Parse(codec, Flatten(codec, claims)[..t]) == Ok(claims[..WholeLines(Lines(codec, claims), t)])
  {
    FilesAreRead(codec, claims);
    ReadingLines(ReaderOf(codec), Lines(codec, claims), claims, t);
    assert ReaderOf(codec)(Flatten(codec, claims)[..t]) == Parse(codec, Flatten(codec, claims)[..t]);
  }

  lemma ReadingItAll<C(!new)>(codec: Codec<C>, claims: seq<C>)
    requires Faithful(codec)
    ensures Parse(codec, Flatten(codec, claims)) == Ok(claims)
  {
    FilesAreRead(codec, claims);
    ReadingAll(ReaderOf(codec), Lines(codec, claims), claims);
    assert ReaderOf(codec)(Flatten(codec, claims)) == Parse(codec, Flatten(codec, claims));
  }

  /** What such a read leaves out is at most the claim being written: a prefix that reaches the
      end of the k-th line holds at least the first k claims. */
  lemma {:induction false} FinishedLinesAreRead(lines: seq<string>, k: nat, t: nat)
    requires k <= |lines| && |Joined(lines[..k])| <= t
    ensures WholeLines(lines, t) >= k
    decreases k
  {
    if k > 0 {
      assert lines[..k][1..] == lines[1..][..k - 1];
      if t > |lines[0]| {
        FinishedLinesAreRead(lines[1..], k - 1, t - |lines[0]| - 1);
      }
    }
  }

  lemma {:induction false} JoinedOneMore(lines: seq<string>, line: string)
    ensures Joined(lines + [line]) == Joined(lines) + line + "\n"
    decreases |lines|
  {
    if lines == [] {
      assert [line][1..] == [];
      assert line + "\n" + "" == line + "\n";
    } else {
      assert (lines + [line])[1..] == lines[1..] + [line];
      JoinedOneMore(lines[1..], line);
    }
  }

  lemma FlattenOneMore<C>(codec: Codec<C>, claims: seq<C>, c: C)
    ensures Flatten(codec, claims + [c]) == Flatten(codec, claims) + codec.Line(c) + "\n"
  {
    assert Lines(codec, claims + [c]) == Lines(codec, claims) + [codec.Line(c)];
    JoinedOneMore(Lines(codec, claims), codec.Line(c));
  }

  // ---------------------------------------------------------------- claim ids

  predicate Decimal(c: char) { '0' <= c <= '9' }

  function DigitsOf(n: nat): (s: string)
    ensures s != "" && forall i :: 0 <= i < |s| ==> Decimal(s[i])
  {
    if n < 10 then ["0123456789"[n]] else DigitsOf(n / 10) + ["0123456789"[n % 10]]
  }

  function Pad4(s: string): string
    decreases 4 - |s|
  {
    if |s| < 4 then Pad4("0" + s) else s
  }

  function FormatId(n: nat): string { "c-" + Pad4(DigitsOf(n)) }

  function NumberIn(digits: string): nat
    requires forall i :: 0 <= i < |digits| ==> Decimal(digits[i])
    decreases |digits|
  {
    if digits == "" then 0
    else
      assert Decimal(digits[|digits| - 1]);
      10 * NumberIn(digits[..|digits| - 1]) + (digits[|digits| - 1] as int - '0' as int)
  }

  /** The number in an id of the form c-<digits>; any other id has none. */
  function NumberOf(id: string): Option<nat> {
    if |id| > 2 && id[..2] == "c-" && forall i :: 2 <= i < |id| ==> Decimal(id[i])
    then Some(NumberIn(id[2..]))
    else None
  }

  lemma {:induction false} NumberInDigits(n: nat)
    ensures NumberIn(DigitsOf(n)) == n
  {
    if n >= 10 {
      NumberInDigits(n / 10);
      var s := DigitsOf(n);
      assert s[..|s| - 1] == DigitsOf(n / 10);
      assert s[|s| - 1] == "0123456789"[n % 10];
    }
  }

  lemma {:induction false} LeadingZero(digits: string)
    requires forall i :: 0 <= i < |digits| ==> Decimal(digits[i])
    ensures NumberIn("0" + digits) == NumberIn(digits)
    decreases |digits|
  {
    var s := "0" + digits;
    if digits == "" {
      assert s[..0] == "";
    } else {
      assert s[..|s| - 1] == "0" + digits[..|digits| - 1];
      LeadingZero(digits[..|digits| - 1]);
    }
  }

  lemma {:induction false} Padded(s: string)
    requires forall i :: 0 <= i < |s| ==> Decimal(s[i])
    ensures forall i :: 0 <= i < |Pad4(s)| ==> Decimal(Pad4(s)[i])
    ensures NumberIn(Pad4(s)) == NumberIn(s) && |Pad4(s)| >= |s|
    decreases 4 - |s|
  {
    if |s| < 4 {
      LeadingZero(s);
      Padded("0" + s);
    }
  }

  /** An id is read back as the number it was made from, however many digits that takes. */
  lemma IdReadsBack(n: nat)
    ensures NumberOf(FormatId(n)) == Some(n)
  {
    NumberInDigits(n);
    Padded(DigitsOf(n));
    var digits := Pad4(DigitsOf(n));
    assert FormatId(n)[2..] == digits && FormatId(n)[..2] == "c-";
  }

  lemma {:induction false} DigitsAreAsManyAsNeeded(n: nat)
    ensures |DigitsOf(n)| > 1 ==> DigitsOf(n)[0] != '0'
    ensures n >= 10 ==> |DigitsOf(n)| == |DigitsOf(n / 10)| + 1
  {
    if n >= 10 {
      DigitsAreAsManyAsNeeded(n / 10);
      assert DigitsOf(n)[0] == DigitsOf(n / 10)[0];
      if n < 100 {
        assert DigitsOf(n / 10) == ["0123456789"[n / 10]];
      }
    }
  }

  lemma {:induction false} PaddedToFour(s: string)
    ensures |Pad4(s)| == (if |s| < 4 then 4 else |s|)
    ensures forall i :: 0 <= i < |Pad4(s)| - |s| ==> Pad4(s)[i] == '0'
    ensures Pad4(s)[|Pad4(s)| - |s|..] == s
    decreases 4 - |s|
  {
    if |s| < 4 {
      PaddedToFour("0" + s);
      var padded := Pad4("0" + s);
      assert padded[|padded| - |s|..] == padded[|padded| - |s| - 1..][1..];
    }
  }

  /** An id is four digits wide, or as wide as its number needs. */
  lemma IdsAreWritten(n: nat)
    ensures var id := FormatId(n);
      && id[..2] == "c-" && |id| == 2 + (if |DigitsOf(n)| < 4 then 4 else |DigitsOf(n)|)
      && id[|id| - |DigitsOf(n)|..] == DigitsOf(n)
      && forall i :: 2 <= i < |id| - |DigitsOf(n)| ==> id[i] == '0'
  {
    PaddedToFour(DigitsOf(n));
    var id, padded := FormatId(n), Pad4(DigitsOf(n));
    assert id[2..] == padded;
    assert id[|id| - |DigitsOf(n)|..] == padded[|padded| - |DigitsOf(n)|..];
  }

  /** The largest number used in an id so far, or 0. */
  function MaxNumber<C>(codec: Codec<C>, claims: seq<C>): nat
    decreases |claims|
  {
    if claims == [] then 0
    else
      var before := MaxNumber(codec, claims[..|claims| - 1]);
      match NumberOf(codec.id(claims[|claims| - 1]))
      case Some(n) => if n > before then n else before
      case None => before
  }

  lemma {:induction false} MaxNumberIsAboveAll<C>(codec: Codec<C>, claims: seq<C>, i: nat)
    requires i < |claims| && NumberOf(codec.id(claims[i])).Some?
    ensures NumberOf(codec.id(claims[i])).value <= MaxNumber(codec, claims)
    decreases |claims|
  {
    if i < |claims| - 1 {
      MaxNumberIsAboveAll(codec, claims[..|claims| - 1], i);
    }
  }

  function IdAfter<C>(codec: Codec<C>, log: seq<C>): string { FormatId(MaxNumber(codec, log) + 1) }

  method NextClaimId<C>(codec: Codec<C>, claims: seq<C>) returns (id: string)
    ensures id == IdAfter(codec, claims)
  {
    var n: nat := 0;
    var i := 0;
    while i < |claims|
      invariant i <= |claims| && n == MaxNumber(codec, claims[..i])
    {
      assert claims[..i + 1][..i] == claims[..i];
      match NumberOf(codec.id(claims[i])) {
        case Some(m) => n := if m > n then m else n;
        case None =>
      }
      i := i + 1;
    }
    assert claims[..i] == claims;
    id := FormatId(n + 1);
  }

  /** The next id is one no claim of the ledger has. */
  lemma NextIdIsFresh<C>(codec: Codec<C>, claims: seq<C>, i: nat)
    requires i < |claims|
    ensures codec.id(claims[i]) != IdAfter(codec, claims)
  {
    IdReadsBack(MaxNumber(codec, claims) + 1);
    if NumberOf(codec.id(claims[i])).Some? {
      MaxNumberIsAboveAll(codec, claims, i);
    }
  }
}
