// Why a torn ledger line cannot be mistaken for a whole one: no proper prefix
// of a JSON object is a JSON text (section 4 of RFC 8259), and a serialized
// string holds no line break (section 7 of RFC 8259).
//
// The texts below are a superset of JSON: commas, colons and white space may
// stand anywhere between values. What no such text can be, no JSON text is.
module Json {
  import opened Wrappers


  /** One character of a string body, or one escaped with a backslash. */
  datatype Unit = Bare(c: char) | Escaped(c: char)

  datatype Value =
    | Literal(text: string)      // a number, true, false or null
    | Quoted(body: seq<Unit>)
    | Array(items: Body)
    | Object(members: Body)

  datatype Body = End | Between(c: char, rest: Body) | Holding(v: Value, tail: Body)

  /** Characters that may stand between values. */
  predicate Neutral(c: char) {
    c == ' ' || c == '\t' || c == '\n' || c == '\r' || c == ',' || c == ':'
  }

  predicate Structural(c: char) {
    c == '{' || c == '}' || c == '[' || c == ']' || c == '"' || c == '\\'
  }

  predicate Valid(v: Value) {
    match v
    case Literal(text) => text != "" && forall i :: 0 <= i < |text| ==> !Structural(text[i])
    case Quoted(body) => forall u :: u in body && u.Bare? ==> u.c != '"' && u.c != '\\'
    case Array(items) => ValidBody(items)
    case Object(members) => ValidBody(members)
  }

  predicate ValidBody(b: Body) {
    match b
    case End => true
    case Between(c, rest) => Neutral(c) && ValidBody(rest)
    case Holding(v, tail) => Valid(v) && ValidBody(tail)
  }

  function UnitText(u: Unit): string {
    match u
    case Bare(c) => [c]
    case Escaped(c) => ['\\', c]
  }

  function UnitsText(body: seq<Unit>): string {
    if body == [] then "" else UnitText(body[0]) + UnitsText(body[1..])
  }

  function Text(v: Value): string {
    match v
    case Literal(text) => text
    case Quoted(body) => "\"" + UnitsText(body) + "\""
    case Array(items) => "[" + BodyText(items) + "]"
    case Object(members) => "{" + BodyText(members) + "}"
  }

  function BodyText(b: Body): string {
    match b
    case End => ""
    case Between(c, rest) => [c] + BodyText(rest)
    case Holding(v, tail) => Text(v) + BodyText(tail)
  }

  predicate AllNeutral(s: string) {
    forall i :: 0 <= i < |s| ==> Neutral(s[i])
  }

  ghost predicate Surrounds(s: string, before: string, v: Value, after: string) {
    AllNeutral(before) && Valid(v) && AllNeutral(after) && s == before + Text(v) + after
  }

  /** White space, a value, white space: every JSON text is one of these. */
  ghost predicate IsText(s: string) {
    exists before, v, after :: Surrounds(s, before, v, after)
  }

  // ---------------------------------------------------------------- a scanner that counts depth

  /** A backslash outside a string is no JSON, whatever follows. */
  datatype Mode = Outside | InString | AfterBackslash | Broken

  datatype Scan = Scan(depth: int, mode: Mode)

  function Step(s: Scan, c: char): Scan {
    match s.mode
    case Broken => s
    case AfterBackslash => Scan(s.depth, InString)
    case InString =>
      if c == '\\' then Scan(s.depth, AfterBackslash)
      else if c == '"' then Scan(s.depth, Outside)
      else s
    case Outside =>
      if c == '"' then Scan(s.depth, InString)
      else if c == '{' || c == '[' then Scan(s.depth + 1, Outside)
      else if c == '}' || c == ']' then Scan(s.depth - 1, Outside)
      else if c == '\\' then Scan(s.depth, Broken)
      else s
  }

  function Run(s: Scan, text: string): Scan
    decreases |text|
  {
    if text == "" then s else Run(Step(s, text[0]), text[1..])
  }

  lemma {:induction false} RunConcat(s: Scan, a: string, b: string)
    ensures Run(s, a + b) == Run(Run(s, a), b)
    decreases |a|
  {
    if a == "" {
      assert a + b == b;
    } else {
      assert (a + b)[1..] == a[1..] + b;
      RunConcat(Step(s, a[0]), a[1..], b);
    }
  }

  lemma {:induction false} RunUnstructured(s: Scan, text: string)
    requires s.mode == Outside && forall i :: 0 <= i < |text| ==> !Structural(text[i])
    ensures Run(s, text) == s
    decreases |text|
  {
    if text != "" {
      RunUnstructured(s, text[1..]);
    }
  }

  lemma RunUnit(d: int, u: Unit)
    requires u.Bare? ==> u.c != '"' && u.c != '\\'
    ensures Run(Scan(d, InString), UnitText(u)) == Scan(d, InString)
  {
    if u.Escaped? {
      RunConcat(Scan(d, InString), ['\\'], [u.c]);
      assert UnitText(u) == ['\\'] + [u.c];
    }
  }

  /** A string body never leaves the string, and ends just inside it. */
  lemma {:induction false} RunUnits(d: int, body: seq<Unit>, k: nat)
    requires Valid(Quoted(body)) && k <= |UnitsText(body)|
    ensures Run(Scan(d, InString), UnitsText(body)[..k]).depth == d
    ensures k == |UnitsText(body)| ==> Run(Scan(d, InString), UnitsText(body)[..k]) == Scan(d, InString)
    decreases |body|
  {
    if body != [] {
      var head, rest := UnitText(body[0]), UnitsText(body[1..]);
      assert body[0] in body && Valid(Quoted(body[1..]));
      RunUnit(d, body[0]);
      if k >= |head| {
        assert UnitsText(body)[..k] == head + rest[..k - |head|];
        RunConcat(Scan(d, InString), head, rest[..k - |head|]);
        RunUnits(d, body[1..], k - |head|);
      } else if k == 1 {
        assert UnitsText(body)[..k] == [head[0]];
      }
    }
  }

  lemma RunBracketed(s: Scan, open: char, middle: string, close: char)
    ensures Run(s, [open] + middle + [close]) == Step(Run(Step(s, open), middle), close)
  {
    RunConcat(s, [open] + middle, [close]);
    RunConcat(s, [open], middle);
  }

  /** A whole value leaves the scanner where it found it. */
  lemma {:induction false} RunValue(d: int, v: Value)
    requires Valid(v)
    ensures Run(Scan(d, Outside), Text(v)) == Scan(d, Outside)
    decreases v
  {
    match v
    case Literal(text) =>
      RunUnstructured(Scan(d, Outside), text);
    case Quoted(body) =>
      RunUnits(d, body, |UnitsText(body)|);
      assert UnitsText(body)[..|UnitsText(body)|] == UnitsText(body);
      RunBracketed(Scan(d, Outside), '"', UnitsText(body), '"');
    case Array(items) =>
      RunBody(d + 1, items);
      RunBracketed(Scan(d, Outside), '[', BodyText(items), ']');
    case Object(members) =>
      RunBody(d + 1, members);
      RunBracketed(Scan(d, Outside), '{', BodyText(members), '}');
  }

  lemma {:induction false} RunBody(d: int, b: Body)
    requires ValidBody(b)
    ensures Run(Scan(d, Outside), BodyText(b)) == Scan(d, Outside)
    decreases b
  {
    match b
    case End =>
    case Between(c, rest) =>
      RunConcat(Scan(d, Outside), [c], BodyText(rest));
      RunBody(d, rest);
    case Holding(v, tail) =>
      RunConcat(Scan(d, Outside), Text(v), BodyText(tail));
      RunValue(d, v);
      RunBody(d, tail);
  }

  // ---------------------------------------------------------------- inside, the depth stays up

  lemma BracketedStaysUp(d: int, open: char, middle: string, close: char, k: nat)
    requires open == '{' || open == '['
    requires k <= |middle| && Run(Scan(d + 1, Outside), middle[..k]).depth >= d + 1
    ensures Run(Scan(d, Outside), ([open] + middle + [close])[..k + 1]).depth >= d + 1
  {
    assert ([open] + middle + [close])[..k + 1] == [open] + middle[..k];
    RunConcat(Scan(d, Outside), [open], middle[..k]);
  }

  lemma {:induction false} ValueStaysUp(d: int, v: Value, k: nat)
    requires Valid(v) && k <= |Text(v)|
    ensures Run(Scan(d, Outside), Text(v)[..k]).depth >= d
    ensures (v.Object? || v.Array?) && 0 < k < |Text(v)| ==> Run(Scan(d, Outside), Text(v)[..k]).depth >= d + 1
    decreases v
  {
    RunValue(d, v);
    if k == |Text(v)| {
      assert Text(v)[..k] == Text(v);
    } else if k > 0 {
      match v
      case Literal(text) =>
        RunUnstructured(Scan(d, Outside), text[..k]);
      case Quoted(body) =>
        RunUnits(d, body, k - 1);
        assert Text(v)[..k] == ['"'] + UnitsText(body)[..k - 1];
        RunConcat(Scan(d, Outside), ['"'], UnitsText(body)[..k - 1]);
      case Array(items) =>
        BodyStaysUp(d + 1, items, k - 1);
        BracketedStaysUp(d, '[', BodyText(items), ']', k - 1);
      case Object(members) =>
        BodyStaysUp(d + 1, members, k - 1);
        BracketedStaysUp(d, '{', BodyText(members), '}', k - 1);
    }
  }

  lemma {:induction false} BodyStaysUp(d: int, b: Body, k: nat)
    requires ValidBody(b) && k <= |BodyText(b)|
    ensures Run(Scan(d, Outside), BodyText(b)[..k]).depth >= d
    decreases b
  {
    match b
    case End =>
    case Between(c, rest) =>
      if k > 0 {
        assert BodyText(b)[..k] == [c] + BodyText(rest)[..k - 1];
        RunConcat(Scan(d, Outside), [c], BodyText(rest)[..k - 1]);
        BodyStaysUp(d, rest, k - 1);
      }
    case Holding(v, tail) =>
      if k <= |Text(v)| {
        assert BodyText(b)[..k] == Text(v)[..k];
        ValueStaysUp(d, v, k);
      } else {
        assert BodyText(b)[..k] == Text(v) + BodyText(tail)[..k - |Text(v)|];
        RunConcat(Scan(d, Outside), Text(v), BodyText(tail)[..k - |Text(v)|]);
        RunValue(d, v);
        BodyStaysUp(d, tail, k - |Text(v)|);
      }
  }

  lemma TextsBalance(s: string)
    requires IsText(s)
    ensures s != "" && Run(Scan(0, Outside), s) == Scan(0, Outside)
  {
    var before, v, after :| Surrounds(s, before, v, after);
    RunUnstructured(Scan(0, Outside), before);
    RunUnstructured(Scan(0, Outside), after);
    RunValue(0, v);
    RunConcat(Scan(0, Outside), before + Text(v), after);
    RunConcat(Scan(0, Outside), before, Text(v));
  }

  /** The fact the ledger's torn reads rest on: of all the prefixes of an object's text, only
      the whole of it is a JSON text. */
  lemma OnlyTheWholeObjectIsAText(v: Value, k: nat)
    requires Valid(v) && v.Object? && k <= |Text(v)|
    ensures IsText(Text(v)[..k]) <==> k == |Text(v)|
  {
    if k == |Text(v)| {
      assert Text(v)[..k] == "" + Text(v) + "";
      assert Surrounds(Text(v)[..k], "", v, "");
    } else {
      ValueStaysUp(0, v, k);
      if IsText(Text(v)[..k]) {
        TextsBalance(Text(v)[..k]);
        assert false;
      }
    }
  }

  // ---------------------------------------------------------------- writing

  /** What is serialized. A number is the text it is written as. */
  datatype Tree =
    | Null
    | Bool(b: bool)
    | Number(digits: string)
    | Str(s: string)
    | List(items: Items)
    | Dict(entries: Entries)

  datatype Items = NoItems | Item(head: Tree, rest: Items)
  datatype Entries = NoEntries | Entry(key: string, value: Tree, others: Entries)

  predicate Printable(c: char) { ' ' <= c <= '~' }

  predicate AllPrintable(s: string) {
    forall i :: 0 <= i < |s| ==> Printable(s[i])
  }

  predicate NumbersAreWritten(t: Tree) {
    match t
    case Number(digits) =>
      digits != "" && digits !in {"null", "true", "false"} && AllPrintable(digits) && forall i :: 0 <= i < |digits| ==> !Structural(digits[i])
    case List(items) => NumbersInItems(items)
    case Dict(entries) => NumbersInEntries(entries)
    case _ => true
  }

  predicate NumbersInItems(items: Items) {
    items.NoItems? || (NumbersAreWritten(items.head) && NumbersInItems(items.rest))
  }

  predicate NumbersInEntries(entries: Entries) {
    entries.NoEntries? || (NumbersAreWritten(entries.value) && NumbersInEntries(entries.others))
  }

  function HexDigit(n: nat): char
    requires n < 16
  {
    "0123456789abcdef"[n]
  }

  function Hex4(n: nat): seq<Unit>
    requires n < 0x10000
  {
    [Escaped('u'), Bare(HexDigit(n / 4096)), Bare(HexDigit(n / 256 % 16)),
     Bare(HexDigit(n / 16 % 16)), Bare(HexDigit(n % 16))]
  }

  /** One character as the encoder writes it when only ASCII may come out. */
  function EscapeChar(c: char): seq<Unit> {
    if c == '"' || c == '\\' then [Escaped(c)]
    else if c == '\n' then [Escaped('n')]
    else if c == '\r' then [Escaped('r')]
    else if c == '\t' then [Escaped('t')]
    else if c == '\U{0C}' then [Escaped('f')]
    else if c == '\U{08}' then [Escaped('b')]
    else if Printable(c) then [Bare(c)]
    else
      var n := c as int;
      if n < 0x10000 then Hex4(n)
      else Hex4(0xD800 + (n - 0x10000) / 0x400 % 0x400) + Hex4(0xDC00 + (n - 0x10000) % 0x400)
  }

  function Escape(s: string): seq<Unit> {
    if s == "" then [] else EscapeChar(s[0]) + Escape(s[1..])
  }

  /** The encoder, with its ", " and ": " separators. */
  function Dump(t: Tree): Value {
    match t
    case Null => Literal("null")
    case Bool(b) => Literal(if b then "true" else "false")
    case Number(digits) => Literal(digits)
    case Str(s) => Quoted(Escape(s))
    case List(items) => Array(DumpItems(items))
    case Dict(entries) => Object(DumpEntries(entries))
  }

  function DumpItems(items: Items): Body {
    match items
    case NoItems => End
    case Item(head, NoItems) => Holding(Dump(head), End)
    case Item(head, rest) => Holding(Dump(head), Between(',', Between(' ', DumpItems(rest))))
  }

  function DumpEntries(entries: Entries): Body {
    match entries
    case NoEntries => End
    case Entry(key, value, others) =>
      Holding(Quoted(Escape(key)), Between(':', Between(' ', Holding(Dump(value),
        if others.NoEntries? then End else Between(',', Between(' ', DumpEntries(others)))))))
  }

  predicate CleanUnits(body: seq<Unit>) {
    forall u :: u in body ==> Printable(u.c) && (u.Bare? ==> u.c != '"' && u.c != '\\')
  }

  // ---------------------------------------------------------------- strings read back

  function HexValue(c: char): Option<nat> {
    if '0' <= c <= '9' then Some(c as int - '0' as int)
    else if 'a' <= c <= 'f' then Some(c as int - 'a' as int + 10)
    else None
  }

  function ReadHex(body: seq<Unit>): Option<nat>
    requires |body| == 4
  {
    if forall i :: 0 <= i < 4 ==> body[i].Bare? && HexValue(body[i].c).Some? then
      Some(4096 * HexValue(body[0].c).value + 256 * HexValue(body[1].c).value
           + 16 * HexValue(body[2].c).value + HexValue(body[3].c).value)
    else None
  }

  /** The sixteen-bit unit of a `u` escape in front. */
  function UnitInFront(body: seq<Unit>): Option<nat> {
    if |body| >= 5 && body[0] == Escaped('u') then ReadHex(body[1..5]) else None
  }

  function ShortEscape(c: char): Option<char> {
    if c == '"' || c == '\\' then Some(c)
    else if c == 'n' then Some('\n')
    else if c == 'r' then Some('\r')
    else if c == 't' then Some('\t')
    else if c == 'f' then Some('\U{0C}')
    else if c == 'b' then Some('\U{08}')
    else None
  }

  /** The character in front of a body and how many units it takes (section 7 of RFC 8259). */
  function CharInFront(body: seq<Unit>): Option<(char, nat)> {
    if body == [] then None
    else if body[0].Bare? then Some((body[0].c, 1))
    else if body[0].c != 'u' then
      match ShortEscape(body[0].c)
      case Some(c) => Some((c, 1))
      case None => None
    else
      match UnitInFront(body)
      case None => None
      case Some(n) =>
        if n < 0xD800 || 0xE000 <= n < 0x10000 then Some((n as char, 5))
        else
          match UnitInFront(body[5..])
          case None => None
          case Some(m) =>
            if 0xD800 <= n < 0xDC00 && 0xDC00 <= m < 0xE000
            then Some(((0x10000 + (n - 0xD800) * 0x400 + (m - 0xDC00)) as char, 10))
            else None
  }

  function ReadUnits(body: seq<Unit>): Option<string>
    decreases |body|
  {
    if body == [] then Some("")
    else
      match CharInFront(body)
      case None => None
      case Some((c, n)) =>
        if n == 0 || n > |body| then None
        else
          match ReadUnits(body[n..])
          case None => None
          case Some(rest) => Some([c] + rest)
  }

  lemma HexReadsBack(n: nat)
    requires n < 16
    ensures HexValue(HexDigit(n)) == Some(n)
  {
  }

  lemma FourDigits(n: nat)
    requires n < 0x10000
    ensures n / 4096 < 16
    ensures 4096 * (n / 4096) + 256 * (n / 256 % 16) + 16 * (n / 16 % 16) + n % 16 == n
  {
    assert n / 256 == 16 * (n / 4096) + n / 256 % 16;
    assert n / 16 == 16 * (n / 256) + n / 16 % 16;
  }

  lemma DigitsReadBack(n: nat)
    requires n < 0x10000
    ensures ReadHex(Hex4(n)[1..]) == Some(n)
  {
    FourDigits(n);
    HexReadsBack(n / 4096);
    HexReadsBack(n / 256 % 16);
    HexReadsBack(n / 16 % 16);
    HexReadsBack(n % 16);
  }

  lemma UnitReadsBack(n: nat, rest: seq<Unit>)
    requires n < 0x10000
    ensures UnitInFront(Hex4(n) + rest) == Some(n) && (Hex4(n) + rest)[5..] == rest && (Hex4(n) + rest)[0] == Escaped('u')
  {
    DigitsReadBack(n);
    InFront(Hex4(n), rest);
  }

  lemma InFront(five: seq<Unit>, rest: seq<Unit>)
    requires |five| == 5
    ensures (five + rest)[0] == five[0] && (five + rest)[1..5] == five[1..] && (five + rest)[5..] == rest
  {
  }

  lemma OneUnitReadsBack(u: Unit, c: char, rest: seq<Unit>)
    requires u == Bare(c) || (u.Escaped? && u.c != 'u' && ShortEscape(u.c) == Some(c))
    ensures CharInFront([u] + rest) == Some((c, 1)) && ([u] + rest)[1..] == rest
  {
    assert ([u] + rest)[0] == u;
  }

  lemma FiveUnitsReadBack(n: nat, rest: seq<Unit>)
    requires n < 0xD800 || 0xE000 <= n < 0x10000
    ensures CharInFront(Hex4(n) + rest) == Some((n as char, 5)) && (Hex4(n) + rest)[5..] == rest
  {
    UnitReadsBack(n, rest);
  }

  lemma Halves(n: nat) returns (high: nat, low: nat)
    requires 0x10000 <= n < 0x11_0000
    ensures high == 0xD800 + (n - 0x10000) / 0x400 % 0x400 && low == 0xDC00 + (n - 0x10000) % 0x400
    ensures 0xD800 <= high < 0xDC00 <= low < 0xE000 && 0x10000 + (high - 0xD800) * 0x400 + (low - 0xDC00) == n
  {
    high, low := 0xD800 + (n - 0x10000) / 0x400 % 0x400, 0xDC00 + (n - 0x10000) % 0x400;
    assert (n - 0x10000) / 0x400 < 0x400;
  }

  lemma PairIs(high: nat, low: nat, rest: seq<Unit>)
    requires 0xD800 <= high < 0xDC00 <= low < 0xE000
    ensures var body := Hex4(high) + Hex4(low) + rest;
      CharInFront(body) == Some(((0x10000 + (high - 0xD800) * 0x400 + (low - 0xDC00)) as char, 10)) && body[10..] == rest
  {
    assert Hex4(high) + Hex4(low) + rest == Hex4(high) + (Hex4(low) + rest);
    UnitReadsBack(high, Hex4(low) + rest);
    UnitReadsBack(low, rest);
    assert (Hex4(high) + (Hex4(low) + rest))[10..] == (Hex4(low) + rest)[5..];
  }

  lemma CharReadsBack(c: char, rest: seq<Unit>)
    ensures CharInFront(EscapeChar(c) + rest) == Some((c, |EscapeChar(c)|))
    ensures (EscapeChar(c) + rest)[|EscapeChar(c)|..] == rest
  {
    var n := c as int;
    if |EscapeChar(c)| == 1 {
      OneUnitReadsBack(EscapeChar(c)[0], c, rest);
      assert EscapeChar(c) == [EscapeChar(c)[0]];
    } else if n < 0x10000 {
      FiveUnitsReadBack(n, rest);
    } else {
      var high, low := Halves(n);
      assert EscapeChar(c) == Hex4(high) + Hex4(low);
      PairIs(high, low, rest);
    }
  }

  /** Every string reads back from its escapes, so no two strings are written alike. */
  lemma {:induction false} StringsReadBack(s: string)
    ensures ReadUnits(Escape(s)) == Some(s)
    decreases |s|
  {
    if s != "" {
      CharReadsBack(s[0], Escape(s[1..]));
      StringsReadBack(s[1..]);
      assert [s[0]] + s[1..] == s;
    }
  }

  // ---------------------------------------------------------------- values read back

  /** The tree a value stands for, laid out as the encoder lays it out. */
  function Load(v: Value): Option<Tree> {
    match v
    case Literal(text) =>
      Some(if text == "null" then Null else if text == "true" then Bool(true) else if text == "false" then Bool(false)
           else Number(text))
    case Quoted(body) => (match ReadUnits(body) case Some(s) => Some(Str(s)) case None => None)
    case Array(items) => (match LoadItems(items) case Some(i) => Some(List(i)) case None => None)
    case Object(members) => (match LoadEntries(members) case Some(e) => Some(Dict(e)) case None => None)
  }

  function LoadItems(b: Body): Option<Items> {
    match b
    case End => Some(NoItems)
    case Between(_, _) => None
    case Holding(v, tail) =>
      match (Load(v), LoadMoreItems(tail))
      case (Some(head), Some(rest)) => Some(Item(head, rest))
      case _ => None
  }

  function LoadMoreItems(b: Body): Option<Items> {
    match b
    case End => Some(NoItems)
    case Between(',', Between(' ', rest)) => if rest.Holding? then LoadItems(rest) else None
    case _ => None
  }

  function LoadEntries(b: Body): Option<Entries> {
    match b
    case End => Some(NoEntries)
    case Holding(Quoted(key), Between(':', Between(' ', Holding(v, tail)))) =>
      (match (ReadUnits(key), Load(v), LoadMoreEntries(tail))
       case (Some(name), Some(value), Some(others)) => Some(Entry(name, value, others))
       case _ => None)
    case _ => None
  }

  function LoadMoreEntries(b: Body): Option<Entries> {
    match b
    case End => Some(NoEntries)
    case Between(',', Between(' ', rest)) => if rest.Holding? then LoadEntries(rest) else None
    case _ => None
  }

  /** What is written reads back, members and elements in order, so no two trees are written alike. */
  lemma {:induction false} DumpReadsBack(t: Tree)
    requires NumbersAreWritten(t)
    ensures Load(Dump(t)) == Some(t)
  {
    match t
    case Null =>
    case Bool(_) =>
    case Number(_) =>
    case Str(s) => StringsReadBack(s);
    case List(items) => ItemsReadBack(items);
    case Dict(entries) => EntriesReadBack(entries);
  }

  lemma {:induction false} ItemsReadBack(items: Items)
    requires NumbersInItems(items)
    ensures LoadItems(DumpItems(items)) == Some(items)
  {
    if items.Item? {
      DumpReadsBack(items.head);
      ItemsReadBack(items.rest);
    }
  }

  lemma {:induction false} EntriesReadBack(entries: Entries)
    requires NumbersInEntries(entries)
    ensures LoadEntries(DumpEntries(entries)) == Some(entries)
  {
    if entries.Entry? {
      StringsReadBack(entries.key);
      DumpReadsBack(entries.value);
      EntriesReadBack(entries.others);
    }
  }

  lemma EscapedCharIsClean(c: char)
    ensures CleanUnits(EscapeChar(c))
  {
    var n := c as int;
    if 0x10000 <= n {
      HexIsClean(0xD800 + (n - 0x10000) / 0x400 % 0x400);
      HexIsClean(0xDC00 + (n - 0x10000) % 0x400);
    } else {
      HexIsClean(n);
    }
  }

  lemma HexIsClean(n: nat)
    requires n < 0x10000
    ensures CleanUnits(Hex4(n))
  {
    assert forall i :: 0 <= i < 16 ==> Printable("0123456789abcdef"[i]) && "0123456789abcdef"[i] != '"' && "0123456789abcdef"[i] != '\\';
  }

  lemma {:induction false} EscapedIsClean(s: string)
    ensures CleanUnits(Escape(s))
    decreases |s|
  {
    if s != "" {
      EscapedCharIsClean(s[0]);
      EscapedIsClean(s[1..]);
    }
  }

  lemma {:induction false} CleanUnitsPrint(body: seq<Unit>)
    requires CleanUnits(body)
    ensures Valid(Quoted(body)) && AllPrintable(UnitsText(body))
    decreases |body|
  {
    if body != [] {
      assert body[0] in body;
      CleanUnitsPrint(body[1..]);
    }
  }

  lemma PrintableAround(open: char, middle: string, close: char)
    requires Printable(open) && AllPrintable(middle) && Printable(close)
    ensures AllPrintable([open] + middle + [close])
  {
  }

  lemma StringIsOneLine(s: string)
    ensures Valid(Quoted(Escape(s))) && AllPrintable(Text(Quoted(Escape(s))))
  {
    EscapedIsClean(s);
    CleanUnitsPrint(Escape(s));
  }

  /** What the encoder writes is one JSON value on one line: every character of it is printable
      ASCII, so neither a newline nor any other line boundary is among them. */
  lemma {:induction false} DumpIsOneLine(t: Tree)
    requires NumbersAreWritten(t)
    ensures Valid(Dump(t)) && AllPrintable(Text(Dump(t)))
    decreases t
  {
    match t
    case Str(s) => StringIsOneLine(s);
    case List(items) =>
      ItemsAreOneLine(items);
      PrintableAround('[', BodyText(DumpItems(items)), ']');
    case Dict(entries) =>
      EntriesAreOneLine(entries);
      PrintableAround('{', BodyText(DumpEntries(entries)), '}');
    case _ =>
  }

  lemma {:induction false} ItemsAreOneLine(items: Items)
    requires NumbersInItems(items)
    ensures ValidBody(DumpItems(items)) && AllPrintable(BodyText(DumpItems(items)))
    decreases items
  {
    if items.Item? {
      DumpIsOneLine(items.head);
      ItemsAreOneLine(items.rest);
      if items.rest.Item? {
        BodyOfTwo(Dump(items.head), DumpItems(items.rest), ',');
      }
    }
  }

  lemma BodyOfTwo(v: Value, b: Body, separator: char)
    ensures BodyText(Holding(v, Between(separator, Between(' ', b)))) == Text(v) + [separator, ' '] + BodyText(b)
  {
    assert BodyText(Between(separator, Between(' ', b))) == [separator, ' '] + BodyText(b);
  }

  lemma {:induction false} EntriesAreOneLine(entries: Entries)
    requires NumbersInEntries(entries)
    ensures ValidBody(DumpEntries(entries)) && AllPrintable(BodyText(DumpEntries(entries)))
    decreases entries
  {
    if entries.Entry? {
      DumpIsOneLine(entries.value);
      StringIsOneLine(entries.key);
      EntriesAreOneLine(entries.others);
      var tail := if entries.others.NoEntries? then End else Between(',', Between(' ', DumpEntries(entries.others)));
      PairIsOneLine(Quoted(Escape(entries.key)), ':', Holding(Dump(entries.value), tail));
      if entries.others.Entry? {
        PairIsOneLine(Dump(entries.value), ',', DumpEntries(entries.others));
      }
    }
  }

  lemma PairIsOneLine(v: Value, separator: char, b: Body)
    requires Neutral(separator) && Printable(separator) && Valid(v) && AllPrintable(Text(v))
    ensures ValidBody(b) ==> ValidBody(Holding(v, Between(separator, Between(' ', b))))
    ensures AllPrintable(BodyText(b)) ==> AllPrintable(BodyText(Holding(v, Between(separator, Between(' ', b)))))
  {
    BodyOfTwo(v, b, separator);
    assert ValidBody(b) ==> ValidBody(Between(' ', b));
  }
}
