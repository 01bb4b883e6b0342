/** The code of a physical line: character literals blanked, then the comment removed
    (equivalent/analyzers/check_sese.py). The analyzer blanks each line by itself; a literal may be
    continued over lines (section 6.3.2.4 of ISO/IEC 1539-1:2018). */
module CodeParts {
  import opened Wrappers

  // ---------------------------------------------------------------- white space

  function RStrip(s: string): (r: string)
    ensures r <= s
    ensures r != "" ==> !IsSpace(r[|r| - 1])
  {
    if s != "" && IsSpace(s[|s| - 1]) then RStrip(s[..|s| - 1]) else s
  }

  function LStrip(s: string): (r: string)
    ensures |r| <= |s|
  {
    if s != "" && IsSpace(s[0]) then LStrip(s[1..]) else s
  }

  function Strip(s: string): string { LStrip(RStrip(s)) }

  /** What is not white space stays where it is. */
  lemma {:induction false} RStripKeeps(s: string, i: nat)
    requires i < |s| && !IsSpace(s[i])
    ensures i < |RStrip(s)| && RStrip(s)[i] == s[i]
    decreases |s|
  {
    if IsSpace(s[|s| - 1]) {
      RStripKeeps(s[..|s| - 1], i);
    }
  }

  lemma {:induction false} RStripCons(c: char, s: string)
    ensures RStrip([c] + s) == if RStrip(s) == "" then RStrip([c]) else [c] + RStrip(s)
    decreases |s|
  {
    if s == "" {
      assert [c] + s == [c];
    } else if IsSpace(s[|s| - 1]) {
      RStripCons(c, s[..|s| - 1]);
      assert ([c] + s)[..|s|] == [c] + s[..|s| - 1];
    }
  }

  lemma RStripConsIsInjective(c: char, a: string, b: string)
    requires RStrip(a) != RStrip(b)
    ensures RStrip([c] + a) != RStrip([c] + b)
  {
    RStripCons(c, a);
    RStripCons(c, b);
    if RStrip(a) != "" && RStrip(b) != "" {
      assert ([c] + RStrip(a))[1..] == RStrip(a) && ([c] + RStrip(b))[1..] == RStrip(b);
    } else {
      assert RStrip([c]) <= [c];
    }
  }

  // ---------------------------------------------------------------- one line by itself

  predicate IsQuote(c: char) { c == '\'' || c == '"' }

  /** How far a pattern of characters other than `q` and doubled `q`s reaches before a closing `q`. It
      takes a doubled `q` for one inside the literal, unless nothing closes the literal then. */
  function Literal(s: string, q: char): (r: Option<nat>)
    ensures r.Some? ==> 0 < r.value <= |s|
    decreases |s|
  {
    if s == "" then None
    else if s[0] != q then
      match Literal(s[1..], q) case Some(n) => Some(n + 1) case None => None
    else if |s| > 1 && s[1] == q then
      match Literal(s[2..], q) case Some(n) => Some(n + 2) case None => Some(1)
    else Some(1)
  }

  /** Every literal replaced by an empty one. */
  function Blank(s: string): string
    decreases |s|
  {
    if s == "" then ""
    else if IsQuote(s[0]) && Literal(s[1..], s[0]).Some? then "''" + Blank(s[1 + Literal(s[1..], s[0]).value..])
    else [s[0]] + Blank(s[1..])
  }

  /** Up to the first exclamation mark. */
  function Cut(s: string): string {
    if s == "" || s[0] == '!' then "" else [s[0]] + Cut(s[1..])
  }

  function CodePart(line: string): string { Cut(Blank(line)) }

  lemma CutOfTwo(x: string, a: char, b: char)
    requires a != '!' && b != '!'
    ensures Cut([a, b] + x) == [a, b] + Cut(x)
  {
    var s := [a, b] + x;
    assert s[1..] == [b] + x && s[1..][1..] == x;
    assert Cut(s) == [a] + ([b] + Cut(x));
  }

  lemma CodePartSteps(s: string)
    requires s != ""
    ensures s[0] == '!' ==> CodePart(s) == ""
    ensures IsQuote(s[0]) && Literal(s[1..], s[0]).Some? ==>
      CodePart(s) == "''" + CodePart(s[1 + Literal(s[1..], s[0]).value..])
    ensures s[0] != '!' && !(IsQuote(s[0]) && Literal(s[1..], s[0]).Some?) ==> CodePart(s) == [s[0]] + CodePart(s[1..])
  {
    if IsQuote(s[0]) && Literal(s[1..], s[0]).Some? {
      CutOfTwo(Blank(s[1 + Literal(s[1..], s[0]).value..]), '\'', '\'');
    } else {
      assert ([s[0]] + Blank(s[1..]))[1..] == Blank(s[1..]);
    }
  }

  // ---------------------------------------------------------------- the lines as the language reads them

  /** The code of a line, and the quote of the literal it leaves open. */
  datatype Scan = Scan(code: string, open: Option<char>)

  /** Outside a literal: an exclamation mark ends the line, a quote opens a literal. */
  function Outside(s: string): Scan
    decreases |s|
  {
    if s == "" || s[0] == '!' then Scan("", None)
    else if IsQuote(s[0]) then
      var r := Inside(s[1..], s[0]);
      Scan("''" + r.code, r.open)
    else
      var r := Outside(s[1..]);
      Scan([s[0]] + r.code, r.open)
  }

  /** Inside one: a doubled quote stands for itself, and an ampersand at the end continues the literal. */
  function Inside(s: string, q: char): Scan
    decreases |s|
  {
    if s == "" then Scan("", Some(q))
    else if s[0] == q then
      if |s| > 1 && s[1] == q then Inside(s[2..], q) else Outside(s[1..])
    else if s[0] == '&' && LStrip(s[1..]) == "" then Scan("&", Some(q))
    else Inside(s[1..], q)
  }

  /** A line that may continue a literal: past its leading ampersand the literal goes on; blank and
      comment lines are passed over. */
  function ScanLine(line: string, open: Option<char>): Scan {
    match open
    case None => Outside(line)
    case Some(q) =>
      var text := LStrip(line);
      if text == "" || text[0] == '!' then Scan("", open)
      else if text[0] == '&' then
        var r := Inside(text[1..], q);
        Scan("&" + r.code, r.open)
      else Inside(line, q)
  }

  function ScanFrom(source: seq<string>, open: Option<char>): (r: seq<Scan>)
    ensures |r| == |source|
  {
    if source == [] then []
    else
      var first := ScanLine(source[0], open);
      [first] + ScanFrom(source[1..], first.open)
  }

  /** The analyzer reads a line as the language does. */
  predicate Exact(line: string, scan: Scan) {
    RStrip(CodePart(line)) == RStrip(scan.code)
  }

  // ---------------------------------------------------------------- on a line that closes its literals

  /** Where the literal that goes on in `s` closes on this line, if it does. */
  function Closing(s: string, q: char): (r: Option<nat>)
    ensures r.Some? ==> 0 < r.value <= |s|
    decreases |s|
  {
    if s == "" then None
    else if s[0] != q then
      match Closing(s[1..], q) case Some(n) => Some(n + 1) case None => None
    else if |s| > 1 && s[1] == q then
      match Closing(s[2..], q) case Some(n) => Some(n + 2) case None => None
    else Some(1)
  }

  lemma {:induction false} NothingClosesInSpace(s: string, q: char)
    requires IsQuote(q) && LStrip(s) == ""
    ensures Closing(s, q).None?
    decreases |s|
  {
    if s != "" {
      NothingClosesInSpace(s[1..], q);
    }
  }

  lemma {:induction false} InsideUntilItCloses(s: string, q: char)
    requires IsQuote(q)
    ensures match Closing(s, q)
      case Some(n) => Inside(s, q) == Outside(s[n..])
      case None => Inside(s, q) == Scan("", Some(q)) || Inside(s, q) == Scan("&", Some(q))
    decreases |s|
  {
    if s == "" {
    } else if s[0] != q {
      if s[0] == '&' && LStrip(s[1..]) == "" {
        NothingClosesInSpace(s[1..], q);
      } else {
        InsideUntilItCloses(s[1..], q);
      }
    } else if |s| > 1 && s[1] == q {
      InsideUntilItCloses(s[2..], q);
    }
  }

  /** Where a literal closes the pattern closes it too; where none does, the pattern finds no end or
      one right in front of another quote. */
  lemma {:induction false} PatternsClose(s: string, q: char)
    ensures Closing(s, q).Some? ==> Literal(s, q) == Closing(s, q)
    ensures Closing(s, q).None? && Literal(s, q).Some? ==> Literal(s, q).value < |s| && s[Literal(s, q).value] == q
    decreases |s|
  {
    if s == "" {
    } else if s[0] != q {
      PatternsClose(s[1..], q);
    } else if |s| > 1 && s[1] == q {
      PatternsClose(s[2..], q);
    }
  }

  lemma ClosedHere(s: string, n: nat)
    requires s != "" && IsQuote(s[0]) && Closing(s[1..], s[0]) == Some(n)
    ensures Outside(s) == Scan("''" + Outside(s[1 + n..]).code, Outside(s[1 + n..]).open)
  {
    InsideUntilItCloses(s[1..], s[0]);
    assert s[1..][n..] == s[1 + n..];
  }

  lemma {:induction false} ClosedLinesAgree(s: string)
    requires Outside(s).open.None?
    ensures CodePart(s) == Outside(s).code
    decreases |s|
  {
    if s != "" {
      CodePartSteps(s);
      if IsQuote(s[0]) {
        InsideUntilItCloses(s[1..], s[0]);
        PatternsClose(s[1..], s[0]);
        var n := Closing(s[1..], s[0]).value;
        ClosedHere(s, n);
        ClosedLinesAgree(s[1 + n..]);
      } else if s[0] != '!' {
        ClosedLinesAgree(s[1..]);
      }
    }
  }

  // ---------------------------------------------------------------- on a line that leaves one open

  lemma {:induction false} NoPatternNoQuote(s: string, q: char)
    requires Literal(s, q).None?
    ensures q !in s
    decreases |s|
  {
    if s != "" {
      NoPatternNoQuote(s[1..], q);
      assert s == [s[0]] + s[1..];
    }
  }

  /** The code of what begins with a quote begins with a quote. */
  lemma QuotesStartCode(s: string)
    requires s != "" && IsQuote(s[0])
    ensures CodePart(s) != "" && IsQuote(CodePart(s)[0])
  {
    CodePartSteps(s);
  }

  /** Without an apostrophe in it, code that begins with one begins with a blanked literal. */
  lemma ApostropheMeansBlanked(s: string)
    requires '\'' !in s && CodePart(s) != "" && CodePart(s)[0] == '\''
    ensures |CodePart(s)| >= 2 && CodePart(s)[1] == '\''
  {
    CodePartSteps(s);
  }

  /** Three characters where the language has two or three, none of them an ampersand at the end. */
  predicate Longer(code: string) {
    |code| > 2 && IsQuote(code[2])
  }

  lemma LongerDiffers(code: string, whole: string)
    requires Longer(code) && (whole == "''" || whole == "''&")
    ensures RStrip(code) != RStrip(whole)
  {
    RStripKeeps(code, 2);
    assert RStrip(whole) <= whole;
  }

  lemma OpenByTheQuote(s: string)
    requires s != "" && IsQuote(s[0]) && Literal(s[1..], s[0]).None?
    ensures CodePart(s) == [s[0]] + CodePart(s[1..])
    ensures Longer(CodePart(s)) || s[0] == '"' || |CodePart(s)| == 1 || CodePart(s)[1] != '\''
  {
    var rest := CodePart(s[1..]);
    CodePartSteps(s);
    NoPatternNoQuote(s[1..], s[0]);
    if s[0] == '\'' && rest != "" && rest[0] == '\'' {
      ApostropheMeansBlanked(s[1..]);
      assert CodePart(s)[2] == rest[1];
    }
  }

  lemma OpenByThePattern(s: string, n: nat)
    requires s != "" && IsQuote(s[0]) && Literal(s[1..], s[0]) == Some(n) && n < |s[1..]| && s[1..][n] == s[0]
    ensures Longer(CodePart(s))
  {
    var rest := s[1 + n..];
    CodePartSteps(s);
    assert rest[0] == s[1..][n];
    QuotesStartCode(rest);
    assert CodePart(s)[2] == CodePart(rest)[0];
  }

  lemma OpenLiteralDiffers(s: string)
    requires s != "" && IsQuote(s[0]) && Closing(s[1..], s[0]).None?
    ensures !Exact(s, Outside(s))
  {
    var code, whole := CodePart(s), Outside(s).code;
    InsideUntilItCloses(s[1..], s[0]);
    assert whole == "''" || whole == "''&";
    if Literal(s[1..], s[0]).Some? {
      PatternsClose(s[1..], s[0]);
      OpenByThePattern(s, Literal(s[1..], s[0]).value);
      LongerDiffers(code, whole);
    } else {
      OpenByTheQuote(s);
      if Longer(code) {
        LongerDiffers(code, whole);
      } else {
        assert code[0] != whole[0] || |code| == 1 || code[1] != whole[1];
        RStripKeeps(whole, 1);
        RStripKeeps(whole, 0);
        assert RStrip(code) <= code;
      }
    }
  }

  lemma DiffersPastACharacter(s: string)
    requires s != "" && !IsQuote(s[0]) && s[0] != '!' && !Exact(s[1..], Outside(s[1..]))
    ensures !Exact(s, Outside(s))
  {
    CodePartSteps(s);
    RStripConsIsInjective(s[0], CodePart(s[1..]), Outside(s[1..]).code);
  }

  lemma BlankedDiffers(line: string, scan: Scan, a: string, b: string)
    requires CodePart(line) == "''" + a && scan.code == "''" + b && RStrip(a) != RStrip(b)
    ensures !Exact(line, scan)
  {
    BlankedConsIsInjective(a, b);
  }

  lemma DiffersPastALiteral(s: string, n: nat)
    requires s != "" && IsQuote(s[0]) && Closing(s[1..], s[0]) == Some(n) && !Exact(s[1 + n..], Outside(s[1 + n..]))
    ensures !Exact(s, Outside(s))
  {
    var rest := s[1 + n..];
    assert CodePart(s) == "''" + CodePart(rest) by {
      CodePartSteps(s);
      PatternsClose(s[1..], s[0]);
    }
    ClosedHere(s, n);
    BlankedDiffers(s, Outside(s), CodePart(rest), Outside(rest).code);
  }

  lemma {:induction false} OpenLinesDiffer(s: string)
    requires Outside(s).open.Some?
    ensures !Exact(s, Outside(s))
    decreases |s|
  {
    if !IsQuote(s[0]) {
      OpenLinesDiffer(s[1..]);
      DiffersPastACharacter(s);
    } else if Closing(s[1..], s[0]).None? {
      OpenLiteralDiffers(s);
    } else {
      var n := Closing(s[1..], s[0]).value;
      ClosedHere(s, n);
      OpenLinesDiffer(s[1 + n..]);
      DiffersPastALiteral(s, n);
    }
  }

  lemma BlankedIsTwo(a: string)
    ensures "''" + a == ['\''] + (['\''] + a)
  {
  }

  lemma BlankedConsIsInjective(a: string, b: string)
    requires RStrip(a) != RStrip(b)
    ensures RStrip("''" + a) != RStrip("''" + b)
  {
    BlankedIsTwo(a);
    BlankedIsTwo(b);
    RStripConsIsInjective('\'', a, b);
    RStripConsIsInjective('\'', ['\''] + a, ['\''] + b);
  }

  // ---------------------------------------------------------------- all the lines

  /** What the analyzer reads: each line blanked by itself, trailing space removed. */
  function Codes(source: seq<string>): (lines: seq<string>)
    ensures |lines| == |source| && forall i :: 0 <= i < |lines| ==> lines[i] == RStrip(CodePart(source[i]))
  {
    seq(|source|, i requires 0 <= i < |source| => RStrip(CodePart(source[i])))
  }

  /** What is code in the language, continued literals blanked over their lines. */
  function TrueCodes(source: seq<string>, open: Option<char>): (lines: seq<string>)
    ensures |lines| == |source|
    ensures forall i :: 0 <= i < |lines| ==> lines[i] == RStrip(ScanFrom(source, open)[i].code)
  {
    var scans := ScanFrom(source, open);
    seq(|source|, i requires 0 <= i < |source| => RStrip(scans[i].code))
  }

  predicate ClosesEveryLiteral(source: seq<string>) {
    forall i :: 0 <= i < |source| ==> ScanFrom(source, None)[i].open.None?
  }

  lemma FirstLineScans(source: seq<string>)
    requires source != [] && Outside(source[0]).open.None?
    ensures ScanFrom(source, None) == [Outside(source[0])] + ScanFrom(source[1..], None)
    ensures ClosesEveryLiteral(source) <==> ClosesEveryLiteral(source[1..])
  {
    var scans, rest := ScanFrom(source, None), ScanFrom(source[1..], None);
    assert scans == [Outside(source[0])] + rest;
    forall i | 0 <= i < |rest| ensures rest[i] == scans[i + 1] {
    }
  }

  predicate AllExact(source: seq<string>, scans: seq<Scan>)
    requires |source| == |scans|
  {
    source == [] || (Exact(source[0], scans[0]) && AllExact(source[1..], scans[1..]))
  }

  lemma {:induction false} EachIsExact(source: seq<string>, scans: seq<Scan>)
    requires |source| == |scans|
    ensures AllExact(source, scans) <==> forall i :: 0 <= i < |source| ==> Exact(source[i], scans[i])
    decreases |source|
  {
    if source != [] {
      EachIsExact(source[1..], scans[1..]);
      forall i | 0 <= i < |source| ensures i > 0 ==> source[i] == source[1..][i - 1] && scans[i] == scans[1..][i - 1] {
      }
    }
  }

  lemma {:induction false} ExactWhenClosed(source: seq<string>)
    ensures AllExact(source, ScanFrom(source, None)) <==> ClosesEveryLiteral(source)
    decreases |source|
  {
    if source != [] {
      assert ScanFrom(source, None)[0] == Outside(source[0]);
      if Outside(source[0]).open.None? {
        FirstLineScans(source);
        ClosedLinesAgree(source[0]);
        ExactWhenClosed(source[1..]);
        assert ScanFrom(source, None)[1..] == ScanFrom(source[1..], None);
      } else {
        OpenLinesDiffer(source[0]);
      }
    }
  }

  /** Blanking line by line is what the language means exactly when no line leaves a literal open. */
  lemma BlankingByLineIsExact(source: seq<string>)
    ensures Codes(source) == TrueCodes(source, None) <==> ClosesEveryLiteral(source)
  {
    var scans := ScanFrom(source, None);
    ExactWhenClosed(source);
    EachIsExact(source, scans);
    forall i | 0 <= i < |source| ensures Codes(source)[i] == TrueCodes(source, None)[i] <==> Exact(source[i], scans[i]) {
    }
  }

  // ---------------------------------------------------------------- what continuing a literal means

  lemma {:induction false} InsideGoesOn(x: string, b: string, q: char)
    requires IsQuote(q) && Closing(x + "&", q).None? && Closing(b, q).Some?
    ensures Inside(x + b, q) == Inside(b, q)
    ensures Inside(x + "&", q) == Scan("&", Some(q))
    decreases |x|
  {
    if x == "" {
      assert x + b == b && x + "&" == "&";
      assert LStrip("&"[1..]) == "";
    } else {
      assert (x + b)[1..] == x[1..] + b && (x + "&")[1..] == x[1..] + "&";
      if x[0] == q {
        assert |x| > 1 && x[1] == q;
        assert (x + b)[2..] == x[2..] + b && (x + "&")[2..] == x[2..] + "&";
        InsideGoesOn(x[2..], b, q);
      } else {
        InsideGoesOn(x[1..], b, q);
        ClosingIsAQuote(b, q);
        assert b[Closing(b, q).value - 1] in b;
        QuotesAreNotSpace(x[1..] + b, q);
        AmpersandIsNotSpace(x[1..]);
      }
    }
  }

  lemma {:induction false} ClosingIsAQuote(s: string, q: char)
    requires Closing(s, q).Some?
    ensures s[Closing(s, q).value - 1] == q
    decreases |s|
  {
    if s[0] != q {
      ClosingIsAQuote(s[1..], q);
    } else if |s| > 1 && s[1] == q {
      ClosingIsAQuote(s[2..], q);
    }
  }

  lemma {:induction false} QuotesAreNotSpace(s: string, q: char)
    requires IsQuote(q) && q in s
    ensures LStrip(s) != ""
    decreases |s|
  {
    if IsSpace(s[0]) {
      assert s == [s[0]] + s[1..];
      QuotesAreNotSpace(s[1..], q);
    }
  }

  lemma {:induction false} AmpersandIsNotSpace(x: string)
    ensures LStrip(x + "&") != ""
    decreases |x|
  {
    if x != "" {
      assert (x + "&")[1..] == x[1..] + "&";
      AmpersandIsNotSpace(x[1..]);
    }
  }

  /** What closes before the end of `s` closes there whatever comes behind. */
  lemma {:induction false} ClosingIsLocal(s: string, t: string, u: string, q: char)
    requires Closing(s + t, q).Some? && Closing(s + t, q).value < |s|
    ensures Closing(s + u, q) == Closing(s + t, q)
    decreases |s|
  {
    assert (s + t)[1..] == s[1..] + t && (s + u)[1..] == s[1..] + u;
    if s[0] != q {
      ClosingIsLocal(s[1..], t, u, q);
    } else if |s| > 1 && s[1] == q {
      assert (s + t)[2..] == s[2..] + t && (s + u)[2..] == s[2..] + u;
      ClosingIsLocal(s[2..], t, u, q);
    }
  }

  /** A line that ends inside a literal and the one that goes on with it read as one line: the text of
      both, the two ampersands left out, has the code of the first and then that of the second. */
  lemma {:induction false} ContinuedLiteralsJoin(x: string, b: string, q: char) returns (code: string)
    requires Outside(x + "&").open == Some(q) && IsQuote(q) && Closing(b, q).Some?
    ensures Outside(x + "&").code == code + "&"
    ensures Outside(x + b) == Scan(code + Inside(b, q).code, Inside(b, q).open)
    decreases |x|
  {
    OpenPastTheStart(x);
    if !IsQuote(x[0]) {
      assert (x + b)[1..] == x[1..] + b && (x + "&")[1..] == x[1..] + "&";
      var more := ContinuedLiteralsJoin(x[1..], b, q);
      code := [x[0]] + more;
      assert [x[0]] + (more + "&") == code + "&" && [x[0]] + (more + Inside(b, q).code) == code + Inside(b, q).code;
    } else if Closing(x[1..] + "&", x[0]).None? {
      assert (x + "&")[1..] == x[1..] + "&";
      InsideUntilItCloses(x[1..] + "&", x[0]);
      OpenedHere(x, b, q);
      code := "''";
    } else {
      var rest := ClosedFirst(x, b);
      var more := ContinuedLiteralsJoin(rest, b, q);
      code := "''" + more;
      assert "''" + (more + "&") == code + "&" && "''" + (more + Inside(b, q).code) == code + Inside(b, q).code;
    }
  }

  lemma OpenPastTheStart(x: string)
    ensures Outside(x + "&").open.Some? ==> x != ""
  {
    var s := x + "&";
    if x == "" {
      assert s[0] == '&' && s[1..] == "" && Outside("") == Scan("", None);
    }
  }

  lemma OpenPastTheEnd(y: string, n: nat)
    requires n <= |y| + 1
    ensures Outside((y + "&")[n..]).open.Some? ==> n < |y|
  {
    OpenPastTheStart("");
    assert n == |y| ==> (y + "&")[n..] == "" + "&";
    assert n == |y| + 1 ==> (y + "&")[n..] == "";
  }

  lemma OpenedHere(x: string, b: string, q: char)
    requires IsQuote(q) && Closing(b, q).Some? && x != "" && x[0] == q && Closing(x[1..] + "&", q).None?
    ensures Outside(x + "&") == Scan("''" + "&", Some(q))
    ensures Outside(x + b) == Scan("''" + Inside(b, q).code, Inside(b, q).open)
  {
    assert (x + b)[1..] == x[1..] + b && (x + "&")[1..] == x[1..] + "&";
    InsideGoesOn(x[1..], b, q);
  }

  lemma ClosedFirst(x: string, b: string) returns (rest: string)
    requires x != "" && IsQuote(x[0]) && Closing(x[1..] + "&", x[0]).Some? && Outside(x + "&").open.Some?
    ensures |rest| < |x|
    ensures Outside(x + "&") == Scan("''" + Outside(rest + "&").code, Outside(rest + "&").open)
    ensures Outside(x + b) == Scan("''" + Outside(rest + b).code, Outside(rest + b).open)
  {
    var y, q, n := x[1..], x[0], Closing(x[1..] + "&", x[0]).value;
    assert (x + b)[1..] == y + b && (x + "&")[1..] == y + "&";
    InsideUntilItCloses(y + "&", q);
    OpenPastTheEnd(y, n);
    ClosingIsLocal(y, "&", b, q);
    InsideUntilItCloses(y + b, q);
    rest := y[n..];
    assert (y + "&")[n..] == rest + "&" && (y + b)[n..] == rest + b;
  }
}
