/** The single-entry single-exit scan (equivalent/analyzers/check_sese.py):
    which statements of a declared procedure are looked at, and what a passing
    analysis says about them. */
module Sese {
  import opened Wrappers
  import opened CodeParts
  import opened Statements
  import opened Procedures

  datatype Finding = Finding(tag: string, file: string, line: nat, keyword: string)

  /** Lines to scan, and the line its procedure's END statement starts on. */
  datatype Range = Range(file: string, lo: nat, hi: nat, tag: string, procedureEnd: nat)

  // ---------------------------------------------------------------- scanning one range

  predicate Selected(s: Statement, lo: nat, hi: nat) {
    s.start >= lo && s.end <= hi
  }

  /** A keyword that is its procedure's own exit: a plain RETURN right before END. */
  predicate Excused(lexer: Lexer, statements: seq<Statement>, k: nat, keyword: string, procedureEnd: nat)
    requires k < |statements|
  {
    && keyword == "return" && lexer.plainReturn(statements[k].code)
    && k + 1 < |statements| && statements[k + 1].start == procedureEnd
    && lexer.closing(statements[k + 1].code).Some?
  }

  /** The keywords of one statement that are excused, or those that are not. */
  function FindingsAt(lexer: Lexer, statements: seq<Statement>, k: nat, keywords: seq<string>,
                      r: Range, excused: bool): seq<Finding>
    requires k < |statements|
  {
    if keywords == [] then []
    else
      FindingsAt(lexer, statements, k, keywords[..|keywords| - 1], r, excused) +
      (var keyword := keywords[|keywords| - 1];
       if Excused(lexer, statements, k, keyword, r.procedureEnd) == excused
       then [Finding(r.tag, r.file, statements[k].start, keyword)] else [])
  }

  function Findings(lexer: Lexer, statements: seq<Statement>, r: Range, upto: nat, excused: bool): seq<Finding>
    requires upto <= |statements|
  {
    if upto == 0 then []
    else
      Findings(lexer, statements, r, upto - 1, excused) +
      (if Selected(statements[upto - 1], r.lo, r.hi)
       then FindingsAt(lexer, statements, upto - 1, lexer.keywords(statements[upto - 1].code), r, excused)
       else [])
  }

  /** The inner loop, over the keywords of one statement. */
  method ScanStatement(lexer: Lexer, statements: seq<Statement>, k: nat, r: Range)
    returns (violations: seq<Finding>, notes: seq<Finding>)
    requires k < |statements|
    ensures violations == FindingsAt(lexer, statements, k, lexer.keywords(statements[k].code), r, false)
    ensures notes == FindingsAt(lexer, statements, k, lexer.keywords(statements[k].code), r, true)
  {
    var keywords := lexer.keywords(statements[k].code);
    violations, notes := [], [];
    for m := 0 to |keywords|
      invariant violations == FindingsAt(lexer, statements, k, keywords[..m], r, false)
      invariant notes == FindingsAt(lexer, statements, k, keywords[..m], r, true)
    {
      assert keywords[..m + 1][..m] == keywords[..m];
      var item := Finding(r.tag, r.file, statements[k].start, keywords[m]);
      if Excused(lexer, statements, k, keywords[m], r.procedureEnd) {
        notes := notes + [item];
      } else {
        violations := violations + [item];
      }
    }
    assert keywords[..|keywords|] == keywords;
  }

  method Scan(lexer: Lexer, lines: seq<string>, r: Range) returns (violations: seq<Finding>, notes: seq<Finding>)
    ensures violations == Findings(lexer, Logical(lines), r, |Logical(lines)|, false)
    ensures notes == Findings(lexer, Logical(lines), r, |Logical(lines)|, true)
  {
    violations, notes := [], [];
    var statements, _ := LogicalStatements(lines);
    for position := 0 to |statements|
      invariant violations == Findings(lexer, statements, r, position, false)
      invariant notes == Findings(lexer, statements, r, position, true)
    {
      if Selected(statements[position], r.lo, r.hi) {
        var found, excused := ScanStatement(lexer, statements, position, r);
        violations, notes := violations + found, notes + excused;
      }
    }
  }

  ghost predicate AllExcused(lexer: Lexer, statements: seq<Statement>, k: nat, procedureEnd: nat)
    requires k < |statements|
  {
    forall keyword :: keyword in lexer.keywords(statements[k].code) ==>
      Excused(lexer, statements, k, keyword, procedureEnd)
  }

  lemma {:induction false} NoFindingAt(lexer: Lexer, statements: seq<Statement>, k: nat, keywords: seq<string>, r: Range)
    requires k < |statements|
    ensures FindingsAt(lexer, statements, k, keywords, r, false) == [] <==>
      forall keyword :: keyword in keywords ==> Excused(lexer, statements, k, keyword, r.procedureEnd)
  {
    if keywords != [] {
      var shorter, last := keywords[..|keywords| - 1], keywords[|keywords| - 1];
      NoFindingAt(lexer, statements, k, shorter, r);
      assert keywords == shorter + [last];
      assert forall keyword :: keyword in keywords <==> keyword in shorter || keyword == last;
    }
  }

  lemma {:induction false} NoViolation(lexer: Lexer, statements: seq<Statement>, r: Range, upto: nat)
    requires upto <= |statements|
    ensures Findings(lexer, statements, r, upto, false) == [] <==>
      forall k :: 0 <= k < upto && Selected(statements[k], r.lo, r.hi) ==>
        AllExcused(lexer, statements, k, r.procedureEnd)
  {
    if upto > 0 {
      NoViolation(lexer, statements, r, upto - 1);
      NoFindingAt(lexer, statements, upto - 1, lexer.keywords(statements[upto - 1].code), r);
    }
  }

  /** A finding is a keyword of a selected statement, under the statement's first line and the range's own
      names; it is a note when it is the procedure's exit and a violation when it is not. */
  ghost predicate IsFinding(lexer: Lexer, statements: seq<Statement>, r: Range, upto: nat, excused: bool, f: Finding)
    requires upto <= |statements|
  {
    exists k :: 0 <= k < upto && Selected(statements[k], r.lo, r.hi)
      && f == Finding(r.tag, r.file, statements[k].start, f.keyword)
      && f.keyword in lexer.keywords(statements[k].code)
      && Excused(lexer, statements, k, f.keyword, r.procedureEnd) == excused
  }

  lemma {:induction false} FindingsAtExactly(lexer: Lexer, statements: seq<Statement>, k: nat, keywords: seq<string>,
                                             r: Range, excused: bool, f: Finding)
    requires k < |statements|
    ensures f in FindingsAt(lexer, statements, k, keywords, r, excused) <==>
      && f == Finding(r.tag, r.file, statements[k].start, f.keyword) && f.keyword in keywords
      && Excused(lexer, statements, k, f.keyword, r.procedureEnd) == excused
  {
    if keywords != [] {
      var shorter, last := keywords[..|keywords| - 1], keywords[|keywords| - 1];
      FindingsAtExactly(lexer, statements, k, shorter, r, excused, f);
      assert keywords == shorter + [last];
    }
  }

  lemma {:induction false} SplitInTwo(lexer: Lexer, statements: seq<Statement>, k: nat, keywords: seq<string>, r: Range)
    requires k < |statements|
    ensures |FindingsAt(lexer, statements, k, keywords, r, false)| + |FindingsAt(lexer, statements, k, keywords, r, true)| == |keywords|
  {
    if keywords != [] {
      SplitInTwo(lexer, statements, k, keywords[..|keywords| - 1], r);
    }
  }

  function KeywordsIn(lexer: Lexer, statements: seq<Statement>, r: Range, upto: nat): nat
    requires upto <= |statements|
  {
    if upto == 0 then 0
    else
      KeywordsIn(lexer, statements, r, upto - 1) +
      (if Selected(statements[upto - 1], r.lo, r.hi) then |lexer.keywords(statements[upto - 1].code)| else 0)
  }

  /** Every keyword of every selected statement is found, and nothing else is. */
  lemma {:induction false} FindingsExactly(lexer: Lexer, statements: seq<Statement>, r: Range, upto: nat, excused: bool, f: Finding)
    requires upto <= |statements|
    ensures f in Findings(lexer, statements, r, upto, excused) <==> IsFinding(lexer, statements, r, upto, excused, f)
  {
    if upto > 0 {
      FindingsExactly(lexer, statements, r, upto - 1, excused, f);
      var last := statements[upto - 1];
      var keywords := lexer.keywords(last.code);
      FindingsAtExactly(lexer, statements, upto - 1, keywords, r, excused, f);
      assert f in Findings(lexer, statements, r, upto, excused) <==>
        f in Findings(lexer, statements, r, upto - 1, excused) ||
        (Selected(last, r.lo, r.hi) && f in FindingsAt(lexer, statements, upto - 1, keywords, r, excused));
    }
  }

  /** It is found once. */
  lemma {:induction false} EveryKeywordIsFoundOnce(lexer: Lexer, statements: seq<Statement>, r: Range, upto: nat)
    requires upto <= |statements|
    ensures |Findings(lexer, statements, r, upto, false)| + |Findings(lexer, statements, r, upto, true)| ==
            KeywordsIn(lexer, statements, r, upto)
  {
    if upto > 0 {
      EveryKeywordIsFoundOnce(lexer, statements, r, upto - 1);
      SplitInTwo(lexer, statements, upto - 1, lexer.keywords(statements[upto - 1].code), r);
    }
  }

  // ---------------------------------------------------------------- resolving one declared range

  datatype Declared = Declared(file: string, tag: string, symbol: string, lo: nat, hi: nat)

  function Named(procedures: seq<Procedure>, symbol: string): (r: seq<Procedure>)
    ensures forall p :: p in r <==> p in procedures && p.name == symbol
  {
    if procedures == [] then []
    else (if procedures[0].name == symbol then [procedures[0]] else []) + Named(procedures[1..], symbol)
  }

  predicate InBounds(d: Declared, lines: seq<string>) {
    1 <= d.lo <= d.hi <= |lines|
  }

  /** The declared range is the procedure's, with or without its END line. */
  predicate Aligned(d: Declared, p: Procedure) {
    d.lo == p.lo && (d.hi == p.hi || d.hi + 1 == p.hi)
  }

  /** The one procedure the declaration names, and the range to scan for it. */
  function Resolution(lexer: Lexer, lines: seq<string>, d: Declared): Option<(Procedure, Range)> {
    var matches := Named(ProceduresOf(lexer, lines), d.symbol);
    if !InBounds(d, lines) || |matches| != 1 then None
    else
      var p := matches[0];
      var range := if Aligned(d, p) then (d.lo, d.hi) else (p.lo, p.hi);
      Some((p, Range(d.file, range.0, range.1, d.tag, p.endStatement)))
  }

  lemma {:induction false} NamedOnce(procedures: seq<Procedure>, symbol: string)
    ensures |Named(procedures, symbol)| == 1 <==> exists k :: IsTheOne(procedures, symbol, k)
    ensures Named(procedures, symbol) == [] <==> forall j :: 0 <= j < |procedures| ==> procedures[j].name != symbol
  {
    if procedures != [] {
      var rest := procedures[1..];
      NamedOnce(rest, symbol);
      assert forall j :: 0 < j < |procedures| ==> procedures[j] == rest[j - 1];
      if procedures[0].name == symbol {
        assert Named(rest, symbol) == [] <==> IsTheOne(procedures, symbol, 0);
      } else {
        forall k: nat ensures k < |rest| && IsTheOne(rest, symbol, k) <==> k < |rest| && IsTheOne(procedures, symbol, k + 1) {
        }
        if k: nat :| IsTheOne(rest, symbol, k) {
          assert IsTheOne(procedures, symbol, k + 1);
        }
        if k: nat :| IsTheOne(procedures, symbol, k) {
          assert IsTheOne(rest, symbol, k - 1);
        }
      }
    }
  }

  ghost predicate IsTheOne(procedures: seq<Procedure>, symbol: string, k: nat) {
    && k < |procedures| && procedures[k].name == symbol
    && forall j :: 0 <= j < |procedures| && j != k ==> procedures[j].name != symbol
  }

  /** A declared range resolves exactly when its lines are lines of the file and one procedure has its name. */
  lemma ResolvesExactly(lexer: Lexer, lines: seq<string>, d: Declared)
    ensures Resolution(lexer, lines, d).Some? <==>
      1 <= d.lo <= d.hi <= |lines| && exists k :: IsTheOne(ProceduresOf(lexer, lines), d.symbol, k)
  {
    NamedOnce(ProceduresOf(lexer, lines), d.symbol);
  }

  // ---------------------------------------------------------------- the analysis

  datatype Analysis = Analysis(
    irregular: seq<string>,
    missing: seq<Declared>,
    unresolved: seq<Declared>,
    violations: seq<Finding>,
    notes: seq<Finding>)
  {
    predicate Pass() { irregular == [] && missing == [] && unresolved == [] && violations == [] }
  }

  ghost predicate RangePasses(lexer: Lexer, files: map<string, seq<string>>, d: Declared) {
    d.file in files &&
    var resolution := Resolution(lexer, files[d.file], d);
    resolution.Some? && ScansClean(lexer, files[d.file], resolution.value.1)
  }

  ghost predicate ScansClean(lexer: Lexer, lines: seq<string>, r: Range) {
    Findings(lexer, Logical(lines), r, |Logical(lines)|, false) == []
  }

  ghost function MissingOnes(files: map<string, seq<string>>, declared: seq<Declared>): set<Declared> {
    set d | d in declared && d.file !in files
  }

  method MissingFiles(files: map<string, seq<string>>, declared: seq<Declared>) returns (missing: seq<Declared>)
    ensures missing == Among(declared, MissingOnes(files, declared))
    ensures missing == [] <==> forall d :: d in declared ==> d.file in files
  {
    missing := [];
    ghost var absent := MissingOnes(files, declared);
    for i := 0 to |declared|
      invariant missing == Among(declared[..i], absent)
    {
      AmongOneMore(declared, absent, i);
      if declared[i].file !in files {
        missing := missing + [declared[i]];
      }
    }
    assert declared[..|declared|] == declared;
    NoneAmong(declared, absent);
  }

  ghost predicate ResolvedTo(lexer: Lexer, files: map<string, seq<string>>, d: Declared, r: Range) {
    d.file in files && Resolution(lexer, files[d.file], d).Some? &&
    Resolution(lexer, files[d.file], d).value.1 == r
  }

  ghost predicate Unresolvable(lexer: Lexer, files: map<string, seq<string>>, d: Declared) {
    d.file in files && Resolution(lexer, files[d.file], d).None?
  }

  ghost function UnresolvableOnes(lexer: Lexer, files: map<string, seq<string>>, declared: seq<Declared>): set<Declared> {
    set d | d in declared && Unresolvable(lexer, files, d)
  }

  /** The ranges of the declarations, each its own. */
  ghost predicate RangesOf(lexer: Lexer, files: map<string, seq<string>>, declared: seq<Declared>, ranges: seq<Range>) {
    |ranges| == |declared| && forall j :: 0 <= j < |declared| ==> ResolvedTo(lexer, files, declared[j], ranges[j])
  }

  /** How far the declarations have been resolved. */
  ghost predicate ResolvedSoFar(lexer: Lexer, files: map<string, seq<string>>, declared: seq<Declared>, i: nat,
                                unresolved: seq<Declared>, ranges: seq<Range>)
    requires i <= |declared|
  {
    && unresolved == Among(declared[..i], UnresolvableOnes(lexer, files, declared))
    && (unresolved == [] ==> RangesOf(lexer, files, declared[..i], ranges))
  }

  lemma ResolvedOneMore(lexer: Lexer, files: map<string, seq<string>>, declared: seq<Declared>, i: nat,
                        unresolved: seq<Declared>, ranges: seq<Range>, range: Option<Range>)
    requires i < |declared| && ResolvedSoFar(lexer, files, declared, i, unresolved, ranges)
    requires range.None? <==> Unresolvable(lexer, files, declared[i])
    requires range.Some? ==> ResolvedTo(lexer, files, declared[i], range.value)
    ensures range.None? ==> ResolvedSoFar(lexer, files, declared, i + 1, unresolved + [declared[i]], ranges)
    ensures range.Some? ==> ResolvedSoFar(lexer, files, declared, i + 1, unresolved, ranges + [range.value])
  {
    var stuck := UnresolvableOnes(lexer, files, declared);
    assert declared[i] in stuck <==> range.None?;
    AmongOneMore(declared, stuck, i);
    if range.Some? && unresolved == [] {
      forall j | 0 <= j < i + 1 ensures ResolvedTo(lexer, files, declared[..i + 1][j], (ranges + [range.value])[j]) {
        assert j < i ==> ResolvedTo(lexer, files, declared[..i][j], ranges[j]);
      }
    }
  }

  method ResolveAll(lexer: Lexer, files: map<string, seq<string>>, declared: seq<Declared>)
    returns (unresolved: seq<Declared>, ranges: seq<Range>)
    requires forall d :: d in declared ==> d.file in files
    ensures unresolved == Among(declared, UnresolvableOnes(lexer, files, declared))
    ensures unresolved == [] ==> RangesOf(lexer, files, declared, ranges)
  {
    unresolved, ranges := [], [];
    for i := 0 to |declared|
      invariant ResolvedSoFar(lexer, files, declared, i, unresolved, ranges)
    {
      var d := declared[i];
      assert d in declared;
      var range := ResolveOne(lexer, files, d);
      ResolvedOneMore(lexer, files, declared, i, unresolved, ranges, range);
      if range.None? {
        unresolved := unresolved + [d];
      } else {
        ranges := ranges + [range.value];
      }
    }
    assert declared[..|declared|] == declared;
  }

  method ResolveOne(lexer: Lexer, files: map<string, seq<string>>, d: Declared) returns (range: Option<Range>)
    requires d.file in files
    ensures range.None? <==> Unresolvable(lexer, files, d)
    ensures range.Some? ==> ResolvedTo(lexer, files, d, range.value)
  {
    match Resolution(lexer, files[d.file], d)
    case None => range := None;
    case Some((_, r)) => range := Some(r);
  }

  /** What scanning the range of one declaration finds. */
  ghost function FoundFor(lexer: Lexer, files: map<string, seq<string>>, d: Declared, excused: bool): seq<Finding> {
    if d.file !in files || Resolution(lexer, files[d.file], d).None? then []
    else
      var statements := Logical(files[d.file]);
      Findings(lexer, statements, Resolution(lexer, files[d.file], d).value.1, |statements|, excused)
  }

  /** The findings of every declaration, one declaration after the other. */
  ghost function FoundForAll(lexer: Lexer, files: map<string, seq<string>>, declared: seq<Declared>, excused: bool): seq<Finding> {
    if declared == [] then []
    else
      FoundForAll(lexer, files, declared[..|declared| - 1], excused) +
      FoundFor(lexer, files, declared[|declared| - 1], excused)
  }

  method ScanAll(lexer: Lexer, files: map<string, seq<string>>, declared: seq<Declared>, ranges: seq<Range>)
    returns (violations: seq<Finding>, notes: seq<Finding>)
    requires RangesOf(lexer, files, declared, ranges)
    ensures violations == FoundForAll(lexer, files, declared, false)
    ensures notes == FoundForAll(lexer, files, declared, true)
  {
    violations, notes := [], [];
    for i := 0 to |ranges|
      invariant violations == FoundForAll(lexer, files, declared[..i], false)
      invariant notes == FoundForAll(lexer, files, declared[..i], true)
    {
      assert ResolvedTo(lexer, files, declared[i], ranges[i]);
      var v, n := Scan(lexer, files[declared[i].file], ranges[i]);
      violations, notes := violations + v, notes + n;
      assert declared[..i + 1][..i] == declared[..i];
    }
    assert declared[..|declared|] == declared;
  }

  /** Nothing is found for a list exactly when nothing is found for any of it. */
  lemma {:induction false} NothingFound(lexer: Lexer, files: map<string, seq<string>>, declared: seq<Declared>, excused: bool)
    ensures FoundForAll(lexer, files, declared, excused) == [] <==>
      forall d :: d in declared ==> FoundFor(lexer, files, d, excused) == []
  {
    if declared != [] {
      var shorter, last := declared[..|declared| - 1], declared[|declared| - 1];
      NothingFound(lexer, files, shorter, excused);
      assert declared == shorter + [last];
      assert forall d :: d in declared <==> d in shorter || d == last;
    }
  }

  lemma PassesWhenNothingIsFound(lexer: Lexer, files: map<string, seq<string>>, declared: seq<Declared>)
    requires forall d :: d in declared ==> d.file in files && !Unresolvable(lexer, files, d)
    ensures FoundForAll(lexer, files, declared, false) == [] <==> forall d :: d in declared ==> RangePasses(lexer, files, d)
  {
    NothingFound(lexer, files, declared, false);
    forall d | d in declared
      ensures FoundFor(lexer, files, d, false) == [] <==> RangePasses(lexer, files, d)
    {
      assert d.file in files && !Unresolvable(lexer, files, d);
    }
  }

  /** Opaque sources may be absent, but not links or anything else that is no regular file. */
  method IrregularOnes(foreign: seq<string>, irregular: set<string>) returns (found: seq<string>)
    ensures found == Among(foreign, irregular)
  {
    found := [];
    for i := 0 to |foreign|
      invariant found == Among(foreign[..i], irregular)
    {
      AmongOneMore(foreign, irregular, i);
      if foreign[i] in irregular {
        found := found + [foreign[i]];
      }
    }
    assert foreign[..|foreign|] == foreign;
  }

  /** What an analysis reports: the irregular sources and the ranges whose file is missing; only without
      those, the ranges that cannot be resolved; only without those, every range's findings in order. */
  ghost predicate ReportsAll(a: Analysis, lexer: Lexer, files: map<string, seq<string>>, foreign: seq<string>,
                             irregular: set<string>, declared: seq<Declared>)
  {
    && a.irregular == Among(foreign, irregular)
    && a.missing == Among(declared, MissingOnes(files, declared))
    && a.unresolved == (if a.irregular != [] || a.missing != [] then []
                        else Among(declared, UnresolvableOnes(lexer, files, declared)))
    && (if a.irregular != [] || a.missing != [] || a.unresolved != [] then a.violations == a.notes == []
        else && a.violations == FoundForAll(lexer, files, declared, false)
             && a.notes == FoundForAll(lexer, files, declared, true))
  }

  /** Irregular opaque sources and missing files end the analysis, then unresolved ranges do, then every
      range is scanned. */
  method Analyze(lexer: Lexer, files: map<string, seq<string>>, foreign: seq<string>, irregular: set<string>, declared: seq<Declared>)
    returns (a: Analysis)
    ensures a.Pass() <==>
      && (forall file :: file in foreign ==> file !in irregular)
      && forall d :: d in declared ==> RangePasses(lexer, files, d)
    ensures ReportsAll(a, lexer, files, foreign, irregular, declared)
  {
    var odd := IrregularOnes(foreign, irregular);
    var missing := MissingFiles(files, declared);
    NoneAmong(foreign, irregular);
    if odd != [] || missing != [] {
      return Analysis(odd, missing, [], [], []);
    }
    var unresolved, ranges := ResolveAll(lexer, files, declared);
    NoneAmong(declared, UnresolvableOnes(lexer, files, declared));
    if unresolved != [] {
      return Analysis([], [], unresolved, [], []);
    }
    var violations, notes := ScanAll(lexer, files, declared, ranges);
    PassesWhenNothingIsFound(lexer, files, declared);
    a := Analysis([], [], [], violations, notes);
  }

  // ---------------------------------------------------------------- nothing escapes

  /** The last statement the scan of this declaration reaches. */
  function LastScanned(d: Declared, p: Procedure): int {
    if d.lo == p.lo && d.hi + 1 == p.hi then p.closer - 1 else p.closer
  }

  lemma InOrder(lines: seq<string>, i: nat, j: nat)
    requires i < |Logical(lines)| && j < |Logical(lines)|
    ensures Logical(lines)[i].start <= Logical(lines)[i].end
    ensures Logical(lines)[j].start <= Logical(lines)[j].end
    ensures i < j ==> Logical(lines)[i].end < Logical(lines)[j].start
    ensures j < i ==> Logical(lines)[j].end < Logical(lines)[i].start
  {
    LogicalStatementsPartitionTheCode(lines);
    assert Logical(lines)[i] in Logical(lines) && Logical(lines)[j] in Logical(lines);
  }

  lemma ResolvedProcedure(lexer: Lexer, lines: seq<string>, d: Declared, p: Procedure, r: Range)
    requires Resolution(lexer, lines, d) == Some((p, r))
    ensures p in ProceduresOf(lexer, lines) && p.name == d.symbol
    ensures p.opener < p.closer < |Logical(lines)| && EndsAgree(lexer, Logical(lines), p.opener, p.closer)
    ensures p.lo == Logical(lines)[p.opener].start && p.hi == Logical(lines)[p.closer].end
    ensures r.procedureEnd == p.endStatement == Logical(lines)[p.closer].start
    ensures r.lo == p.lo && r.hi == if d.lo == p.lo && d.hi + 1 == p.hi then p.hi - 1 else p.hi
  {
    var matches := Named(ProceduresOf(lexer, lines), d.symbol);
    assert p == matches[0] && p in matches;
    ProceduresAreTheAgreeingPairs(lexer, lines, p.opener, p.closer);
  }

  /** What is selected is exactly the procedure, from its first statement to its
      END, which is left out just when the declaration leaves it out. */
  lemma SelectionIsTheProcedure(lexer: Lexer, lines: seq<string>, d: Declared, p: Procedure, r: Range, k: nat)
    requires Resolution(lexer, lines, d) == Some((p, r)) && k < |Logical(lines)|
    ensures Selected(Logical(lines)[k], r.lo, r.hi) <==> p.opener <= k <= LastScanned(d, p)
  {
    ResolvedProcedure(lexer, lines, d, p, r);
    InOrder(lines, k, p.opener);
    InOrder(lines, k, p.closer);
  }

  lemma ExcusedOnlyAtTheExit(lexer: Lexer, lines: seq<string>, d: Declared, p: Procedure, r: Range, k: nat, keyword: string)
    requires Resolution(lexer, lines, d) == Some((p, r)) && k < |Logical(lines)|
    ensures Excused(lexer, Logical(lines), k, keyword, r.procedureEnd) <==>
      keyword == "return" && lexer.plainReturn(Logical(lines)[k].code) && k + 1 == p.closer
  {
    ResolvedProcedure(lexer, lines, d, p, r);
    if k + 1 < |Logical(lines)| {
      InOrder(lines, k + 1, p.closer);
    }
  }

  /** Every keyword of statement `k` is the procedure's one terminal RETURN. */
  ghost predicate OnlyTheTerminalReturn(lexer: Lexer, statements: seq<Statement>, p: Procedure, k: nat)
    requires k < |statements|
  {
    forall keyword :: keyword in lexer.keywords(statements[k].code) ==>
      keyword == "return" && lexer.plainReturn(statements[k].code) && k + 1 == p.closer
  }

  /** A range passes exactly when it names one procedure and no statement of it
      that is scanned holds a keyword other than a terminal RETURN. */
  lemma RangePassesExactly(lexer: Lexer, files: map<string, seq<string>>, d: Declared)
    ensures RangePasses(lexer, files, d) <==>
      d.file in files &&
      var lines := files[d.file];
      Resolution(lexer, lines, d).Some? &&
      var p := Resolution(lexer, lines, d).value.0;
      forall k :: 0 <= k < |Logical(lines)| && p.opener <= k <= LastScanned(d, p) ==>
        OnlyTheTerminalReturn(lexer, Logical(lines), p, k)
  {
    if d.file in files && Resolution(lexer, files[d.file], d).Some? {
      var lines := files[d.file];
      var statements := Logical(lines);
      var (p, r) := Resolution(lexer, lines, d).value;
      NoViolation(lexer, statements, r, |statements|);
      forall k | 0 <= k < |statements|
        ensures Selected(statements[k], r.lo, r.hi) <==> p.opener <= k <= LastScanned(d, p)
        ensures AllExcused(lexer, statements, k, r.procedureEnd) <==>
                OnlyTheTerminalReturn(lexer, statements, p, k)
      {
        SelectionIsTheProcedure(lexer, lines, d, p, r, k);
        ExcusedIsTerminal(lexer, lines, d, p, r, k);
      }
    }
  }

  lemma ExcusedIsTerminal(lexer: Lexer, lines: seq<string>, d: Declared, p: Procedure, r: Range, k: nat)
    requires Resolution(lexer, lines, d) == Some((p, r)) && k < |Logical(lines)|
    ensures AllExcused(lexer, Logical(lines), k, r.procedureEnd) <==>
            OnlyTheTerminalReturn(lexer, Logical(lines), p, k)
  {
    forall keyword
      ensures Excused(lexer, Logical(lines), k, keyword, r.procedureEnd) <==>
        keyword == "return" && lexer.plainReturn(Logical(lines)[k].code) && k + 1 == p.closer
    {
      ExcusedOnlyAtTheExit(lexer, lines, d, p, r, k, keyword);
    }
  }

  /** No statement of a passing procedure escapes: every line of code from its
      first line up to its END statement belongs to one scanned statement, which
      holds nothing but perhaps the one terminal RETURN. */
  lemma NoLineEscapes(lexer: Lexer, files: map<string, seq<string>>, d: Declared, p: Procedure, r: Range, n: nat)
    returns (k: nat)
    requires RangePasses(lexer, files, d) && Resolution(lexer, files[d.file], d) == Some((p, r))
    requires p.lo <= n < p.endStatement && 1 <= n <= |files[d.file]| && IsCode(Codes(files[d.file]), n)
    ensures p.opener <= k < p.closer < |Logical(files[d.file])| && Covers(Logical(files[d.file])[k], n)
    ensures Selected(Logical(files[d.file])[k], r.lo, r.hi)
    ensures OnlyTheTerminalReturn(lexer, Logical(files[d.file]), p, k)
  {
    k := StatementOfTheProcedure(lexer, files[d.file], d, p, r, n);
    SelectionIsTheProcedure(lexer, files[d.file], d, p, r, k);
    PassingStatement(lexer, files, d, p, r, k);
  }

  /** Said of the lines as the language reads them, wherever no line leaves a literal open. */
  lemma NoTrueLineEscapes(lexer: Lexer, files: map<string, seq<string>>, d: Declared, p: Procedure, r: Range, n: nat)
    returns (k: nat)
    requires RangePasses(lexer, files, d) && Resolution(lexer, files[d.file], d) == Some((p, r))
    requires ClosesEveryLiteral(files[d.file])
    requires p.lo <= n < p.endStatement && 1 <= n <= |files[d.file]| && IsCode(TrueCodes(files[d.file], None), n)
    ensures p.opener <= k < p.closer < |TrueLogical(files[d.file])| && Covers(TrueLogical(files[d.file])[k], n)
    ensures OnlyTheTerminalReturn(lexer, TrueLogical(files[d.file]), p, k)
  {
    BlankingByLineIsExact(files[d.file]);
    LogicalIsTrue(files[d.file]);
    k := NoLineEscapes(lexer, files, d, p, r, n);
  }

  lemma StatementOfTheProcedure(lexer: Lexer, lines: seq<string>, d: Declared, p: Procedure, r: Range, n: nat)
    returns (k: nat)
    requires Resolution(lexer, lines, d) == Some((p, r))
    requires p.lo <= n < p.endStatement && 1 <= n <= |lines| && IsCode(Codes(lines), n)
    ensures p.opener <= k < p.closer < |Logical(lines)| && Covers(Logical(lines)[k], n)
  {
    k := CoveringStatement(lines, n);
    ResolvedProcedure(lexer, lines, d, p, r);
    InOrder(lines, k, p.opener);
    InOrder(lines, k, p.closer);
  }

  lemma CoveringStatement(lines: seq<string>, n: nat) returns (k: nat)
    requires 1 <= n <= |lines| && IsCode(Codes(lines), n)
    ensures k < |Logical(lines)| && Covers(Logical(lines)[k], n)
  {
    LogicalStatementsPartitionTheCode(lines);
    k :| 0 <= k < |Logical(lines)| && Covers(Logical(lines)[k], n);
  }

  lemma PassingStatement(lexer: Lexer, files: map<string, seq<string>>, d: Declared, p: Procedure, r: Range, k: nat)
    requires RangePasses(lexer, files, d) && Resolution(lexer, files[d.file], d) == Some((p, r))
    requires k < |Logical(files[d.file])| && Selected(Logical(files[d.file])[k], r.lo, r.hi)
    ensures OnlyTheTerminalReturn(lexer, Logical(files[d.file]), p, k)
  {
    var statements := Logical(files[d.file]);
    NoViolation(lexer, statements, r, |statements|);
    ExcusedIsTerminal(lexer, files[d.file], d, p, r, k);
  }
}
