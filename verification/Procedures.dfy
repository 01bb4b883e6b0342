/** Named procedures and their END statements
    (equivalent/analyzers/check_sese.py): a depth count per opening statement,
    against the bracket matcher that keeps a stack. */
module Procedures {
  import opened Wrappers
  import opened Statements

  datatype Opening = Opening(kind: string, name: string)

  datatype Closing = Closing(kind: string, name: Option<string>)

  /** What the source's regular expressions say about one statement's code, with
      names and kinds already case-folded. */
  datatype Lexer = Lexer(
    opening: string -> Option<Opening>,
    closing: string -> Option<Closing>,
    keywords: string -> seq<string>,
    plainReturn: string -> bool)

  datatype Token = Open | Close | Other

  function TokenOf(lexer: Lexer, s: Statement): Token {
    if lexer.closing(s.code).Some? then Close
    else if lexer.opening(s.code).Some? then Open
    else Other
  }

  function Tokens(lexer: Lexer, statements: seq<Statement>): (r: seq<Token>)
    ensures |r| == |statements|
    ensures forall i :: 0 <= i < |r| ==> r[i] == TokenOf(lexer, statements[i])
  {
    seq(|statements|, i requires 0 <= i < |statements| => TokenOf(lexer, statements[i]))
  }

  // ---------------------------------------------------------------- two matchers

  /** What reads as an END is one, whatever else it reads as. */
  lemma EndsComeFirst(lexer: Lexer, statements: seq<Statement>, i: nat)
    requires i < |statements|
    ensures Tokens(lexer, statements)[i] == Close <==> lexer.closing(statements[i].code).Some?
    ensures Tokens(lexer, statements)[i] == Open <==>
      lexer.opening(statements[i].code).Some? && lexer.closing(statements[i].code).None?
  {
  }

  /** Counting depth from one opening statement on. */
  function CloserFrom(tokens: seq<Token>, j: nat, depth: nat): (r: Option<nat>)
    requires j <= |tokens| && depth >= 1
    ensures r.Some? ==> j <= r.value < |tokens| && tokens[r.value] == Close
    decreases |tokens| - j
  {
    if j == |tokens| then None
    else
      match tokens[j]
      case Open => CloserFrom(tokens, j + 1, depth + 1)
      case Close => if depth == 1 then Some(j) else CloserFrom(tokens, j + 1, depth - 1)
      case Other => CloserFrom(tokens, j + 1, depth)
  }

  /** One pass with a stack of the openings not yet closed. */
  function StackPairs(tokens: seq<Token>, j: nat, stack: seq<nat>): set<(nat, nat)>
    requires j <= |tokens|
    decreases |tokens| - j
  {
    if j == |tokens| then {}
    else
      match tokens[j]
      case Open => StackPairs(tokens, j + 1, stack + [j])
      case Close =>
        if stack == [] then StackPairs(tokens, j + 1, stack)
        else {(stack[|stack| - 1], j)} + StackPairs(tokens, j + 1, stack[..|stack| - 1])
      case Other => StackPairs(tokens, j + 1, stack)
  }

  ghost predicate DepthPair(tokens: seq<Token>, i: nat, j: nat) {
    i < |tokens| && tokens[i] == Open && CloserFrom(tokens, i + 1, 1) == Some(j)
  }

  /** The stack's entry `q` is waiting at the depth of everything above it. */
  ghost predicate Waiting(tokens: seq<Token>, at: nat, stack: seq<nat>, i: nat, j: nat)
    requires at <= |tokens|
  {
    exists q :: 0 <= q < |stack| && stack[q] == i && CloserFrom(tokens, at, |stack| - q) == Some(j)
  }

  lemma WaitingPastOpen(tokens: seq<Token>, at: nat, stack: seq<nat>, i: nat, j: nat)
    requires at < |tokens| && tokens[at] == Open
    ensures (Waiting(tokens, at, stack, i, j) || (i == at && CloserFrom(tokens, at + 1, 1) == Some(j))) <==>
      Waiting(tokens, at + 1, stack + [at], i, j)
  {
    var longer := stack + [at];
    forall q | 0 <= q < |stack|
      ensures longer[q] == stack[q]
      ensures CloserFrom(tokens, at, |stack| - q) == CloserFrom(tokens, at + 1, |longer| - q)
    {
    }
    if i == at && CloserFrom(tokens, at + 1, 1) == Some(j) {
      assert longer[|stack|] == i && CloserFrom(tokens, at + 1, |longer| - |stack|) == Some(j);
    }
    if Waiting(tokens, at, stack, i, j) {
      var q :| 0 <= q < |stack| && stack[q] == i && CloserFrom(tokens, at, |stack| - q) == Some(j);
      assert longer[q] == i && CloserFrom(tokens, at + 1, |longer| - q) == Some(j);
    }
  }

  lemma WaitingPastClose(tokens: seq<Token>, at: nat, stack: seq<nat>, i: nat, j: nat)
    requires at < |tokens| && tokens[at] == Close && stack != []
    ensures Waiting(tokens, at, stack, i, j) <==>
      ((i == stack[|stack| - 1] && j == at) || Waiting(tokens, at + 1, stack[..|stack| - 1], i, j))
  {
    var top := |stack| - 1;
    var shorter := stack[..top];
    assert CloserFrom(tokens, at, |stack| - top) == Some(at);
    if Waiting(tokens, at, stack, i, j) {
      var q :| 0 <= q < |stack| && stack[q] == i && CloserFrom(tokens, at, |stack| - q) == Some(j);
      assert q < top ==> shorter[q] == i && CloserFrom(tokens, at + 1, |shorter| - q) == Some(j);
    }
    if Waiting(tokens, at + 1, shorter, i, j) {
      var q :| 0 <= q < top && shorter[q] == i && CloserFrom(tokens, at + 1, |shorter| - q) == Some(j);
      assert stack[q] == i && CloserFrom(tokens, at, |stack| - q) == Some(j);
    }
  }

  ghost predicate Agree(tokens: seq<Token>, at: nat, stack: seq<nat>, i: nat, j: nat)
    requires at <= |tokens|
  {
    (i, j) in StackPairs(tokens, at, stack) <==>
      Waiting(tokens, at, stack, i, j) || (i >= at && DepthPair(tokens, i, j))
  }

  lemma AgreePastOpen(tokens: seq<Token>, at: nat, stack: seq<nat>, i: nat, j: nat)
    requires at < |tokens| && tokens[at] == Open && Agree(tokens, at + 1, stack + [at], i, j)
    ensures Agree(tokens, at, stack, i, j)
  {
    WaitingPastOpen(tokens, at, stack, i, j);
  }

  lemma AgreePastOther(tokens: seq<Token>, at: nat, stack: seq<nat>, i: nat, j: nat)
    requires at < |tokens| && Agree(tokens, at + 1, stack, i, j)
    requires tokens[at] == Other || (tokens[at] == Close && stack == [])
    ensures Agree(tokens, at, stack, i, j)
  {
    assert StackPairs(tokens, at, stack) == StackPairs(tokens, at + 1, stack);
    if Waiting(tokens, at, stack, i, j) {
      var q :| 0 <= q < |stack| && stack[q] == i && CloserFrom(tokens, at, |stack| - q) == Some(j);
      assert CloserFrom(tokens, at + 1, |stack| - q) == Some(j);
    }
    if Waiting(tokens, at + 1, stack, i, j) {
      var q :| 0 <= q < |stack| && stack[q] == i && CloserFrom(tokens, at + 1, |stack| - q) == Some(j);
      assert CloserFrom(tokens, at, |stack| - q) == Some(j);
    }
  }

  lemma AgreePastClose(tokens: seq<Token>, at: nat, stack: seq<nat>, i: nat, j: nat)
    requires at < |tokens| && tokens[at] == Close && stack != []
    requires Agree(tokens, at + 1, stack[..|stack| - 1], i, j)
    ensures Agree(tokens, at, stack, i, j)
  {
    WaitingPastClose(tokens, at, stack, i, j);
  }

  lemma {:induction false} StackPairsFrom(tokens: seq<Token>, at: nat, stack: seq<nat>, i: nat, j: nat)
    requires at <= |tokens|
    ensures Agree(tokens, at, stack, i, j)
    decreases |tokens| - at
  {
    if at < |tokens| {
      if tokens[at] == Open {
        StackPairsFrom(tokens, at + 1, stack + [at], i, j);
        AgreePastOpen(tokens, at, stack, i, j);
      } else if tokens[at] == Close && stack != [] {
        StackPairsFrom(tokens, at + 1, stack[..|stack| - 1], i, j);
        AgreePastClose(tokens, at, stack, i, j);
      } else {
        StackPairsFrom(tokens, at + 1, stack, i, j);
        AgreePastOther(tokens, at, stack, i, j);
      }
    }
  }

  /** The depth count finds exactly the pairs a stack finds; an END with nothing
      open is passed over by both. */
  lemma DepthCountIsAStack(tokens: seq<Token>, i: nat, j: nat)
    ensures DepthPair(tokens, i, j) <==> (i, j) in StackPairs(tokens, 0, [])
  {
    StackPairsFrom(tokens, 0, [], i, j);
  }

  // ---------------------------------------------------------------- nesting

  lemma {:induction false} DeeperClosesLater(tokens: seq<Token>, k: nat, a: nat, b: nat)
    requires k <= |tokens| && 1 <= a < b && CloserFrom(tokens, k, b).Some?
    ensures CloserFrom(tokens, k, a).Some?
    ensures CloserFrom(tokens, k, a).value < CloserFrom(tokens, k, b).value
    decreases |tokens| - k
  {
    match tokens[k]
    case Open => DeeperClosesLater(tokens, k + 1, a + 1, b + 1);
    case Other => DeeperClosesLater(tokens, k + 1, a, b);
    case Close =>
      if a > 1 {
        DeeperClosesLater(tokens, k + 1, a - 1, b - 1);
      }
  }

  /** While the closing statement is still ahead, the count is at least one. */
  lemma {:induction false} DepthAt(tokens: seq<Token>, k: nat, depth: nat, j: nat, m: nat) returns (d: nat)
    requires k <= m <= j && k <= |tokens| && depth >= 1 && CloserFrom(tokens, k, depth) == Some(j)
    ensures d >= 1 && CloserFrom(tokens, m, d) == Some(j)
    decreases |tokens| - k
  {
    if k == m {
      d := depth;
    } else {
      match tokens[k]
      case Open => d := DepthAt(tokens, k + 1, depth + 1, j, m);
      case Other => d := DepthAt(tokens, k + 1, depth, j, m);
      case Close => d := DepthAt(tokens, k + 1, depth - 1, j, m);
    }
  }

  lemma PairsNestOrAreDisjoint(tokens: seq<Token>, i: nat, j: nat, i': nat, j': nat)
    requires DepthPair(tokens, i, j) && DepthPair(tokens, i', j') && i < i'
    ensures j < i' || (i' < j' && j' < j)
  {
    if i' <= j {
      var d := DepthAt(tokens, i + 1, 1, j, i');
      DeeperClosesLater(tokens, i' + 1, 1, d + 1);
    }
  }

  // ---------------------------------------------------------------- the search

  /** `lo` and `hi` are lines; the two indices say which statements they are. */
  datatype Procedure = Procedure(kind: string, name: string, lo: nat, hi: nat, endStatement: nat,
                                 opener: nat, closer: nat)

  predicate NamesAgree(open: Opening, close: Closing) {
    open.kind == close.kind && (close.name.Some? && close.name.value != "" ==> close.name.value == open.name)
  }

  /** The procedure opened by statement `i`, when its END agrees with it. */
  function ProcedureAt(lexer: Lexer, statements: seq<Statement>, i: nat): Option<Procedure>
    requires i < |statements|
  {
    var tokens := Tokens(lexer, statements);
    if tokens[i] != Open then None
    else
      match CloserFrom(tokens, i + 1, 1)
      case None => None
      case Some(j) =>
        var open := lexer.opening(statements[i].code).value;
        if !NamesAgree(open, lexer.closing(statements[j].code).value) then None
        else Some(Procedure(open.kind, open.name, statements[i].start, statements[j].end,
                            statements[j].start, i, j))
  }

  function ProceduresIn(lexer: Lexer, statements: seq<Statement>, upto: nat): seq<Procedure>
    requires upto <= |statements|
  {
    if upto == 0 then []
    else
      ProceduresIn(lexer, statements, upto - 1) +
      (match ProcedureAt(lexer, statements, upto - 1) case None => [] case Some(p) => [p])
  }

  function ProceduresOf(lexer: Lexer, lines: seq<string>): seq<Procedure> {
    ProceduresIn(lexer, Logical(lines), |Logical(lines)|)
  }

  /** The statements after an opening one, walked with a depth until the END that closes it. */
  method FindCloser(tokens: seq<Token>, index: nat) returns (closer: Option<nat>)
    requires index < |tokens|
    ensures closer == CloserFrom(tokens, index + 1, 1)
  {
    var depth, later := 1, index + 1;
    while later < |tokens|
      invariant index + 1 <= later <= |tokens| && depth >= 1
      invariant CloserFrom(tokens, later, depth) == CloserFrom(tokens, index + 1, 1)
    {
      if tokens[later] == Open {
        depth := depth + 1;
      } else if tokens[later] == Close {
        if depth == 1 {
          return Some(later);
        }
        depth := depth - 1;
      }
      later := later + 1;
    }
    closer := None;
  }

  /** One turn of the search, from the statement at `index`. */
  method ProcedureFrom(lexer: Lexer, statements: seq<Statement>, index: nat) returns (p: Option<Procedure>)
    requires index < |statements|
    ensures p == ProcedureAt(lexer, statements, index)
  {
    var tokens := Tokens(lexer, statements);
    if tokens[index] != Open {
      return None;
    }
    var open := lexer.opening(statements[index].code).value;
    var closer := FindCloser(tokens, index);
    if closer.None? {
      return None;
    }
    var later := closer.value;
    if !NamesAgree(open, lexer.closing(statements[later].code).value) {
      return None;
    }
    p := Some(Procedure(open.kind, open.name, statements[index].start, statements[later].end, statements[later].start,
                        index, later));
  }

  method FindProcedures(lexer: Lexer, lines: seq<string>) returns (found: seq<Procedure>)
    ensures found == ProceduresOf(lexer, lines)
  {
    var statements, _ := LogicalStatements(lines);
    found := [];
    for index := 0 to |statements|
      invariant found == ProceduresIn(lexer, statements, index)
    {
      var p := ProcedureFrom(lexer, statements, index);
      if p.Some? {
        found := found + [p.value];
      }
    }
  }

  lemma {:induction false} FoundExactly(lexer: Lexer, statements: seq<Statement>, upto: nat, p: Procedure)
    requires upto <= |statements|
    ensures p in ProceduresIn(lexer, statements, upto) <==>
      p.opener < upto && ProcedureAt(lexer, statements, p.opener) == Some(p)
  {
    if upto > 0 {
      FoundExactly(lexer, statements, upto - 1, p);
    }
  }

  /** Statements `i` and `j` open and close something of one kind and name. */
  predicate EndsAgree(lexer: Lexer, statements: seq<Statement>, i: nat, j: nat) {
    && i < j < |statements|
    && lexer.opening(statements[i].code).Some? && lexer.closing(statements[j].code).Some?
    && lexer.opening(statements[i].code).value.kind == lexer.closing(statements[j].code).value.kind
    && (lexer.closing(statements[j].code).value.name.Some? && lexer.closing(statements[j].code).value.name.value != "" ==>
          lexer.closing(statements[j].code).value.name.value == lexer.opening(statements[i].code).value.name)
  }

  lemma EndsAgreeByName(lexer: Lexer, statements: seq<Statement>, i: nat, j: nat)
    requires i < j < |statements| && lexer.opening(statements[i].code).Some? && lexer.closing(statements[j].code).Some?
    ensures EndsAgree(lexer, statements, i, j) <==>
      NamesAgree(lexer.opening(statements[i].code).value, lexer.closing(statements[j].code).value)
  {
  }

  lemma ProcedureAtExactly(lexer: Lexer, statements: seq<Statement>, i: nat, j: nat)
    ensures DepthPair(Tokens(lexer, statements), i, j) && EndsAgree(lexer, statements, i, j) <==>
      i < |statements| && ProcedureAt(lexer, statements, i).Some? && ProcedureAt(lexer, statements, i).value.closer == j
    ensures i < |statements| && ProcedureAt(lexer, statements, i).Some? ==> ProcedureAt(lexer, statements, i).value.opener == i
  {
    if DepthPair(Tokens(lexer, statements), i, j) {
      EndsComeFirst(lexer, statements, i);
      EndsComeFirst(lexer, statements, j);
      EndsAgreeByName(lexer, statements, i, j);
    }
  }

  /** The procedures found are the stack's pairs whose two ends agree, with the
      lines of those two statements. */
  lemma ProceduresAreTheAgreeingPairs(lexer: Lexer, lines: seq<string>, i: nat, j: nat)
    ensures var statements := Logical(lines);
      ((i, j) in StackPairs(Tokens(lexer, statements), 0, []) && EndsAgree(lexer, statements, i, j)) <==>
      (exists p :: p in ProceduresOf(lexer, lines) && p.opener == i && p.closer == j)
    ensures forall p :: p in ProceduresOf(lexer, lines) && p.opener == i && p.closer == j ==>
      i < j < |Logical(lines)| && p.lo == Logical(lines)[i].start &&
      p.hi == Logical(lines)[j].end && p.endStatement == Logical(lines)[j].start
  {
    var statements := Logical(lines);
    DepthCountIsAStack(Tokens(lexer, statements), i, j);
    forall p | p in ProceduresOf(lexer, lines) && p.opener == i && p.closer == j
      ensures i < |statements| && ProcedureAt(lexer, statements, i) == Some(p)
    {
      FoundExactly(lexer, statements, |statements|, p);
    }
    ProcedureAtExactly(lexer, statements, i, j);
    if DepthPair(Tokens(lexer, statements), i, j) && EndsAgree(lexer, statements, i, j) {
      var p := ProcedureAt(lexer, statements, i).value;
      FoundExactly(lexer, statements, |statements|, p);
    }
  }

  /** Two different procedures' line ranges are nested or disjoint. */
  lemma LineRangesNestOrAreDisjoint(lexer: Lexer, lines: seq<string>, p: Procedure, q: Procedure)
    requires p in ProceduresOf(lexer, lines) && q in ProceduresOf(lexer, lines) && p != q
    ensures p.hi < q.lo || q.hi < p.lo || (p.lo < q.lo && q.hi < p.hi) || (q.lo < p.lo && p.hi < q.hi)
  {
    var statements := Logical(lines);
    LogicalStatementsPartitionTheCode(lines);
    FoundExactly(lexer, statements, |statements|, p);
    FoundExactly(lexer, statements, |statements|, q);
    OrderedRanges(lexer, lines, if p.opener < q.opener then p else q, if p.opener < q.opener then q else p);
  }

  lemma OrderedRanges(lexer: Lexer, lines: seq<string>, p: Procedure, q: Procedure)
    requires p.opener < q.opener < |Logical(lines)|
    requires ProcedureAt(lexer, Logical(lines), p.opener) == Some(p)
    requires ProcedureAt(lexer, Logical(lines), q.opener) == Some(q)
    ensures p.hi < q.lo || (p.lo < q.lo && q.hi < p.hi)
  {
    var statements := Logical(lines);
    LogicalStatementsPartitionTheCode(lines);
    PairsNestOrAreDisjoint(Tokens(lexer, statements), p.opener, p.closer, q.opener, q.closer);
    assert statements[p.opener] in statements && statements[q.opener] in statements;
    assert statements[p.closer] in statements && statements[q.closer] in statements;
  }
}
