/** A session transcript lined up against the gateway's request log
    (equivalent/cli/session.py). Rows name the events and request lines they came
    from by position; timestamps are numbers already parsed. */
module Session {
  import opened Wrappers

  datatype EventKind = UserText | AssistantText | ToolCall | LocalToolCall

  datatype Event = Event(ts: int, kind: EventKind, toolCallId: Option<string>, toolName: string)

  datatype Line = Line(ts: int, endpoint: string, action: string, toolCallId: Option<string>, claimId: Option<string>)

  /** A status call writes no request line. */
  const UNLOGGED := "status"

  predicate LineMatchesCall(line: Line, event: Event) {
    if event.toolName == "submit" || event.toolName == "claim" then line.endpoint == event.toolName
    else line.endpoint == "run" && line.action == event.toolName
  }

  // ---------------------------------------------------------------- pass one: by id

  /** The last gateway call made under this id. */
  function CallById(events: seq<Event>, id: string): (r: Option<nat>)
    ensures r.Some? ==> r.value < |events| && events[r.value].kind == ToolCall
    ensures r.Some? ==> events[r.value].toolCallId == Some(id)
    ensures r.None? ==> forall i :: 0 <= i < |events| && events[i].kind == ToolCall ==>
              events[i].toolCallId != Some(id)
  {
    if events == [] then None
    else
      var last := |events| - 1;
      if events[last].kind == ToolCall && events[last].toolCallId == Some(id) then Some(last)
      else CallById(events[..last], id)
  }

  function ById(events: seq<Event>, lines: seq<Line>, n: nat): map<nat, nat>
    requires n <= |lines|
  {
    if n == 0 then map[]
    else
      var paired := ById(events, lines, n - 1);
      match lines[n - 1].toolCallId
      case None => paired
      case Some(id) =>
        match CallById(events, id)
        case None => paired
        case Some(index) => if index in paired.Values then paired else paired[n - 1 := index]
  }

  // ---------------------------------------------------------------- pass two: by position

  /** A call a line without an id may be placed at. */
  predicate Free(event: Event, index: nat, taken: set<nat>) {
    event.kind == ToolCall && index !in taken && event.toolName != UNLOGGED
  }

  function NextFree(events: seq<Event>, taken: set<nat>, cursor: nat): (r: nat)
    requires cursor <= |events|
    ensures cursor <= r <= |events|
    ensures r < |events| ==> Free(events[r], r, taken)
    ensures forall i :: cursor <= i < r ==> !Free(events[i], i, taken)
    decreases |events| - cursor
  {
    if cursor == |events| || Free(events[cursor], cursor, taken) then cursor
    else NextFree(events, taken, cursor + 1)
  }

  datatype Placed = Placed(pairs: map<nat, nat>, cursor: nat)

  /** Line `i` takes the next free call if the name agrees, and nothing otherwise. */
  function PlaceOne(events: seq<Event>, line: Line, i: nat, taken: set<nat>, p: Placed): (r: Placed)
    requires p.cursor <= |events|
    ensures r.cursor <= |events| && p.pairs.Keys <= r.pairs.Keys
  {
    if line.toolCallId.Some? then p
    else
      var c := NextFree(events, taken, p.cursor);
      if c < |events| && LineMatchesCall(line, events[c]) then Placed(p.pairs[i := c], c + 1)
      else Placed(p.pairs, c)
  }

  function ByPosition(events: seq<Event>, lines: seq<Line>, taken: set<nat>, n: nat): (r: Placed)
    requires n <= |lines|
    ensures r.cursor <= |events|
  {
    if n == 0 then Placed(map[], 0)
    else PlaceOne(events, lines[n - 1], n - 1, taken, ByPosition(events, lines, taken, n - 1))
  }

  function Pairing(events: seq<Event>, lines: seq<Line>): map<nat, nat> {
    var ids := ById(events, lines, |lines|);
    ids + ByPosition(events, lines, ids.Values, |lines|).pairs
  }

  // ---------------------------------------------------------------- what a pairing is

  ghost predicate Injective(m: map<nat, nat>) {
    forall i, j :: i in m && j in m && i != j ==> m[i] != m[j]
  }

  ghost predicate OnIds(events: seq<Event>, lines: seq<Line>, n: nat, m: map<nat, nat>)
    requires n <= |lines|
  {
    forall i :: i in m ==>
      i < n && m[i] < |events| && lines[i].toolCallId.Some? &&
      CallById(events, lines[i].toolCallId.value) == Some(m[i])
  }

  /** A line whose call exists is left out only when an earlier line took it. */
  ghost predicate IdsComplete(events: seq<Event>, lines: seq<Line>, n: nat, m: map<nat, nat>)
    requires n <= |lines|
  {
    forall i | 0 <= i < n && lines[i].toolCallId.Some? && i !in m ::
      var call := CallById(events, lines[i].toolCallId.value);
      call.Some? ==> TakenBefore(m, i, call.value)
  }

  ghost predicate TakenBefore(m: map<nat, nat>, i: nat, index: nat) {
    exists j :: j in m && j < i && m[j] == index
  }

  lemma {:induction false} ByIdIsSound(events: seq<Event>, lines: seq<Line>, n: nat)
    requires n <= |lines|
    ensures Injective(ById(events, lines, n)) && OnIds(events, lines, n, ById(events, lines, n))
  {
    if n > 0 {
      ByIdIsSound(events, lines, n - 1);
    }
  }

  lemma {:induction false} ByIdIsComplete(events: seq<Event>, lines: seq<Line>, n: nat)
    requires n <= |lines|
    ensures IdsComplete(events, lines, n, ById(events, lines, n))
  {
    if n > 0 {
      ByIdIsSound(events, lines, n - 1);
      ByIdIsComplete(events, lines, n - 1);
      var before, m := ById(events, lines, n - 1), ById(events, lines, n);
      forall i | 0 <= i < n && lines[i].toolCallId.Some? && i !in m &&
          CallById(events, lines[i].toolCallId.value).Some?
        ensures TakenBefore(m, i, CallById(events, lines[i].toolCallId.value).value)
      {
        var index := CallById(events, lines[i].toolCallId.value).value;
        if i == n - 1 {
          assert index in before.Values;
          var j :| j in before && before[j] == index;
          assert j in m && j < i && m[j] == index;
        } else {
          assert TakenBefore(before, i, index);
          var j :| j in before && j < i && before[j] == index;
          assert j in m && m[j] == index;
        }
      }
    }
  }

  /** Lines without an id go to free calls whose name agrees, in the order of both logs. */
  ghost predicate InPosition(events: seq<Event>, lines: seq<Line>, taken: set<nat>, n: nat, p: Placed)
    requires n <= |lines|
  {
    && (forall i :: i in p.pairs ==>
          i < n && p.pairs[i] < p.cursor <= |events| && lines[i].toolCallId.None? &&
          Free(events[p.pairs[i]], p.pairs[i], taken) && LineMatchesCall(lines[i], events[p.pairs[i]]))
    && (forall i, j :: i in p.pairs && j in p.pairs && i < j ==> p.pairs[i] < p.pairs[j])
  }

  lemma PlaceOneIsSound(events: seq<Event>, lines: seq<Line>, taken: set<nat>, n: nat, p: Placed)
    requires n < |lines| && InPosition(events, lines, taken, n, p) && p.cursor <= |events|
    ensures InPosition(events, lines, taken, n + 1, PlaceOne(events, lines[n], n, taken, p))
  {
  }

  ghost predicate Positioned(events: seq<Event>, lines: seq<Line>, taken: set<nat>, n: nat)
    requires n <= |lines|
  {
    InPosition(events, lines, taken, n, ByPosition(events, lines, taken, n))
  }

  lemma NextIsPositioned(events: seq<Event>, lines: seq<Line>, taken: set<nat>, n: nat)
    requires n < |lines| && Positioned(events, lines, taken, n)
    ensures Positioned(events, lines, taken, n + 1)
  {
    PlaceOneIsSound(events, lines, taken, n, ByPosition(events, lines, taken, n));
  }

  lemma {:induction false} ByPositionIsSound(events: seq<Event>, lines: seq<Line>, taken: set<nat>, n: nat)
    requires n <= |lines|
    ensures Positioned(events, lines, taken, n)
  {
    if n > 0 {
      ByPositionIsSound(events, lines, taken, n - 1);
      NextIsPositioned(events, lines, taken, n - 1);
    }
  }

  /** The pairing is a partial injection into the gateway calls; pairs by id agree
      on the id, and pairs by position increase in both logs and agree by name. */
  lemma PairingIsAPartialInjection(events: seq<Event>, lines: seq<Line>)
    ensures var m := Pairing(events, lines);
      && Injective(m)
      && (forall i :: i in m ==> i < |lines| && m[i] < |events| && events[m[i]].kind == ToolCall)
      && (forall i :: i in m && lines[i].toolCallId.Some? ==> events[m[i]].toolCallId == lines[i].toolCallId)
      && (forall i :: i in m && lines[i].toolCallId.None? ==>
           LineMatchesCall(lines[i], events[m[i]]) && events[m[i]].toolName != UNLOGGED)
      && (forall i, j | i in m && j in m && i < j ::
           lines[i].toolCallId.None? && lines[j].toolCallId.None? ==> m[i] < m[j])
  {
    var ids := ById(events, lines, |lines|);
    ByIdIsSound(events, lines, |lines|);
    ByPositionIsSound(events, lines, ids.Values, |lines|);
  }

  /** An unpaired line is unpaired for a reason: by id, its call does not exist or
      an earlier line has it; by position, the next free call is not its own. */
  lemma UnpairedForAReason(events: seq<Event>, lines: seq<Line>, i: nat)
    requires i < |lines| && i !in Pairing(events, lines)
    ensures lines[i].toolCallId.Some? ==>
      var call := CallById(events, lines[i].toolCallId.value);
      call.None? || TakenBefore(ById(events, lines, |lines|), i, call.value)
    ensures lines[i].toolCallId.None? ==>
      var taken := ById(events, lines, |lines|).Values;
      var c := NextFree(events, taken, ByPosition(events, lines, taken, i).cursor);
      c == |events| || !LineMatchesCall(lines[i], events[c])
  {
    ByIdIsComplete(events, lines, |lines|);
    var taken := ById(events, lines, |lines|).Values;
    if lines[i].toolCallId.None? {
      PositionsOnlyGrow(events, lines, taken, i + 1, |lines|);
    }
  }

  lemma {:induction false} PositionsOnlyGrow(events: seq<Event>, lines: seq<Line>, taken: set<nat>, a: nat, b: nat)
    requires a <= b <= |lines|
    ensures ByPosition(events, lines, taken, a).pairs.Keys <= ByPosition(events, lines, taken, b).pairs.Keys
  {
    if a < b {
      PositionsOnlyGrow(events, lines, taken, a, b - 1);
    }
  }

  /** A gateway call that leaves a line in the log, and that no line was paired with by id. */
  ghost predicate Unclaimed(events: seq<Event>, lines: seq<Line>, m: map<nat, nat>, c: nat) {
    && c < |events| && events[c].kind == ToolCall && events[c].toolName != UNLOGGED
    && forall j :: j in m && j < |lines| && lines[j].toolCallId.Some? ==> m[j] != c
  }

  /** The call line `i` is compared with: the first unclaimed one behind all that earlier lines were placed at. */
  ghost predicate NextInLine(events: seq<Event>, lines: seq<Line>, m: map<nat, nat>, i: nat, c: nat)
    requires i <= |lines|
  {
    && Unclaimed(events, lines, m, c)
    && (forall j :: j in m && j < i && lines[j].toolCallId.None? ==> m[j] < c)
    && forall d: nat :: d < c && Unclaimed(events, lines, m, d) ==> Passed(lines, m, i, d)
  }

  ghost predicate Passed(lines: seq<Line>, m: map<nat, nat>, i: nat, d: nat)
    requires i <= |lines|
  {
    exists j :: j in m && j < i && lines[j].toolCallId.None? && d <= m[j]
  }

  ghost predicate Produced(line: Line, call: Event) {
    if call.toolName in {"submit", "claim"} then line.endpoint == call.toolName
    else line.endpoint == "run" && line.action == call.toolName
  }

  /** What the cursor has gone over was free for no line, or stands at or before a call already placed. */
  ghost predicate Tight(events: seq<Event>, taken: set<nat>, p: Placed) {
    forall d: nat :: d < p.cursor && d < |events| && Free(events[d], d, taken) ==> exists j :: j in p.pairs && d <= p.pairs[j]
  }

  lemma PlaceOneIsTight(events: seq<Event>, line: Line, i: nat, taken: set<nat>, p: Placed)
    requires p.cursor <= |events| && Tight(events, taken, p) && i !in p.pairs
    ensures Tight(events, taken, PlaceOne(events, line, i, taken, p))
  {
    var r := PlaceOne(events, line, i, taken, p);
    forall d: nat | d < r.cursor && d < |events| && Free(events[d], d, taken)
      ensures exists j :: j in r.pairs && d <= r.pairs[j]
    {
      if d < p.cursor {
        var j :| j in p.pairs && d <= p.pairs[j];
        assert j in r.pairs && r.pairs[j] == p.pairs[j];
      } else {
        assert i in r.pairs && r.pairs[i] == d;
      }
    }
  }

  ghost predicate TightAt(events: seq<Event>, lines: seq<Line>, taken: set<nat>, n: nat)
    requires n <= |lines|
  {
    Tight(events, taken, ByPosition(events, lines, taken, n))
  }

  lemma NextIsTight(events: seq<Event>, lines: seq<Line>, taken: set<nat>, n: nat)
    requires n < |lines| && TightAt(events, lines, taken, n)
    ensures TightAt(events, lines, taken, n + 1)
  {
    ByPositionIsSound(events, lines, taken, n);
    PlaceOneIsTight(events, lines[n], n, taken, ByPosition(events, lines, taken, n));
  }

  lemma {:induction false} PositionsAreTight(events: seq<Event>, lines: seq<Line>, taken: set<nat>, n: nat)
    requires n <= |lines|
    ensures TightAt(events, lines, taken, n)
  {
    if n > 0 {
      PositionsAreTight(events, lines, taken, n - 1);
      NextIsTight(events, lines, taken, n - 1);
    }
  }

  /** Later lines move no earlier pair. */
  lemma {:induction false} PositionsStay(events: seq<Event>, lines: seq<Line>, taken: set<nat>, n: nat, i: nat)
    requires i <= n <= |lines|
    ensures var was, all := ByPosition(events, lines, taken, i).pairs, ByPosition(events, lines, taken, n).pairs;
      forall j :: j < i ==> (j in all <==> j in was) && (j in was ==> all[j] == was[j])
  {
    if i < n {
      PositionsStay(events, lines, taken, n - 1, i);
    }
  }

  /** The whole pairing against the state of the second pass before line `i`. */
  lemma PairingBefore(events: seq<Event>, lines: seq<Line>, i: nat)
    requires i <= |lines|
    ensures var ids, m := ById(events, lines, |lines|), Pairing(events, lines);
      var before := ByPosition(events, lines, ids.Values, i).pairs;
      && (forall j :: j in m && j < i && lines[j].toolCallId.None? <==> j in before)
      && (forall j :: j in before ==> m[j] == before[j])
      && (forall c: nat :: Unclaimed(events, lines, m, c) <==> c < |events| && Free(events[c], c, ids.Values))
  {
    var ids, m := ById(events, lines, |lines|), Pairing(events, lines);
    ByIdIsSound(events, lines, |lines|);
    ByPositionIsSound(events, lines, ids.Values, |lines|);
    ByPositionIsSound(events, lines, ids.Values, i);
    PositionsStay(events, lines, ids.Values, |lines|, i);
    forall c: nat
      ensures (forall j :: j in m && j < |lines| && lines[j].toolCallId.Some? ==> m[j] != c) <==> c !in ids.Values
    {
      if j :| j in ids && ids[j] == c {
        assert j in m && lines[j].toolCallId.Some?;
      }
    }
  }

  lemma NextFreeIsNext(events: seq<Event>, lines: seq<Line>, i: nat, c: nat)
    requires i <= |lines| && c < |events| && c == CallFor(events, lines, i)
    ensures NextInLine(events, lines, Pairing(events, lines), i, c)
  {
    var taken := ById(events, lines, |lines|).Values;
    var before, m := ByPosition(events, lines, taken, i), Pairing(events, lines);
    PairingBefore(events, lines, i);
    ByPositionIsSound(events, lines, taken, i);
    PositionsAreTight(events, lines, taken, i);
    forall d: nat | d < c && Unclaimed(events, lines, m, d) ensures Passed(lines, m, i, d) {
      assert d < before.cursor;
      var j :| j in before.pairs && d <= before.pairs[j];
      assert j in m && m[j] == before.pairs[j];
    }
  }

  lemma NextIsOne(events: seq<Event>, lines: seq<Line>, i: nat, c: nat, d: nat)
    requires i <= |lines| && NextInLine(events, lines, Pairing(events, lines), i, c) && NextInLine(events, lines, Pairing(events, lines), i, d)
    ensures c == d
  {
    var m := Pairing(events, lines);
    assert !Passed(lines, m, i, c) && !Passed(lines, m, i, d);
  }

  /** The call the second pass comes to for line `i`, or the end of the transcript. */
  ghost function CallFor(events: seq<Event>, lines: seq<Line>, i: nat): nat
    requires i <= |lines|
  {
    var taken := ById(events, lines, |lines|).Values;
    NextFree(events, taken, ByPosition(events, lines, taken, i).cursor)
  }

  lemma PlacedExactly(events: seq<Event>, lines: seq<Line>, i: nat)
    requires i < |lines| && lines[i].toolCallId.None?
    ensures var m, c := Pairing(events, lines), CallFor(events, lines, i);
      && (i in m <==> c < |events| && Produced(lines[i], events[c]))
      && (i in m ==> m[i] == c)
  {
    var taken := ById(events, lines, |lines|).Values;
    PairingBefore(events, lines, i + 1);
    ByPositionIsSound(events, lines, taken, i);
  }

  /** A line without an id is paired with the next call in line if it can have made it, and else with none:
      that call is not passed over, and stays the next. */
  lemma PositionsExactly(events: seq<Event>, lines: seq<Line>, i: nat)
    requires i < |lines| && lines[i].toolCallId.None?
    ensures var m := Pairing(events, lines);
      && (i in m <==> exists c: nat :: NextInLine(events, lines, m, i, c) && Produced(lines[i], events[c]))
      && (i in m ==> NextInLine(events, lines, m, i, m[i]))
  {
    var m, c := Pairing(events, lines), CallFor(events, lines, i);
    PlacedExactly(events, lines, i);
    if c < |events| {
      NextFreeIsNext(events, lines, i, c);
      forall d: nat | NextInLine(events, lines, m, i, d) ensures d == c {
        NextIsOne(events, lines, i, d, c);
      }
    } else {
      forall d: nat ensures !NextInLine(events, lines, m, i, d) {
        NoneIsNext(events, lines, i, d);
      }
    }
  }

  lemma NoneIsNext(events: seq<Event>, lines: seq<Line>, i: nat, d: nat)
    requires i <= |lines| && CallFor(events, lines, i) == |events|
    ensures !NextInLine(events, lines, Pairing(events, lines), i, d)
  {
    var taken := ById(events, lines, |lines|).Values;
    var before, m := ByPosition(events, lines, taken, i), Pairing(events, lines);
    PairingBefore(events, lines, i);
    PositionsAreTight(events, lines, taken, i);
    if Unclaimed(events, lines, m, d) {
      var j :| j in before.pairs && d <= before.pairs[j];
      assert j in m && m[j] == before.pairs[j];
    }
  }

  // ---------------------------------------------------------------- rows

  datatype Row = Row(ts: int, event: Option<nat>, line: Option<nat>)

  /** Event positions back to the lines paired with them. */
  function Inverse(m: map<nat, nat>): (r: map<nat, nat>)
    requires Injective(m)
    ensures forall j :: j in m ==> m[j] in r && r[m[j]] == j
    ensures forall i :: i in r ==> r[i] in m && m[r[i]] == i
  {
    map j | j in m :: m[j] := j
  }

  /** One row per event, holding its line when it has one. */
  function EventRows(events: seq<Event>, inverse: map<nat, nat>, n: nat): seq<Row>
    requires n <= |events|
  {
    if n == 0 then []
    else
      EventRows(events, inverse, n - 1) +
      [Row(events[n - 1].ts, Some(n - 1), if n - 1 in inverse then Some(inverse[n - 1]) else None)]
  }

  /** One row per line nothing was paired with. */
  function LineRows(lines: seq<Line>, m: map<nat, nat>, n: nat): seq<Row>
    requires n <= |lines|
  {
    if n == 0 then []
    else LineRows(lines, m, n - 1) + (if n - 1 in m then [] else [Row(lines[n - 1].ts, None, Some(n - 1))])
  }

  function UnsortedRows(events: seq<Event>, lines: seq<Line>): seq<Row> {
    PairingIsAPartialInjection(events, lines);
    var m := Pairing(events, lines);
    EventRows(events, Inverse(m), |events|) + LineRows(lines, m, |lines|)
  }

  function InsertRow(r: Row, s: seq<Row>): seq<Row> {
    if s == [] || r.ts <= s[0].ts then [r] + s else [s[0]] + InsertRow(r, s[1..])
  }

  function SortRows(s: seq<Row>): seq<Row> {
    if s == [] then [] else InsertRow(s[0], SortRows(s[1..]))
  }

  ghost predicate InTimeOrder(s: seq<Row>) {
    forall i, j :: 0 <= i < j < |s| ==> s[i].ts <= s[j].ts
  }

  /** The rows of one second, in the order they stand. */
  function OfTime(s: seq<Row>, ts: int): seq<Row> {
    if s == [] then [] else (if s[0].ts == ts then [s[0]] else []) + OfTime(s[1..], ts)
  }

  lemma {:induction false} InsertKeepsOrder(r: Row, s: seq<Row>)
    requires InTimeOrder(s)
    ensures InTimeOrder(InsertRow(r, s))
    ensures InsertRow(r, s) != []
    ensures InsertRow(r, s)[0].ts == if s == [] || r.ts <= s[0].ts then r.ts else s[0].ts
  {
    if s != [] && r.ts > s[0].ts {
      InsertKeepsOrder(r, s[1..]);
      var t := InsertRow(r, s[1..]);
      assert s[0].ts <= t[0].ts;
    }
  }

  lemma {:induction false} InsertIsStable(r: Row, s: seq<Row>, ts: int)
    requires InTimeOrder(s)
    ensures OfTime(InsertRow(r, s), ts) == (if r.ts == ts then [r] else []) + OfTime(s, ts)
  {
    if s == [] || r.ts <= s[0].ts {
      OfTimeCons(r, s, ts);
    } else {
      InsertIsStable(r, s[1..], ts);
      OfTimeCons(s[0], InsertRow(r, s[1..]), ts);
    }
  }

  lemma OfTimeCons(r: Row, s: seq<Row>, ts: int)
    ensures OfTime([r] + s, ts) == (if r.ts == ts then [r] else []) + OfTime(s, ts)
  {
    assert ([r] + s)[1..] == s;
  }

  /** Sorting puts the rows in time order and moves none past another of its own second. */
  lemma {:induction false} SortIsStable(s: seq<Row>, ts: int)
    ensures InTimeOrder(SortRows(s)) && |SortRows(s)| == |s|
    ensures OfTime(SortRows(s), ts) == OfTime(s, ts)
  {
    if s != [] {
      SortIsStable(s[1..], ts);
      InsertKeepsOrder(s[0], SortRows(s[1..]));
      InsertIsStable(s[0], SortRows(s[1..]), ts);
      InsertAddsOne(s[0], SortRows(s[1..]));
    }
  }

  lemma InsertAddsOne(r: Row, s: seq<Row>)
    ensures |InsertRow(r, s)| == |s| + 1
  {
  }

  // ---------------------------------------------------------------- nothing lost, nothing twice

  function EventCount(s: seq<Row>, i: nat): nat {
    if s == [] then 0 else (if s[0].event == Some(i) then 1 else 0) + EventCount(s[1..], i)
  }

  function LineCount(s: seq<Row>, j: nat): nat {
    if s == [] then 0 else (if s[0].line == Some(j) then 1 else 0) + LineCount(s[1..], j)
  }

  lemma {:induction false} CountsAdd(a: seq<Row>, b: seq<Row>, k: nat)
    ensures EventCount(a + b, k) == EventCount(a, k) + EventCount(b, k)
    ensures LineCount(a + b, k) == LineCount(a, k) + LineCount(b, k)
  {
    if a == [] {
      assert a + b == b;
    } else {
      CountsAdd(a[1..], b, k);
      assert (a + b)[1..] == a[1..] + b;
    }
  }

  lemma {:induction false} InsertKeepsCounts(r: Row, s: seq<Row>, k: nat)
    ensures EventCount(InsertRow(r, s), k) == EventCount([r] + s, k)
    ensures LineCount(InsertRow(r, s), k) == LineCount([r] + s, k)
  {
    if s != [] && r.ts > s[0].ts {
      InsertKeepsCounts(r, s[1..], k);
      CountsAdd([r], s, k);
      CountsAdd([r], s[1..], k);
      CountsAdd([s[0]], InsertRow(r, s[1..]), k);
    }
  }

  lemma {:induction false} SortKeepsCounts(s: seq<Row>, k: nat)
    ensures EventCount(SortRows(s), k) == EventCount(s, k)
    ensures LineCount(SortRows(s), k) == LineCount(s, k)
  {
    if s != [] {
      SortKeepsCounts(s[1..], k);
      InsertKeepsCounts(s[0], SortRows(s[1..]), k);
      CountsAdd([s[0]], SortRows(s[1..]), k);
    }
  }

  lemma {:induction false} EventRowCounts(events: seq<Event>, m: map<nat, nat>, n: nat, k: nat)
    requires n <= |events| && Injective(m)
    ensures EventCount(EventRows(events, Inverse(m), n), k) == if k < n then 1 else 0
    ensures LineCount(EventRows(events, Inverse(m), n), k) == if k in m && m[k] < n then 1 else 0
  {
    if n > 0 {
      EventRowCounts(events, m, n - 1, k);
      var inverse := Inverse(m);
      var last := Row(events[n - 1].ts, Some(n - 1), if n - 1 in inverse then Some(inverse[n - 1]) else None);
      CountsAdd(EventRows(events, inverse, n - 1), [last], k);
      assert EventCount([last], k) == (if k == n - 1 then 1 else 0);
      assert LineCount([last], k) == (if last.line == Some(k) then 1 else 0);
    }
  }

  lemma {:induction false} LineRowCounts(lines: seq<Line>, m: map<nat, nat>, n: nat, k: nat)
    requires n <= |lines|
    ensures EventCount(LineRows(lines, m, n), k) == 0
    ensures LineCount(LineRows(lines, m, n), k) == if k < n && k !in m then 1 else 0
  {
    if n > 0 {
      LineRowCounts(lines, m, n - 1, k);
      var last := Row(lines[n - 1].ts, None, Some(n - 1));
      CountsAdd(LineRows(lines, m, n - 1), if n - 1 in m then [] else [last], k);
      assert EventCount([last], k) == 0 && LineCount([last], k) == (if k == n - 1 then 1 else 0);
    }
  }

  /** Every event and every request line is in exactly one row of the timeline. */
  lemma NothingLostNothingTwice(events: seq<Event>, lines: seq<Line>, k: nat)
    ensures k < |events| ==> EventCount(SortRows(UnsortedRows(events, lines)), k) == 1
    ensures k < |lines| ==> LineCount(SortRows(UnsortedRows(events, lines)), k) == 1
  {
    PairingIsAPartialInjection(events, lines);
    var m := Pairing(events, lines);
    SortKeepsCounts(UnsortedRows(events, lines), k);
    CountsAdd(EventRows(events, Inverse(m), |events|), LineRows(lines, m, |lines|), k);
    EventRowCounts(events, m, |events|, k);
    LineRowCounts(lines, m, |lines|, k);
  }

  // ---------------------------------------------------------------- what a row says

  /** A row of the timeline: an event, at the event's own time, with the line paired with it if there is
      one; or a line nothing was paired with, at the line's own time. */
  ghost predicate TellsTheLogs(events: seq<Event>, lines: seq<Line>, r: Row) {
    var m := Pairing(events, lines);
    && (r.event.Some? ==>
          && r.event.value < |events| && r.ts == events[r.event.value].ts
          && (forall j: nat :: r.line == Some(j) <==> j in m && m[j] == r.event.value))
    && (r.event.None? ==> r.line.Some? && r.line.value < |lines| && r.line.value !in m && r.ts == lines[r.line.value].ts)
  }

  lemma {:induction false} EventRowsTell(events: seq<Event>, lines: seq<Line>, n: nat)
    requires n <= |events| && Injective(Pairing(events, lines))
    ensures forall r :: r in EventRows(events, Inverse(Pairing(events, lines)), n) ==> TellsTheLogs(events, lines, r)
  {
    if n > 0 {
      EventRowsTell(events, lines, n - 1);
    }
  }

  lemma {:induction false} LineRowsTell(events: seq<Event>, lines: seq<Line>, n: nat)
    requires n <= |lines|
    ensures forall r :: r in LineRows(lines, Pairing(events, lines), n) ==> TellsTheLogs(events, lines, r)
  {
    if n > 0 {
      LineRowsTell(events, lines, n - 1);
    }
  }

  lemma {:induction false} InsertKeepsRows(r: Row, s: seq<Row>)
    ensures forall x :: x in InsertRow(r, s) <==> x == r || x in s
  {
    if s != [] {
      InsertKeepsRows(r, s[1..]);
      assert forall x :: x in s <==> x == s[0] || x in s[1..];
    }
  }

  lemma {:induction false} SortKeepsRows(s: seq<Row>)
    ensures forall x :: x in SortRows(s) <==> x in s
  {
    if s != [] {
      SortKeepsRows(s[1..]);
      InsertKeepsRows(s[0], SortRows(s[1..]));
      assert forall x :: x in s <==> x == s[0] || x in s[1..];
    }
  }

  /** The timeline in the logs' own time: every row tells the logs, and no row stands before one of an
      earlier time. */
  lemma TimelineTellsTheLogs(events: seq<Event>, lines: seq<Line>)
    ensures var rows := SortRows(UnsortedRows(events, lines));
      && InTimeOrder(rows) && forall r :: r in rows ==> TellsTheLogs(events, lines, r)
  {
    PairingIsAPartialInjection(events, lines);
    SortIsStable(UnsortedRows(events, lines), 0);
    SortKeepsRows(UnsortedRows(events, lines));
    EventRowsTell(events, lines, |events|);
    LineRowsTell(events, lines, |lines|);
  }

  // ---------------------------------------------------------------- the join

  /** `verdicts` goes with `rows`: how the claim of each row's request line came out. */
  datatype JoinResult<V> = JoinResult(rows: seq<Row>, verdicts: seq<Option<V>>, unmatchedCalls: seq<nat>, unmatchedRequests: seq<nat>)

  /** Read from the ledger's verdicts by claim id, never from the transcript. */
  function VerdictOf<V>(lines: seq<Line>, verdicts: map<string, V>, row: Row): Option<V> {
    if row.line.Some? && row.line.value < |lines| then
      var id := lines[row.line.value].claimId;
      if id.Some? && id.value in verdicts then Some(verdicts[id.value]) else None
    else None
  }

  /** A row has a verdict exactly when its request line names a claim the ledger has one for, and then
      that one. */
  lemma VerdictsAreTheLedgers<V>(events: seq<Event>, lines: seq<Line>, verdicts: map<string, V>, row: Row)
    requires TellsTheLogs(events, lines, row)
    ensures forall v :: VerdictOf(lines, verdicts, row) == Some(v) <==>
      exists j :: 0 <= j < |lines| && row.line == Some(j) && lines[j].claimId.Some? && lines[j].claimId.value in verdicts
        && verdicts[lines[j].claimId.value] == v
  {
  }

  method VerdictsOf<V>(lines: seq<Line>, verdicts: map<string, V>, rows: seq<Row>) returns (r: seq<Option<V>>)
    ensures |r| == |rows| && forall k :: 0 <= k < |rows| ==> r[k] == VerdictOf(lines, verdicts, rows[k])
  {
    r := [];
    for k := 0 to |rows|
      invariant |r| == k && forall j :: 0 <= j < k ==> r[j] == VerdictOf(lines, verdicts, rows[j])
    {
      r := r + [VerdictOf(lines, verdicts, rows[k])];
    }
  }

  method PairById(events: seq<Event>, lines: seq<Line>) returns (paired: map<nat, nat>)
    ensures paired == ById(events, lines, |lines|)
  {
    paired := map[];
    for i := 0 to |lines|
      invariant paired == ById(events, lines, i)
    {
      if lines[i].toolCallId.Some? {
        var index := CallById(events, lines[i].toolCallId.value);
        if index.Some? && index.value !in paired.Values {
          paired := paired[i := index.value];
        }
      }
    }
  }

  /** The cursor only moves forward, past what no line could be placed at. */
  method PairByPosition(events: seq<Event>, lines: seq<Line>, ids: map<nat, nat>) returns (paired: map<nat, nat>)
    ensures paired == ByPosition(events, lines, ids.Values, |lines|).pairs
  {
    paired := map[];
    var cursor := 0;
    for i := 0 to |lines|
      invariant ByPosition(events, lines, ids.Values, i) == Placed(paired, cursor)
    {
      if lines[i].toolCallId.Some? {
        continue;
      }
      ghost var from := cursor;
      while cursor < |events| && !Free(events[cursor], cursor, ids.Values)
        invariant cursor <= |events|
        invariant NextFree(events, ids.Values, from) == NextFree(events, ids.Values, cursor)
        decreases |events| - cursor
      {
        cursor := cursor + 1;
      }
      if cursor < |events| && LineMatchesCall(lines[i], events[cursor]) {
        paired := paired[i := cursor];
        cursor := cursor + 1;
      }
    }
  }

  predicate IsCall(e: Event) {
    e.kind == ToolCall || e.kind == LocalToolCall
  }

  ghost predicate Ascending(s: seq<nat>) {
    forall i, j :: 0 <= i < j < |s| ==> s[i] < s[j]
  }

  method EventTimeline(events: seq<Event>, eventToLine: map<nat, nat>) returns (rows: seq<Row>, unmatched: seq<nat>)
    ensures rows == EventRows(events, eventToLine, |events|)
    ensures forall k: nat :: k in unmatched <==> k < |events| && IsCall(events[k]) && k !in eventToLine
    ensures Ascending(unmatched)
  {
    rows, unmatched := [], [];
    for i := 0 to |events|
      invariant rows == EventRows(events, eventToLine, i)
      invariant forall k: nat :: k in unmatched <==> k < i && IsCall(events[k]) && k !in eventToLine
      invariant Ascending(unmatched)
    {
      var line := if i in eventToLine then Some(eventToLine[i]) else None;
      if IsCall(events[i]) && line.None? {
        assert forall a :: 0 <= a < |unmatched| ==> unmatched[a] in unmatched;
        unmatched := unmatched + [i];
      }
      rows := rows + [Row(events[i].ts, Some(i), line)];
    }
  }

  method LineTimeline(lines: seq<Line>, paired: map<nat, nat>) returns (rows: seq<Row>, unmatched: seq<nat>)
    ensures rows == LineRows(lines, paired, |lines|)
    ensures forall k: nat :: k in unmatched <==> k < |lines| && k !in paired
    ensures Ascending(unmatched)
  {
    rows, unmatched := [], [];
    for j := 0 to |lines|
      invariant rows == LineRows(lines, paired, j)
      invariant forall k: nat :: k in unmatched <==> k < j && k !in paired
      invariant Ascending(unmatched)
    {
      if j !in paired {
        assert forall a :: 0 <= a < |unmatched| ==> unmatched[a] in unmatched;
        unmatched := unmatched + [j];
        rows := rows + [Row(lines[j].ts, None, Some(j))];
      }
    }
  }

  /** A call is unmatched when no line was paired with it, a line when it was
      paired with no call; the rows are those of both logs, stably by time. */
  method Join<V>(events: seq<Event>, lines: seq<Line>, verdicts: map<string, V>) returns (r: JoinResult<V>)
    ensures r.rows == SortRows(UnsortedRows(events, lines)) && |r.verdicts| == |r.rows|
    ensures InTimeOrder(r.rows) && forall row :: row in r.rows ==> TellsTheLogs(events, lines, row)
    ensures forall k :: 0 <= k < |r.rows| ==> r.verdicts[k] == VerdictOf(lines, verdicts, r.rows[k])
    ensures forall k: nat :: k in r.unmatchedCalls <==>
      k < |events| && events[k].kind in {ToolCall, LocalToolCall} && k !in Pairing(events, lines).Values
    ensures forall k: nat :: k in r.unmatchedRequests <==> k < |lines| && k !in Pairing(events, lines)
    ensures Ascending(r.unmatchedCalls) && Ascending(r.unmatchedRequests)
  {
    var ids := PairById(events, lines);
    var positions := PairByPosition(events, lines, ids);
    var paired := ids + positions;
    assert paired == Pairing(events, lines);
    PairingIsAPartialInjection(events, lines);
    var eventToLine := Inverse(paired);
    assert eventToLine.Keys == paired.Values;
    var rows, unmatchedCalls := EventTimeline(events, eventToLine);
    var rest, unmatchedRequests := LineTimeline(lines, paired);
    rows := SortRows(rows + rest);
    TimelineTellsTheLogs(events, lines);
    var found := VerdictsOf(lines, verdicts, rows);
    r := JoinResult(rows, found, unmatchedCalls, unmatchedRequests);
  }
}
