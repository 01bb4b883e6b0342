/** Many processes, one ledger file: writers that take a lock, readers that do not, and the cache
    each store keeps of its last parse. */
module LedgerStore {
  import opened Wrappers
  import opened LedgerFile

  // ---------------------------------------------------------------- the file, step by step

  /** What readers can see, what the writer holding the lock has still to flush, every claim
      whose writing has begun, and which of those were given their id by the store. */
  datatype File<C> = File(content: string, pending: string, log: seq<C>, recorded: seq<nat>)

  /** One step of some process. Only one writer holds the lock, so a write begins only when
      nothing is pending; a flush may stop anywhere in the line. */
  datatype Event<!C> = Append(c: C) | Record(make: string -> C) | Flush(n: nat)

  function NewId<C>(codec: Codec<C>, content: string): string
    requires Parse(codec, content).Ok?
  {
    IdAfter(codec, Parse(codec, content).value)
  }

  predicate Enabled<C>(codec: Codec<C>, f: File<C>, e: Event<C>) {
    match e
    case Append(_) => f.pending == ""
    case Record(make) =>
      f.pending == "" && Parse(codec, f.content).Ok? && codec.id(make(NewId(codec, f.content))) == NewId(codec, f.content)
    case Flush(n) => n <= |f.pending|
  }

  function Next<C>(codec: Codec<C>, f: File<C>, e: Event<C>): File<C>
    requires Enabled(codec, f, e)
  {
    match e
    case Append(c) => Begun(codec, f, c)
    case Record(make) => Begun(codec, f, make(NewId(codec, f.content))).(recorded := f.recorded + [|f.log|])
    case Flush(n) => f.(content := f.content + f.pending[..n], pending := f.pending[n..])
  }

  /** A run of the file: every state from the empty one on. */
  ghost predicate Trace<C(!new)>(codec: Codec<C>, run: seq<File<C>>) {
    && |run| > 0 && run[0] == File("", "", [], [])
    && forall i {:trigger run[i]} :: 0 < i < |run| ==> Stepped(codec, run[i - 1], run[i])
  }

  ghost predicate Stepped<C(!new)>(codec: Codec<C>, f: File<C>, g: File<C>) {
    exists e :: Enabled(codec, f, e) && g == Next(codec, f, e)
  }

  /** Nothing is ever lost or rewritten: the flushed and the pending text are exactly the claims. */
  ghost predicate Sound<C>(codec: Codec<C>, f: File<C>) {
    f.content + f.pending == Flatten(codec, f.log)
  }

  /** The claim at `k` has a number, above that of every claim before it. */
  ghost predicate NumberedAbove<C>(codec: Codec<C>, log: seq<C>, k: nat)
    requires k < |log|
  {
    NumberOf(codec.id(log[k])).Some? && AllBelow(codec, log, k, NumberOf(codec.id(log[k])).value)
  }

  ghost predicate IdsIncrease<C>(codec: Codec<C>, f: File<C>) {
    && (forall r :: 0 <= r < |f.recorded| ==> f.recorded[r] < |f.log| && NumberedAbove(codec, f.log, f.recorded[r]))
    && (forall r, s :: 0 <= r < s < |f.recorded| ==> f.recorded[r] < f.recorded[s])
  }

  function Begun<C>(codec: Codec<C>, f: File<C>, c: C): File<C> {
    f.(pending := codec.Line(c) + "\n", log := f.log + [c])
  }

  lemma BeginningKeepsSound<C>(codec: Codec<C>, f: File<C>, c: C)
    requires Sound(codec, f) && f.pending == ""
    ensures Sound(codec, Begun(codec, f, c))
  {
    FlattenOneMore(codec, f.log, c);
    assert f.content + "" == f.content;
    assert f.content + codec.Line(c) + "\n" == f.content + (codec.Line(c) + "\n");
  }

  lemma StepKeepsSound<C(!new)>(codec: Codec<C>, f: File<C>, e: Event<C>)
    requires Sound(codec, f) && Enabled(codec, f, e)
    ensures Sound(codec, Next(codec, f, e)) && f.content <= Next(codec, f, e).content && f.log <= Next(codec, f, e).log
  {
    match e
    case Append(c) => BeginningKeepsSound(codec, f, c);
    case Record(make) => BeginningKeepsSound(codec, f, make(NewId(codec, f.content)));
    case Flush(n) => assert f.content + f.pending[..n] + f.pending[n..] == f.content + f.pending;
  }

  lemma NewIdOf<C>(codec: Codec<C>, f: File<C>)
    requires Parse(codec, Flatten(codec, f.log)) == Ok(f.log) && Sound(codec, f) && f.pending == ""
    ensures Parse(codec, f.content).Ok? && NewId(codec, f.content) == IdAfter(codec, f.log)
  {
    assert f.content + f.pending == f.content;
  }

  /** A writer reads the ledger under the lock, so it sees every claim, and its id is above them all. */
  lemma WritersSeeEverything<C(!new)>(codec: Codec<C>, f: File<C>)
    requires Faithful(codec) && Sound(codec, f) && f.pending == ""
    ensures Parse(codec, f.content).Ok? && NewId(codec, f.content) == IdAfter(codec, f.log)
  {
    ReadingItAll(codec, f.log);
    NewIdOf(codec, f);
  }

  /** Every numbered claim of the log before position `end` has a number below `n`. */
  ghost predicate AllBelow<C>(codec: Codec<C>, log: seq<C>, end: nat, n: nat) {
    forall i :: 0 <= i < end && i < |log| && NumberOf(codec.id(log[i])).Some? ==> NumberOf(codec.id(log[i])).value < n
  }

  lemma NewIdIsAbove<C>(codec: Codec<C>, log: seq<C>)
    ensures NumberOf(IdAfter(codec, log)) == Some(MaxNumber(codec, log) + 1)
    ensures AllBelow(codec, log, |log|, MaxNumber(codec, log) + 1)
  {
    IdReadsBack(MaxNumber(codec, log) + 1);
    forall i | 0 <= i < |log| && NumberOf(codec.id(log[i])).Some?
      ensures NumberOf(codec.id(log[i])).value <= MaxNumber(codec, log)
    {
      MaxNumberIsAboveAll(codec, log, i);
    }
  }

  lemma LongerLogKeepsIds<C>(codec: Codec<C>, f: File<C>, g: File<C>)
    requires IdsIncrease(codec, f) && f.log <= g.log && g.recorded == f.recorded
    ensures IdsIncrease(codec, g)
  {
    forall r | 0 <= r < |g.recorded|
      ensures g.recorded[r] < |g.log| && NumberedAbove(codec, g.log, g.recorded[r])
    {
      assert NumberedAbove(codec, f.log, f.recorded[r]);
      assert forall i :: 0 <= i < |f.log| ==> g.log[i] == f.log[i];
    }
  }

  lemma RecordingKeepsIds<C>(codec: Codec<C>, f: File<C>, g: File<C>, c: C)
    requires IdsIncrease(codec, f) && codec.id(c) == IdAfter(codec, f.log)
    requires g.log == f.log + [c] && g.recorded == f.recorded + [|f.log|]
    ensures IdsIncrease(codec, g)
  {
    LongerLogKeepsIds(codec, f, g.(recorded := f.recorded));
    NewIdIsAbove(codec, f.log);
    assert g.log[|f.log|] == c;
    assert NumberedAbove(codec, g.log, |f.log|);
  }

  lemma StepKeepsIds<C(!new)>(codec: Codec<C>, f: File<C>, e: Event<C>)
    requires Faithful(codec) && Sound(codec, f) && IdsIncrease(codec, f) && Enabled(codec, f, e)
    ensures IdsIncrease(codec, Next(codec, f, e))
  {
    var g := Next(codec, f, e);
    if e.Record? {
      WritersSeeEverything(codec, f);
      RecordingKeepsIds(codec, f, g, e.make(NewId(codec, f.content)));
    } else {
      LongerLogKeepsIds(codec, f, g);
    }
  }

  lemma SteppedIsSound<C(!new)>(codec: Codec<C>, f: File<C>, g: File<C>)
    requires Sound(codec, f) && Stepped(codec, f, g)
    ensures Sound(codec, g) && f.content <= g.content && f.log <= g.log
    ensures Faithful(codec) && IdsIncrease(codec, f) ==> IdsIncrease(codec, g)
  {
    var e :| Enabled(codec, f, e) && g == Next(codec, f, e);
    StepKeepsSound(codec, f, e);
    if Faithful(codec) && IdsIncrease(codec, f) {
      StepKeepsIds(codec, f, e);
    }
  }

  /** Over any interleaving no claim is lost, and every id the store gave is above every number the
      ledger held before it. */
  lemma {:induction false} RunsAreSound<C(!new)>(codec: Codec<C>, run: seq<File<C>>, i: nat)
    requires Trace(codec, run) && i < |run|
    ensures Sound(codec, run[i]) && (Faithful(codec) ==> IdsIncrease(codec, run[i]))
  {
    if i == 0 {
      assert Lines<C>(codec, []) == [];
    } else {
      RunsAreSound(codec, run, i - 1);
      SteppedIsSound(codec, run[i - 1], run[i]);
    }
  }

  /** Nothing a reader has seen is ever taken back. */
  lemma {:induction false} FilesOnlyGrow<C(!new)>(codec: Codec<C>, run: seq<File<C>>, i: nat, j: nat)
    requires Trace(codec, run) && i <= j < |run|
    ensures run[i].content <= run[j].content && run[i].log <= run[j].log
    decreases j
  {
    if i < j {
      FilesOnlyGrow(codec, run, i, j - 1);
      RunsAreSound(codec, run, j - 1);
      SteppedIsSound(codec, run[j - 1], run[j]);
      PrefixesChain(run[i].content, run[j - 1].content, run[j].content);
      PrefixesChain(run[i].log, run[j - 1].log, run[j].log);
    }
  }

  lemma PrefixesChain<T>(a: seq<T>, b: seq<T>, c: seq<T>)
    requires a <= b <= c
    ensures a <= c
  {
  }

  /** An unlocked read during any run, of any prefix of the file, never fails and answers with the
      first claims of the log, leaving out none whose line is flushed and within the prefix. */
  lemma EveryReadIsAPrefix<C(!new)>(codec: Codec<C>, run: seq<File<C>>, i: nat, t: nat)
    requires Faithful(codec) && Trace(codec, run) && i < |run| && t <= |run[i].content|
    ensures Parse(codec, run[i].content[..t]).Ok? && Parse(codec, run[i].content[..t]).value <= run[i].log
    ensures forall k :: 0 <= k <= |run[i].log| && |Flatten(codec, run[i].log[..k])| <= t
              ==> k <= |Parse(codec, run[i].content[..t]).value|
  {
    RunsAreSound(codec, run, i);
    var log, lines := run[i].log, Lines(codec, run[i].log);
    assert run[i].content[..t] == Flatten(codec, log)[..t];
    forall k | 0 <= k <= |log| && |Flatten(codec, log[..k])| <= t ensures k <= WholeLines(lines, t) {
      assert Lines(codec, log[..k]) == lines[..k];
      FinishedLinesAreRead(lines, k, t);
    }
    ReadingAPrefix(codec, log, t);
  }

  /** Ids given by the store are never given twice, whatever else is appended in between. */
  lemma RecordedIdsAreUnique<C(!new)>(codec: Codec<C>, run: seq<File<C>>, i: nat, r: nat, s: nat)
    requires Faithful(codec) && Trace(codec, run) && i < |run|
    requires r < s < |run[i].recorded|
    ensures run[i].recorded[r] < run[i].recorded[s] < |run[i].log|
    ensures var (a, b) := (codec.id(run[i].log[run[i].recorded[r]]), codec.id(run[i].log[run[i].recorded[s]]));
            NumberOf(a).Some? && NumberOf(b).Some? && NumberOf(a).value < NumberOf(b).value
  {
    RunsAreSound(codec, run, i);
    assert NumberedAbove(codec, run[i].log, run[i].recorded[r]) && NumberedAbove(codec, run[i].log, run[i].recorded[s]);
  }

  // ---------------------------------------------------------------- one store and its cache

  /** The file as one system call sees it. */
  datatype Snapshot = Snapshot(present: bool, content: string, mtime: nat)
  {
    predicate Possible() { !present ==> content == "" }

    function Stamp(): Option<(nat, nat)> {
      if present then Some((|content|, mtime)) else None
    }

    /** What a later call may see of a file that is only ever appended to. */
    ghost predicate Before(later: Snapshot) {
      content <= later.content && (present ==> later.present)
    }
  }

  lemma TraceExtends<C(!new)>(codec: Codec<C>, run: seq<File<C>>, g: File<C>)
    requires Trace(codec, run) && Stepped(codec, run[|run| - 1], g)
    ensures Trace(codec, run + [g])
  {
    var longer := run + [g];
    forall i {:trigger longer[i]} | 0 < i < |longer| ensures Stepped(codec, longer[i - 1], longer[i]) {
      if i < |run| {
        assert longer[i] == run[i];
        assert longer[i - 1] == run[i - 1];
      }
    }
  }

  /** A claim begun and flushed at once. */
  function Whole<C>(codec: Codec<C>, f: File<C>, c: C): File<C> {
    f.(content := f.content + (codec.Line(c) + "\n"), pending := "", log := f.log + [c])
  }

  lemma WholeIsTwoSteps<C(!new)>(codec: Codec<C>, f: File<C>, c: C)
    requires f.pending == ""
    ensures Stepped(codec, f, Begun(codec, f, c)) && Stepped(codec, Begun(codec, f, c), Whole(codec, f, c))
  {
    var begun := Begun(codec, f, c);
    assert Enabled(codec, f, Append(c)) && begun == Next(codec, f, Append(c));
    var all: Event<C> := Flush(|begun.pending|);
    assert begun.pending[..|begun.pending|] == begun.pending && begun.pending[|begun.pending|..] == "";
    assert Enabled(codec, begun, all) && Whole(codec, f, c) == Next(codec, begun, all);
  }

  /** The claims file of one region, written by every store of it. Its history is a run of the file. */
  class Disk<C(!new)> {
    var now: Snapshot
    ghost var run: seq<File<C>>

    constructor ()
      ensures now == Snapshot(false, "", 0) && run == [File("", "", [], [])]
    {
      now, run := Snapshot(false, "", 0), [File("", "", [], [])];
    }

    ghost function Log(): seq<C>
      reads this
    {
      if run == [] then [] else run[|run| - 1].log
    }

    /** Nothing is half written: what holding the lock means. */
    ghost predicate Settled(codec: Codec<C>)
      reads this
    {
      && now.Possible() && Trace(codec, run)
      && run[|run| - 1].pending == "" && run[|run| - 1].content == now.content
    }

    lemma SettledReadsWhole(codec: Codec<C>)
      requires Faithful(codec) && Settled(codec)
      ensures Parse(codec, now.content) == Ok(Log())
    {
      RunsAreSound(codec, run, |run| - 1);
      assert now.content + "" == now.content;
      ReadingItAll(codec, Log());
    }

    /** One line, in one append. */
    method Append(codec: Codec<C>, c: C, mtime: nat)
      requires Settled(codec)
      modifies this
      ensures Settled(codec) && old(run) <= run && Log() == old(Log()) + [c]
      ensures now.present && now.mtime == mtime && old(now).Before(now)
    {
      var line := codec.Line(c) + "\n";
      ghost var f := run[|run| - 1];
      WholeIsTwoSteps(codec, f, c);
      TraceExtends(codec, run, Begun(codec, f, c));
      TraceExtends(codec, run + [Begun(codec, f, c)], Whole(codec, f, c));
      now := Snapshot(true, now.content + line, mtime);
      run := run + [Begun(codec, f, c)] + [Whole(codec, f, c)];
    }
  }

  /** What a store keeps between reads. */
  datatype Cache<C> = Cache(claims: Option<seq<C>>, stamp: Option<(nat, nat)>)
  {
    predicate Hit(seen: Snapshot) { claims.Some? && stamp == seen.Stamp() }

    function Dropped(): Cache<C> { this.(claims := None) }
  }

  /** What a read answers with, given what parsing the file at its second call comes to ... */
  function Answer<C>(cache: Cache<C>, first: Snapshot, parsed: Result<seq<C>, string>): Result<seq<C>, string> {
    if cache.Hit(first) then Ok(cache.claims.value) else parsed
  }

  /** ... and what it keeps. */
  function Keep<C>(cache: Cache<C>, first: Snapshot, parsed: Result<seq<C>, string>): Cache<C> {
    if !cache.Hit(first) && parsed.Ok? then Cache(Some(parsed.value), first.Stamp()) else cache
  }

  class Store<C(!new)> {
    const codec: Codec<C>
    var claims: Option<seq<C>>
    var stamp: Option<(nat, nat)>
    /** What the file held when the stamp was taken, and when it was read. */
    ghost var stamped: string
    ghost var read: string

    constructor (codec: Codec<C>)
      ensures Valid() && claims == None && read == "" && this.codec == codec
    {
      this.codec, claims, stamp, stamped, read := codec, None, None, "", "";
    }

    ghost predicate Valid()
      reads this
    {
      && stamped <= read
      && (claims.Some? ==> Parse(codec, read) == Ok(claims.value) && (stamp.Some? ==> stamp.value.0 == |stamped|))
    }

    function Kept(): Cache<C>
      reads this
    {
      Cache(claims, stamp)
    }

    /** Two calls into the operating system, with the file free to grow between them. A hit answers
        what parsing the file as it was at the first call would; a miss parses it as it is at the
        second. The cache is kept only when the parse succeeds. */
    method ReadClaims(first: Snapshot, second: Snapshot) returns (answer: Result<seq<C>, string>)
      requires Valid() && first.Possible() && second.Possible() && first.Before(second)
      requires read <= first.content
      modifies this
      ensures Valid() && read <= second.content
      ensures answer == Parse(codec, if old(Kept()).Hit(first) then first.content else second.content)
      ensures answer == Answer(old(Kept()), first, Parse(codec, second.content))
      ensures Kept() == Keep(old(Kept()), first, Parse(codec, second.content))
    {
      if claims == None || stamp != first.Stamp() {
        var parsed := ReadJsonl(codec, second.content);
        if parsed.Err? {
          return parsed;
        }
        claims, stamp, stamped, read := Some(parsed.value), first.Stamp(), first.content, second.content;
        return parsed;
      }
      assert read == first.content;
      return Ok(claims.value);
    }

    /** Under the lock nothing is missed. */
    method NextId(disk: Disk<C>) returns (id: string)
      requires Faithful(codec) && Valid() && disk.Settled(codec) && read <= disk.now.content
      modifies this
      ensures Valid() && read <= disk.now.content && id == IdAfter(codec, disk.Log())
    {
      ghost var log := disk.Log();
      disk.SettledReadsWhole(codec);
      var seen := ReadClaims(disk.now, disk.now);
      assert seen.value == log;
      id := NextClaimId(codec, seen.value);
      assert disk.Log() == log;
    }

    /** Read everything, take the next id, append one line, drop the cache. */
    method RecordClaim(disk: Disk<C>, make: string -> C, mtime: nat) returns (claim: C)
      requires Faithful(codec) && Valid() && disk.Settled(codec) && read <= disk.now.content
      modifies this, disk
      ensures Valid() && disk.Settled(codec) && read <= disk.now.content && claims == None
      ensures claim == make(IdAfter(codec, old(disk.Log())))
      ensures old(disk.run) <= disk.run && disk.Log() == old(disk.Log()) + [claim]
    {
      var id := NextId(disk);
      claim := make(id);
      AppendClaim(disk, claim, mtime);
    }

    method AppendClaim(disk: Disk<C>, claim: C, mtime: nat)
      requires Valid() && disk.Settled(codec) && read <= disk.now.content
      modifies this, disk
      ensures Valid() && disk.Settled(codec) && read <= disk.now.content && claims == None
      ensures old(disk.run) <= disk.run && disk.Log() == old(disk.Log()) + [claim]
    {
      disk.Append(codec, claim, mtime);
      claims := None;
    }
  }
}
