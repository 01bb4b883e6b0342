/** A store's reads over time: the cache it keeps, beside the file other processes go on writing. */
module LedgerReads {
  import opened Wrappers
  import opened LedgerFile
  import opened LedgerStore

  /** One read of a store: whether its own append dropped the cache since the last one, the states of
      the file at its two calls, and what the calls saw. */
  datatype Look = Look(dropped: bool, i: nat, j: nat, first: Snapshot, second: Snapshot)

  ghost predicate Sees<C(!new)>(run: seq<File<C>>, look: Look) {
    && look.i <= look.j < |run| && look.first.Possible()
    && look.first.content == run[look.i].content && look.second.content == run[look.j].content
  }

  /** The reads of one store, one after the other, while the file runs. */
  ghost predicate Watches<C(!new)>(run: seq<File<C>>, looks: seq<Look>) {
    && (forall n :: 0 <= n < |looks| ==> Sees(run, looks[n]))
    && (forall m, n :: 0 <= m < n < |looks| ==> looks[m].j <= looks[n].i)
  }

  type Parsed<C> = seq<Result<seq<C>, string>>

  /** What parsing the file at each second call comes to. */
  function Parses<C>(codec: Codec<C>, looks: seq<Look>): (r: Parsed<C>)
    ensures |r| == |looks| && forall n :: 0 <= n < |looks| ==> r[n] == Parse(codec, looks[n].second.content)
  {
    seq(|looks|, n requires 0 <= n < |looks| => Parse(codec, looks[n].second.content))
  }

  function Found<C>(left: Cache<C>, look: Look): Cache<C> {
    if look.dropped then left.Dropped() else left
  }

  /** The cache the first `n` reads leave. */
  function Left<C>(looks: seq<Look>, parsed: Parsed<C>, n: nat): Cache<C>
    requires n <= |looks| == |parsed|
  {
    if n == 0 then Cache(None, None)
    else Keep(Found(Left(looks, parsed, n - 1), looks[n - 1]), looks[n - 1].first, parsed[n - 1])
  }

  /** The cache as the n-th read finds it. */
  function CacheAt<C>(codec: Codec<C>, looks: seq<Look>, n: nat): Cache<C>
    requires n < |looks|
  {
    Found(Left(looks, Parses(codec, looks), n), looks[n])
  }

  function AnswerAt<C>(codec: Codec<C>, looks: seq<Look>, n: nat): Result<seq<C>, string>
    requires n < |looks|
  {
    Answer(CacheAt(codec, looks, n), looks[n].first, Parse(codec, looks[n].second.content))
  }

  /** Where the kept claims come from: an earlier read that parsed the file anew. */
  ghost predicate KeptFrom<C>(looks: seq<Look>, parsed: Parsed<C>, cache: Cache<C>, m: nat)
    requires |looks| == |parsed|
  {
    m < |looks| && cache.stamp == looks[m].first.Stamp() && cache.claims.Some? && parsed[m] == Ok(cache.claims.value)
  }

  lemma {:induction false} CachesComeFromReads<C>(looks: seq<Look>, parsed: Parsed<C>, n: nat) returns (m: nat)
    requires n <= |looks| == |parsed| && Left(looks, parsed, n).claims.Some?
    ensures m < n && KeptFrom(looks, parsed, Left(looks, parsed, n), m)
  {
    var look, before := looks[n - 1], Left(looks, parsed, n - 1);
    if Found(before, look).Hit(look.first) || parsed[n - 1].Err? {
      m := CachesComeFromReads(looks, parsed, n - 1);
    } else {
      m := n - 1;
    }
  }

  /** A hit finds the file exactly as it was read: it has grown by nothing since the stamp was taken. */
  lemma HitsAreUnchanged<C(!new)>(codec: Codec<C>, run: seq<File<C>>, looks: seq<Look>, m: nat, n: nat)
    requires Trace(codec, run) && Watches(run, looks) && m < n < |looks|
    requires looks[m].first.Stamp() == looks[n].first.Stamp()
    ensures looks[m].second.content == looks[n].first.content
  {
    assert Sees(run, looks[m]) && Sees(run, looks[n]);
    FilesOnlyGrow(codec, run, looks[m].i, looks[m].j);
    FilesOnlyGrow(codec, run, looks[m].j, looks[n].i);
  }

  /** What a read answers with is a fresh parse of the file: as it was at the first call when the cache
      is hit, at the second when it is not. */
  lemma AnswersAreParses<C(!new)>(codec: Codec<C>, run: seq<File<C>>, looks: seq<Look>, n: nat)
    requires Trace(codec, run) && Watches(run, looks) && n < |looks|
    ensures AnswerAt(codec, looks, n) == Parse(codec, Answered(codec, looks, n))
  {
    var cache := CacheAt(codec, looks, n);
    if cache.Hit(looks[n].first) {
      var m := CachesComeFromReads(looks, Parses(codec, looks), n);
      HitsAreUnchanged(codec, run, looks, m, n);
    }
  }

  function Answered<C>(codec: Codec<C>, looks: seq<Look>, n: nat): string
    requires n < |looks|
  {
    if CacheAt(codec, looks, n).Hit(looks[n].first) then looks[n].first.content else looks[n].second.content
  }

  lemma AnsweredIsBetween<C(!new)>(codec: Codec<C>, run: seq<File<C>>, looks: seq<Look>, n: nat)
    requires Trace(codec, run) && Watches(run, looks) && n < |looks|
    ensures Sees(run, looks[n])
    ensures run[looks[n].i].content <= Answered(codec, looks, n) <= run[looks[n].j].content
  {
    assert Sees(run, looks[n]);
    FilesOnlyGrow(codec, run, looks[n].i, looks[n].j);
  }

  lemma {:induction false} LongerHoldsMore(lines: seq<string>, t: nat, u: nat)
    requires t <= u
    ensures WholeLines(lines, t) <= WholeLines(lines, u)
    decreases |lines|
  {
    if lines != [] && |lines[0]| < t {
      LongerHoldsMore(lines[1..], t - |lines[0]| - 1, u - |lines[0]| - 1);
    }
  }

  lemma LongerReadsMore<C(!new)>(codec: Codec<C>, f: File<C>, less: string, more: string)
    requires Faithful(codec) && Sound(codec, f) && less <= more <= f.content
    ensures Parse(codec, less).Ok? && Parse(codec, more).Ok? && Parse(codec, less).value <= Parse(codec, more).value <= f.log
  {
    var whole, lines := Flatten(codec, f.log), Lines(codec, f.log);
    assert less == whole[..|less|] && more == whole[..|more|];
    ReadingAPrefix(codec, f.log, |less|);
    ReadingAPrefix(codec, f.log, |more|);
    LongerHoldsMore(lines, |less|, |more|);
  }

  /** Whatever other processes do, a store never fails to read, never answers with what was not
      recorded, and leaves out no claim that was flushed before it asked. */
  lemma EveryAnswerIsCurrent<C(!new)>(codec: Codec<C>, run: seq<File<C>>, looks: seq<Look>, n: nat)
    requires Faithful(codec) && Trace(codec, run) && Watches(run, looks) && n < |looks|
    ensures var (look, answer) := (looks[n], AnswerAt(codec, looks, n));
      && answer.Ok? && answer.value <= run[look.j].log
      && forall k :: 0 <= k <= |run[look.i].log| && |Flatten(codec, run[look.i].log[..k])| <= |look.first.content| ==>
           k <= |answer.value|
  {
    var look := looks[n];
    AnsweredIsBetween(codec, run, looks, n);
    AnswersAreParses(codec, run, looks, n);
    FilesOnlyGrow(codec, run, look.i, look.j);
    RunsAreSound(codec, run, look.j);
    LongerReadsMore(codec, run[look.j], look.first.content, Answered(codec, looks, n));
    EveryReadIsAPrefix(codec, run, look.i, |look.first.content|);
    assert look.first.content[..|look.first.content|] == look.first.content;
  }

  /** And takes back nothing it has answered before. */
  lemma AnswersOnlyGrow<C(!new)>(codec: Codec<C>, run: seq<File<C>>, looks: seq<Look>, m: nat, n: nat)
    requires Faithful(codec) && Trace(codec, run) && Watches(run, looks) && m < n < |looks|
    ensures AnswerAt(codec, looks, m).Ok? && AnswerAt(codec, looks, n).Ok?
    ensures AnswerAt(codec, looks, m).value <= AnswerAt(codec, looks, n).value
  {
    AnswersAreParses(codec, run, looks, m);
    AnswersAreParses(codec, run, looks, n);
    AnsweredIsBetween(codec, run, looks, m);
    AnsweredIsBetween(codec, run, looks, n);
    FilesOnlyGrow(codec, run, looks[m].j, looks[n].i);
    PrefixesChain(Answered(codec, looks, m), run[looks[m].j].content, run[looks[n].i].content);
    PrefixesChain(Answered(codec, looks, m), run[looks[n].i].content, Answered(codec, looks, n));
    RunsAreSound(codec, run, looks[n].j);
    LongerReadsMore(codec, run[looks[n].j], Answered(codec, looks, m), Answered(codec, looks, n));
  }
}
