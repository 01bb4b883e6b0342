/** The byte stream a file set is hashed as (equivalent/ledger/subjects.py).

    SHA-256 is taken to be injective, so what matters is whether two file sets
    can feed it the same bytes. Paths, contents and the stream are byte strings:
    one character per byte. */
module FileSets {
  import opened Wrappers
  import opened Globs

  datatype File = File(path: string, content: string)

  datatype HashError = DuplicatePath | TooLong

  // ---------------------------------------------------------------- order on paths

  predicate Before(a: string, b: string) {
    if b == "" then false
    else if a == "" then true
    else if a[0] != b[0] then a[0] < b[0]
    else Before(a[1..], b[1..])
  }

  lemma BeforeIsAStrictOrder(a: string, b: string, c: string)
    ensures !Before(a, a)
    ensures Before(a, b) && Before(b, c) ==> Before(a, c)
    ensures a == b || Before(a, b) || Before(b, a)
  {
    if a != "" && b != "" && a[0] == b[0] && (a[1..] != b[1..]) {
      BeforeIsAStrictOrder(a[1..], b[1..], if c == "" then "" else c[1..]);
    }
    if a != "" && b != "" {
      if a[0] == b[0] && a[1..] == b[1..] {
        assert a == [a[0]] + a[1..] == b;
      }
      BeforeIsAStrictOrder(a[1..], b[1..], if c == "" then "" else c[1..]);
    }
  }

  ghost predicate Ascending(s: seq<File>) {
    forall i, j :: 0 <= i < j < |s| ==> Before(s[i].path, s[j].path)
  }

  // ---------------------------------------------------------------- the set and its canonical list

  function Normalized(files: seq<File>): (r: seq<File>)
    ensures |r| == |files|
    ensures forall i :: 0 <= i < |files| ==> r[i] == File(Normalize(files[i].path), files[i].content)
  {
    seq(|files|, i requires 0 <= i < |files| => File(Normalize(files[i].path), files[i].content))
  }

  predicate DistinctPaths(s: seq<File>) {
    forall i, j :: 0 <= i < j < |s| ==> s[i].path != s[j].path
  }

  function Insert(f: File, s: seq<File>): seq<File> {
    if s == [] || Before(f.path, s[0].path) then [f] + s
    else [s[0]] + Insert(f, s[1..])
  }

  function Sorted(s: seq<File>): seq<File> {
    if s == [] then [] else Insert(s[0], Sorted(s[1..]))
  }

  lemma {:induction false} InsertAscends(f: File, s: seq<File>)
    requires Ascending(s) && forall g :: g in s ==> g.path != f.path
    ensures Ascending(Insert(f, s))
    ensures forall g :: g in Insert(f, s) <==> g == f || g in s
  {
    if s == [] {
    } else if Before(f.path, s[0].path) {
      forall j | 0 <= j < |s| ensures Before(f.path, s[j].path) {
        BeforeIsAStrictOrder(f.path, s[0].path, s[j].path);
      }
      assert forall g :: g in [f] + s <==> g == f || g in s;
    } else {
      BeforeIsAStrictOrder(f.path, s[0].path, "");
      InsertAscends(f, s[1..]);
      var t := Insert(f, s[1..]);
      assert forall g :: g in s <==> g == s[0] || g in s[1..];
      forall j | 0 <= j < |t| ensures Before(s[0].path, t[j].path) {
        assert t[j] in t;
        if t[j] != f {
          var k :| 0 <= k < |s[1..]| && s[1..][k] == t[j];
          assert s[k + 1] == t[j];
        }
      }
      assert Ascending([s[0]] + t);
    }
  }

  lemma {:induction false} SortedAscends(s: seq<File>)
    requires DistinctPaths(s)
    ensures Ascending(Sorted(s))
    ensures forall g :: g in Sorted(s) <==> g in s
  {
    if s != [] {
      SortedAscends(s[1..]);
      forall g | g in Sorted(s[1..]) ensures g.path != s[0].path {
        var k :| 0 <= k < |s[1..]| && s[1..][k] == g;
        assert s[k + 1] == g;
      }
      InsertAscends(s[0], Sorted(s[1..]));
      assert s == [s[0]] + s[1..];
    }
  }

  lemma {:induction false} OneAscendingList(a: seq<File>, b: seq<File>)
    requires Ascending(a) && Ascending(b)
    requires forall g :: g in a <==> g in b
    ensures a == b
  {
    if a != [] {
      assert a[0] in a;
    }
    if b != [] {
      assert b[0] in b;
    }
    if a != [] && b != [] {
      HeadsAgree(a, b);
      assert a == [a[0]] + a[1..] && b == [b[0]] + b[1..];
      forall g ensures g in a[1..] <==> g in b[1..] {
        BeforeIsAStrictOrder(a[0].path, a[0].path, "");
        assert a[0] !in a[1..] && b[0] !in b[1..];
        assert g in a <==> g == a[0] || g in a[1..];
        assert g in b <==> g == b[0] || g in b[1..];
      }
      OneAscendingList(a[1..], b[1..]);
    }
  }

  lemma HeadsAgree(a: seq<File>, b: seq<File>)
    requires a != [] && b != [] && Ascending(a) && Ascending(b)
    requires forall g :: g in a <==> g in b
    ensures a[0] == b[0]
  {
    assert a[0] in b && b[0] in a;
    var i :| 0 <= i < |b| && b[i] == a[0];
    var j :| 0 <= j < |a| && a[j] == b[0];
    BeforeIsAStrictOrder(a[0].path, b[0].path, a[0].path);
  }

  // ---------------------------------------------------------------- the stream

  function Power256(k: nat): nat {
    if k == 0 then 1 else 256 * Power256(k - 1)
  }

  /** `k` bytes, most significant first. */
  function BigEndian(n: nat, k: nat): (r: string)
    ensures |r| == k
  {
    if k == 0 then "" else BigEndian(n / 256, k - 1) + [(n % 256) as char]
  }

  function FromBigEndian(s: string): nat {
    if s == "" then 0 else 256 * FromBigEndian(s[..|s| - 1]) + s[|s| - 1] as nat
  }

  lemma {:induction false} BigEndianRoundTrip(n: nat, k: nat)
    requires n < Power256(k)
    ensures FromBigEndian(BigEndian(n, k)) == n
  {
    if k != 0 {
      BigEndianRoundTrip(n / 256, k - 1);
      var s := BigEndian(n, k);
      assert s[..|s| - 1] == BigEndian(n / 256, k - 1);
    }
  }

  function Sized(s: string): string {
    BigEndian(|s|, 8) + s
  }

  const HEADER := "equivalent:file-set:v2\0"

  function Records(s: seq<File>): string {
    if s == [] then "" else Sized(s[0].path) + Sized(s[0].content) + Records(s[1..])
  }

  function Stream(s: seq<File>): string {
    HEADER + BigEndian(|s|, 8) + Records(s)
  }

  /** Every length fits the eight bytes it is packed into. */
  predicate Packable(s: seq<File>) {
    |s| < Power256(8) &&
    forall f :: f in s ==> |f.path| < Power256(8) && |f.content| < Power256(8)
  }

  function HashInput(files: seq<File>): Result<string, HashError> {
    var entries := Normalized(files);
    if !DistinctPaths(entries) then Err(DuplicatePath)
    else if !Packable(entries) then Err(TooLong)
    else Ok(Stream(Sorted(entries)))
  }

  lemma FeedOne(h: string, s: seq<File>, i: nat)
    requires i < |s|
    ensures h + Records(s[i..]) == h + Sized(s[i].path) + Sized(s[i].content) + Records(s[i + 1..])
  {
    assert s[i..][0] == s[i] && s[i..][1..] == s[i + 1..];
  }

  /** The hasher is fed one length-delimited record after another. */
  method HashFiles(files: seq<File>) returns (fed: Result<string, HashError>)
    ensures fed == HashInput(files)
  {
    var entries := Normalized(files);
    if !DistinctPaths(entries) {
      return Err(DuplicatePath);
    }
    if !Packable(entries) {
      return Err(TooLong);
    }
    var sorted := Sorted(entries);
    var h := HEADER + BigEndian(|sorted|, 8);
    assert sorted[0..] == sorted;
    for i := 0 to |sorted|
      invariant h + Records(sorted[i..]) == Stream(sorted)
    {
      FeedOne(h, sorted, i);
      h := h + Sized(sorted[i].path) + Sized(sorted[i].content);
    }
    assert h + "" == h;
    fed := Ok(h);
  }

  // ---------------------------------------------------------------- reading it back

  function ReadSized(s: string): Option<(string, string)> {
    if |s| < 8 then None
    else
      var n := FromBigEndian(s[..8]);
      if |s| < 8 + n then None else Some((s[8..8 + n], s[8 + n..]))
  }

  function ReadRecords(s: string, n: nat): Option<seq<File>> {
    if n == 0 then (if s == "" then Some([]) else None)
    else
      match ReadSized(s)
      case None => None
      case Some((path, afterPath)) =>
        match ReadSized(afterPath)
        case None => None
        case Some((content, rest)) =>
          match ReadRecords(rest, n - 1)
          case None => None
          case Some(files) => Some([File(path, content)] + files)
  }

  function ReadStream(s: string): Option<seq<File>> {
    var k := |HEADER|;
    if |s| < k + 8 || s[..k] != HEADER then None
    else ReadRecords(s[k + 8..], FromBigEndian(s[k..k + 8]))
  }

  lemma ReadSizedBack(s: string, rest: string)
    requires |s| < Power256(8)
    ensures ReadSized(Sized(s) + rest) == Some((s, rest))
  {
    BigEndianRoundTrip(|s|, 8);
    var t := Sized(s) + rest;
    assert t[..8] == BigEndian(|s|, 8);
    assert t[8..8 + |s|] == s && t[8 + |s|..] == rest;
  }

  lemma {:induction false} ReadRecordsBack(s: seq<File>)
    requires forall f :: f in s ==> |f.path| < Power256(8) && |f.content| < Power256(8)
    ensures ReadRecords(Records(s), |s|) == Some(s)
  {
    if s != [] {
      var f, tail := s[0], Records(s[1..]);
      assert f in s;
      ReadSizedBack(f.path, Sized(f.content) + tail);
      ReadSizedBack(f.content, tail);
      assert Records(s) == Sized(f.path) + (Sized(f.content) + tail);
      ReadRecordsBack(s[1..]);
      assert s == [f] + s[1..];
    }
  }

  /** The stream can be decoded: it holds the sorted set and nothing else. */
  lemma StreamReadsBack(s: seq<File>)
    requires Packable(s)
    ensures ReadStream(Stream(s)) == Some(s)
  {
    var t, k := Stream(s), |HEADER|;
    BigEndianRoundTrip(|s|, 8);
    assert t == HEADER + (BigEndian(|s|, 8) + Records(s));
    assert t[..k] == HEADER && t[k..k + 8] == BigEndian(|s|, 8) && t[k + 8..] == Records(s);
    ReadRecordsBack(s);
  }

  // ---------------------------------------------------------------- what a hash names

  /** What a file set says: each normalized path with its content. */
  ghost function Contents(files: seq<File>): set<(string, string)> {
    set f | f in Normalized(files) :: (f.path, f.content)
  }

  lemma SameContentsSameEntries(a: seq<File>, b: seq<File>)
    requires Contents(a) == Contents(b)
    ensures forall g :: g in Normalized(a) <==> g in Normalized(b)
  {
    forall g: File ensures g in Normalized(a) <==> g in Normalized(b) {
      assert g in Normalized(a) <==> (g.path, g.content) in Contents(a);
      assert g in Normalized(b) <==> (g.path, g.content) in Contents(b);
    }
  }

  lemma SortedKeepsPackable(s: seq<File>)
    requires DistinctPaths(s) && Packable(s)
    ensures Packable(Sorted(s))
  {
    SortedAscends(s);
    SortedKeepsLength(s);
  }

  lemma {:induction false} SortedKeepsLength(s: seq<File>)
    ensures |Sorted(s)| == |s|
  {
    if s != [] {
      SortedKeepsLength(s[1..]);
      InsertAddsOne(s[0], Sorted(s[1..]));
    }
  }

  lemma InsertAddsOne(f: File, s: seq<File>)
    ensures |Insert(f, s)| == |s| + 1
  {
  }

  /** Two accepted file sets are hashed from the same bytes exactly when they
      give the same content to the same normalized paths: no reordering and no
      respelling changes the hash, and nothing else leaves it unchanged. */
  lemma HashInputNamesTheContents(a: seq<File>, b: seq<File>)
    requires HashInput(a).Ok? && HashInput(b).Ok?
    ensures HashInput(a) == HashInput(b) <==> Contents(a) == Contents(b)
  {
    var na, nb := Normalized(a), Normalized(b);
    SortedAscends(na);
    SortedAscends(nb);
    if Contents(a) == Contents(b) {
      SameContentsSameEntries(a, b);
      OneAscendingList(Sorted(na), Sorted(nb));
    }
    if HashInput(a) == HashInput(b) {
      SortedKeepsPackable(na);
      SortedKeepsPackable(nb);
      StreamReadsBack(Sorted(na));
      StreamReadsBack(Sorted(nb));
      assert forall g :: g in na <==> g in nb;
    }
  }

  /** A set is refused exactly when two of its files are one path, or a length
      does not fit. */
  lemma RefusedExactlyWhen(files: seq<File>)
    ensures HashInput(files).Err? <==>
      (exists i, j :: 0 <= i < j < |files| && Normalize(files[i].path) == Normalize(files[j].path)) ||
      !Packable(Normalized(files))
  {
    var n := Normalized(files);
    if i, j :| 0 <= i < j < |files| && Normalize(files[i].path) == Normalize(files[j].path) {
      assert n[i].path == n[j].path;
    }
  }
}
