/**
 The records that denied accesses leave in the log (io/logio.c:10-55), and what the log
 therefore says.
 */
module LogRecords {
  import opened CStrings
  import opened Decimal
  import opened Digests
  import opened LogFile
  import opened LogRuns
  import opened LogSpace
  import opened Sequences
  import opened Wrappers

  const REFMON_LOGLEN: nat := 516

  datatype Dataset = Dataset(tgid: int, tid: int, uid: nat, euid: nat, progPath: string)

  function Tab(field: string, rest: string): string {
    field + "\t" + rest
  }

  /** "%d\t%d\t%u\t%u\t" */
  function Numbers(ds: Dataset): string {
    Tab(PrintInt(ds.tgid), Tab(PrintInt(ds.tid), Tab(PrintNat(ds.uid), Tab(PrintNat(ds.euid), []))))
  }

  /** "%d\t%d\t%u\t%u\t%s\t%s\n" */
  function Formatted(ds: Dataset, hash: string): string {
    Numbers(ds) + Tab(ds.progPath, hash) + "\n"
  }

  /** The record written: the formatted line, cut to the buffer. */
  function Record(ds: Dataset, hash: string): (r: string)
    ensures |r| <= LOG_RECORD_MAX && r <= Formatted(ds, hash)
  {
    var line := Formatted(ds, hash);
    if |line| < REFMON_LOGLEN then line else line[..REFMON_LOGLEN - 1]
  }

  // ----- characters that a record does not contain

  /** Control characters that no number contains and that do not separate fields. */
  predicate Unprinted(c: char) {
    c == NUL || c == '\n'
  }

  lemma TabLacks(field: string, rest: string, c: char)
    requires Unprinted(c) && Lacks(field, c) && Lacks(rest, c)
    ensures Lacks(Tab(field, rest), c)
  {
  }

  lemma NumberLacks(n: int, m: nat, c: char)
    requires Unprinted(c)
    ensures Lacks(PrintInt(n), c) && Lacks(PrintNat(m), c)
  {
  }

  lemma NumbersLack(ds: Dataset, c: char)
    requires Unprinted(c)
    ensures Lacks(Numbers(ds), c)
  {
    NumberLacks(ds.tgid, ds.uid, c);
    NumberLacks(ds.tid, ds.euid, c);
    var s1 := Tab(PrintNat(ds.euid), []);
    TabLacks(PrintNat(ds.euid), [], c);
    var s2 := Tab(PrintNat(ds.uid), s1);
    TabLacks(PrintNat(ds.uid), s1, c);
    var s3 := Tab(PrintInt(ds.tid), s2);
    TabLacks(PrintInt(ds.tid), s2, c);
    TabLacks(PrintInt(ds.tgid), s3, c);
  }

  lemma RecordNulFree(ds: Dataset, hash: string)
    requires NulFree(ds.progPath) && NulFree(hash)
    ensures NulFree(Record(ds, hash))
  {
    NumbersLack(ds, NUL);
    TabLacks(ds.progPath, hash, NUL);
    assert Lacks(Formatted(ds, hash), NUL);
  }

  /** The text of a digest is one of the hashes that the lemmas below speak of. */
  lemma {:induction false} DigestTextLacks(digest: seq<u8>, c: char)
    requires Unprinted(c)
    ensures Lacks(Hex(digest), c)
  {
    if digest != [] {
      DigestTextLacks(digest[..|digest| - 1], c);
    }
  }

  // ----- records and lines

  /** A string that is one line: its only newline is its last character. */
  ghost predicate IsLine(s: string) {
    s != [] && s[|s| - 1] == '\n' && Lacks(s[..|s| - 1], '\n')
  }

  /** A line of at most limit characters, or exactly limit characters of a line that was cut. */
  ghost predicate IsRecord(s: string, limit: nat) {
    && 0 < |s| <= limit
    && (IsLine(s) || (|s| == limit && Lacks(s, '\n')))
  }

  predicate Cut(ds: Dataset, hash: string) {
    |Formatted(ds, hash)| >= REFMON_LOGLEN
  }

  /** No character of the path before the last one of the record is a newline. */
  predicate CleanPath(ds: Dataset, hash: string) {
    forall i :: 0 <= i < |ds.progPath| && |Numbers(ds)| + i < |Record(ds, hash)| - 1 ==> ds.progPath[i] != '\n'
  }

  /** The last character of a cut record is a newline of the path. */
  predicate CutAtNewline(ds: Dataset, hash: string) {
    var i := LOG_RECORD_MAX - 1 - |Numbers(ds)|;
    Cut(ds, hash) && 0 <= i < |ds.progPath| && ds.progPath[i] == '\n'
  }

  /** Position i of the formatted line is a newline of the path. */
  predicate PathNewlineAt(ds: Dataset, i: int) {
    var k := i - |Numbers(ds)|;
    0 <= k < |ds.progPath| && ds.progPath[k] == '\n'
  }

  /** The newlines of a formatted line are its last character and those of the path. */
  lemma NewlineAt(ds: Dataset, hash: string, i: nat)
    requires Lacks(hash, '\n') && i < |Formatted(ds, hash)|
    ensures Formatted(ds, hash)[i] == '\n' <==> i == |Formatted(ds, hash)| - 1 || PathNewlineAt(ds, i)
  {
    NumbersLack(ds, '\n');
    var numbers, rest := Numbers(ds), Tab(ds.progPath, hash);
    assert Formatted(ds, hash)[i] ==
           if i < |numbers| then numbers[i] else if i < |numbers| + |rest| then rest[i - |numbers|] else '\n';
  }

  lemma InnerNewlines(ds: Dataset, hash: string)
    requires Lacks(hash, '\n')
    ensures var r := Record(ds, hash); r != [] && (Lacks(r[..|r| - 1], '\n') <==> CleanPath(ds, hash))
  {
    var r, n := Record(ds, hash), |Numbers(ds)|;
    forall i: nat | i < |r| - 1
      ensures r[i] == '\n' <==> PathNewlineAt(ds, i)
    {
      NewlineAt(ds, hash, i);
    }
    if !CleanPath(ds, hash) {
      var i :| 0 <= i < |ds.progPath| && n + i < |r| - 1 && ds.progPath[i] == '\n';
      assert r[..|r| - 1][n + i] == '\n';
    }
  }

  lemma LastCharacter(ds: Dataset, hash: string)
    requires Lacks(hash, '\n')
    ensures var r := Record(ds, hash);
            r != [] && (r[|r| - 1] == '\n' <==> !Cut(ds, hash) || CutAtNewline(ds, hash))
  {
    NewlineAt(ds, hash, |Record(ds, hash)| - 1);
  }

  /**
   A record is one whole line exactly when the visible path has no newline before its end and
   the line was not cut, or was cut just after a newline of the path.
   */
  lemma LineExact(ds: Dataset, hash: string)
    requires Lacks(hash, '\n')
    ensures IsLine(Record(ds, hash)) <==> CleanPath(ds, hash) && (!Cut(ds, hash) || CutAtNewline(ds, hash))
  {
    InnerNewlines(ds, hash);
    LastCharacter(ds, hash);
  }

  /** An uncut record is one line exactly when the program path has no newline. */
  lemma UncutLineExact(ds: Dataset, hash: string)
    requires Lacks(hash, '\n') && !Cut(ds, hash)
    ensures IsLine(Record(ds, hash)) <==> Lacks(ds.progPath, '\n')
  {
    LineExact(ds, hash);
    assert |Record(ds, hash)| - 1 >= |Numbers(ds)| + |ds.progPath|;
  }

  /** A record can be told from its neighbours exactly when the visible path has no newline before its end. */
  lemma RecordExact(ds: Dataset, hash: string)
    requires Lacks(hash, '\n')
    ensures IsRecord(Record(ds, hash), LOG_RECORD_MAX) <==> CleanPath(ds, hash)
  {
    InnerNewlines(ds, hash);
    LastCharacter(ds, hash);
    var r := Record(ds, hash);
    assert Lacks(r, '\n') <==> Lacks(r[..|r| - 1], '\n') && r[|r| - 1] != '\n' by {
      assert r == r[..|r| - 1] + [r[|r| - 1]];
    }
  }

  /** A program path of 600 characters leaves a record without its newline. */
  lemma CutRecordExample(ds: Dataset, hash: string)
    requires ds == Dataset(1, 1, 0, 0, seq(600, _ => 'x')) && hash == seq(64, _ => 'a')
    ensures Lacks(ds.progPath, '\n') && Lacks(hash, '\n') && !IsLine(Record(ds, hash))
  {
    assert |Formatted(ds, hash)| >= |ds.progPath|;
    LineExact(ds, hash);
  }

  /** A program path with a newline leaves a short record that is not one line. */
  lemma NewlinePathExample(ds: Dataset)
    requires ds == Dataset(1, 1, 0, 0, "a\nb")
    ensures !Cut(ds, "H") && !IsLine(Record(ds, "H"))
  {
    assert PrintNat(1) == "1" && PrintNat(0) == "0";
    assert |Numbers(ds)| == 8;
    assert ds.progPath[1] == '\n';
    UncutLineExact(ds, "H");
  }

  /** The dataset b with a path that continues b's own line and then writes the line of c. */
  function Merged(b: Dataset, c: Dataset, hash: string): Dataset {
    b.(progPath := Tab(b.progPath, hash) + "\n" + Numbers(c) + c.progPath)
  }

  lemma MergedLine(b: Dataset, c: Dataset, hash: string)
    ensures Formatted(Merged(b, c, hash), hash) == Formatted(b, hash) + Formatted(c, hash)
  {
    var m := Merged(b, c, hash);
    var first, second := Tab(b.progPath, hash) + "\n", Numbers(c) + Tab(c.progPath, hash) + "\n";
    assert m.progPath == first + Numbers(c) + c.progPath;
    assert Tab(m.progPath, hash) + "\n" == first + second;
    Associative(Numbers(b), Tab(m.progPath, hash), "\n");
    Associative(Numbers(b), first, second);
    Associative(Numbers(b), Tab(b.progPath, hash), "\n");
  }

  lemma FlattenPair(r: string, q: string)
    ensures Flatten([r, q]) == r + q == Flatten([r + q])
  {
    FlattenSnoc([r], q);
    assert [r] + [q] == [r, q] && [] + [r] == [r] && [] + [r + q] == [r + q];
    FlattenSnoc([], r);
    FlattenSnoc([], r + q);
  }

  /**
   Without that condition the text does not determine the records: for any two datasets whose
   lines together are short enough, one record has the text of both.
   */
  lemma OneRecordLikeTwo(b: Dataset, c: Dataset, hash: string)
    requires |Formatted(b, hash)| + |Formatted(c, hash)| < REFMON_LOGLEN
    ensures Record(Merged(b, c, hash), hash) == Record(b, hash) + Record(c, hash)
    ensures Flatten([Record(Merged(b, c, hash), hash)]) == Flatten([Record(b, hash), Record(c, hash)])
    ensures !CleanPath(Merged(b, c, hash), hash)
  {
    MergedLine(b, c, hash);
    FlattenPair(Record(b, hash), Record(c, hash));
    assert Merged(b, c, hash).progPath[|b.progPath| + 1 + |hash|] == '\n';
  }

  lemma {:induction false} FlattenFront(ss: seq<string>)
    requires ss != []
    ensures Flatten(ss) == ss[0] + Flatten(ss[1..])
  {
    var last := |ss| - 1;
    if last == 0 {
      assert Flatten(ss[..0]) == [];
    } else {
      FlattenFront(ss[..last]);
      var middle := Flatten(ss[1..last]);
      assert Flatten(ss[..last]) == ss[0] + middle by {
        assert ss[..last][1..] == ss[1..last];
      }
      assert Flatten(ss[1..]) == middle + ss[last] by {
        assert ss[1..][..last - 1] == ss[1..last];
      }
      Associative(ss[0], middle, ss[last]);
    }
  }

  /** The first record of a text is determined by the text. */
  lemma FirstRecordUnique(r: string, a: string, q: string, b: string, limit: nat)
    requires r + a == q + b && IsRecord(r, limit) && IsRecord(q, limit) && |r| <= |q|
    ensures r == q && a == b
  {
    var s := r + a;
    assert r == s[..|r|] && q == s[..|q|] && a == s[|r|..] && b == s[|q|..];
    if IsLine(r) {
      assert q[|r| - 1] == '\n';
      assert IsLine(q) ==> forall i :: 0 <= i < |q| - 1 ==> q[..|q| - 1][i] == q[i];
    }
  }

  ghost predicate AllRecords(ss: seq<string>, limit: nat) {
    forall i :: 0 <= i < |ss| ==> IsRecord(ss[i], limit)
  }

  /** The log can be read back even where records were cut: its text determines the list of records. */
  lemma {:induction false} TextDeterminesRecords(ss: seq<string>, tt: seq<string>, limit: nat)
    requires AllRecords(ss, limit) && AllRecords(tt, limit) && Flatten(ss) == Flatten(tt)
    ensures ss == tt
    decreases |ss|
  {
    if ss != [] {
      FlattenFront(ss);
    }
    if tt != [] {
      FlattenFront(tt);
    }
    if ss != [] && tt != [] {
      if |ss[0]| <= |tt[0]| {
        FirstRecordUnique(ss[0], Flatten(ss[1..]), tt[0], Flatten(tt[1..]), limit);
      } else {
        FirstRecordUnique(tt[0], Flatten(tt[1..]), ss[0], Flatten(ss[1..]), limit);
      }
      TextDeterminesRecords(ss[1..], tt[1..], limit);
      assert ss == [ss[0]] + ss[1..] && tt == [tt[0]] + tt[1..];
    }
  }

  /**
   defer: without a hash or an open log file nothing is written; otherwise the line is formatted
   into the stack buffer and written up to the terminator.
   */
  method Defer(fs: LogDevice, ds: Dataset, hash: Option<string>, fileOpens: bool) returns (status: Option<Status>)
    requires fs.Valid() && NulFree(ds.progPath) && (hash.Some? ==> NulFree(hash.value))
    modifies fs`size, fs.data
    ensures fs.Valid()
    ensures status.Some? <==> hash.Some? && fileOpens
    ensures status.None? ==> fs.Snapshot() == old(fs.Snapshot())
    ensures status.Some? ==>
              && fs.Snapshot() == Appended(old(fs.Snapshot()), Record(ds, hash.value))
              && (status.value == Done
                  <==> HasRoom(old(fs.size), |Record(ds, hash.value)|, fs.data.Length / BLOCK_SIZE))
  {
    if hash.None? {
      return None;
    }
    var out := new char[REFMON_LOGLEN];
    var ret := Snprintf(out, 0, REFMON_LOGLEN, Formatted(ds, hash.value));
    if !fileOpens {
      return None;
    }
    ghost var record := Record(ds, hash.value);
    RecordNulFree(ds, hash.value);
    assert out[..|record|] == record;
    assert forall k :: 0 <= k < |record| ==> out[k] == out[..|record|][k] == record[k] != NUL;
    var n := Strlen(out, |record|);
    var written, pos := fs.Append(out[..n]);
    status := Some(written);
  }

  function Records(all: seq<(Dataset, string)>): (r: seq<string>)
    ensures |r| == |all| && forall i :: 0 <= i < |r| ==> r[i] == Record(all[i].0, all[i].1)
  {
    seq(|all|, i requires 0 <= i < |all| => Record(all[i].0, all[i].1))
  }

  /**
   The log after any number of deferred records: the header and the stored records, in order;
   on the 100-block image the first 686 are all there.
   */
  lemma LogTellsAll(image: Disk, all: seq<(Dataset, string)>)
    requires WellFormed(image) && Content(image) == HEADER && Blocks(image) == IMAGE_BLOCKS
    requires forall i :: 0 <= i < |all| ==> NulFree(all[i].0.progPath) && NulFree(all[i].1)
    ensures Storable(Records(all))
    ensures DropNul(Content(Run(image, Records(all)))) == HEADER + Flatten(Accepted(image, Records(all)))
    ensures |all| <= SURE_RECORDS ==> Accepted(image, Records(all)) == Records(all)
  {
    var records := Records(all);
    forall i | 0 <= i < |records|
      ensures NulFree(records[i])
    {
      RecordNulFree(all[i].0, all[i].1);
    }
    ImageText(image, records);
    if |all| <= SURE_RECORDS {
      FirstRecordsAlwaysFit(image, records);
    }
  }

  ghost predicate AllClean(all: seq<(Dataset, string)>) {
    forall i :: 0 <= i < |all| ==>
      && NulFree(all[i].0.progPath) && NulFree(all[i].1) && Lacks(all[i].1, '\n') && CleanPath(all[i].0, all[i].1)
  }

  lemma {:induction false} AcceptedRecords(d: Disk, records: seq<string>, limit: nat)
    requires WellFormed(d) && Storable(records) && AllRecords(records, limit)
    ensures AllRecords(Accepted(d, records), limit)
  {
    if records != [] {
      AcceptedRecords(d, records[..|records| - 1], limit);
    }
  }

  lemma CleanRecords(all: seq<(Dataset, string)>)
    requires AllClean(all)
    ensures AllRecords(Records(all), LOG_RECORD_MAX)
  {
    forall i | 0 <= i < |all|
      ensures IsRecord(Records(all)[i], LOG_RECORD_MAX)
    {
      RecordExact(all[i].0, all[i].1);
    }
  }

  lemma SameTail<T>(a: seq<T>, b: seq<T>, c: seq<T>)
    requires a + b == a + c
    ensures b == c
  {
    assert b == (a + b)[|a|..] && c == (a + c)[|a|..];
  }

  /**
   End to end: if two runs of deferred records, with paths that are clean as above, leave the
   same text in the log, then they stored the same records; up to 686 of them, the same all.
   */
  lemma LogDeterminesRecords(image: Disk, all: seq<(Dataset, string)>, all': seq<(Dataset, string)>)
    requires WellFormed(image) && Content(image) == HEADER && Blocks(image) == IMAGE_BLOCKS
    requires AllClean(all) && AllClean(all')
    requires DropNul(Content(Run(image, Records(all)))) == DropNul(Content(Run(image, Records(all'))))
    ensures Accepted(image, Records(all)) == Accepted(image, Records(all'))
    ensures |all| <= SURE_RECORDS && |all'| <= SURE_RECORDS ==> Records(all) == Records(all')
  {
    LogTellsAll(image, all);
    LogTellsAll(image, all');
    CleanRecords(all);
    CleanRecords(all');
    AcceptedRecords(image, Records(all), LOG_RECORD_MAX);
    AcceptedRecords(image, Records(all'), LOG_RECORD_MAX);
    var ss, tt := Accepted(image, Records(all)), Accepted(image, Records(all'));
    SameTail(HEADER, Flatten(ss), Flatten(tt));
    TextDeterminesRecords(ss, tt, LOG_RECORD_MAX);
  }
}
