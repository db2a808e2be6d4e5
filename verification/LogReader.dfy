/**
 A reader of the log: it takes a record apart again and gets back who did what
 (io/logio.c:28-31).
 */
module LogReader {
  import opened CStrings
  import opened Decimal
  import opened LogFile
  import opened LogRecords
  import opened LogRuns
  import opened LogSpace
  import opened Sequences
  import opened Wrappers

  /** The first k numbers of a text, and what follows them. */
  function ScanNumbers(text: string, k: nat): (r: Option<(seq<int>, string)>)
    ensures r.Some? ==> |r.value.0| == k
    decreases k
  {
    if k == 0 then Some(([], text)) else
      match ScanInt(text)
      case None => None
      case Some((n, rest)) =>
        match ScanNumbers(rest, k - 1)
        case None => None
        case Some((ns, end)) => Some(([n] + ns, end))
  }

  /** Four numbers, the path up to a tab, the hash up to the newline at the end. */
  function ReadRecord(record: string): Option<(Dataset, string)> {
    match ScanNumbers(record, 4)
    case None => None
    case Some((ns, rest)) =>
      var k := IndexOf(rest, '\t');
      if ns[2] < 0 || ns[3] < 0 || k == |rest| || rest[|rest| - 1] != '\n' then None
      else Some((Dataset(ns[0], ns[1], ns[2], ns[3], rest[..k]), rest[k + 1..|rest| - 1]))
  }

  // ----- the numbers

  /** Numbers, each with a tab after it, and then a tail. */
  function Fields(ns: seq<int>, tail: string): string {
    if ns == [] then tail else Tab(PrintInt(ns[0]), Fields(ns[1..], tail))
  }

  /** One number takes its field and the tab after it. */
  lemma ScanField(n: int, rest: string)
    requires StartsPlain(rest)
    ensures StartsPlain(Tab(PrintInt(n), rest))
    ensures ScanInt(Tab(PrintInt(n), rest)) == Some((n, rest))
  {
    Associative(PrintInt(n), "\t", rest);
    SignedFront(n, "\t" + rest);
    ScanPrintInt(n, "\t" + rest);
    assert ("\t" + rest)[1..] == rest;
  }

  lemma {:induction false} ScanFields(ns: seq<int>, tail: string)
    requires StartsPlain(tail)
    ensures StartsPlain(Fields(ns, tail))
    ensures ScanNumbers(Fields(ns, tail), |ns|) == Some((ns, tail))
  {
    if ns != [] {
      ScanFields(ns[1..], tail);
      ScanField(ns[0], Fields(ns[1..], tail));
      assert [ns[0]] + ns[1..] == ns;
    }
  }

  /** The numbers of a dataset in the order of the format: tgid, tid, uid, euid. */
  function Ids(ds: Dataset): seq<int> {
    [ds.tgid, ds.tid, ds.uid, ds.euid]
  }

  lemma TabTail(field: string, rest: string, tail: string)
    ensures Tab(field, rest) + tail == Tab(field, rest + tail)
  {
  }

  lemma NumbersAreFields(ds: Dataset, tail: string)
    ensures Numbers(ds) + tail == Fields(Ids(ds), tail)
  {
    var s1 := Tab(PrintNat(ds.euid), []);
    var s2 := Tab(PrintNat(ds.uid), s1);
    TabTail(PrintNat(ds.euid), [], tail);
    assert s1 + tail == Fields([ds.euid as int], tail) by {
      assert [] + tail == tail;
    }
    TabTail(PrintNat(ds.uid), s1, tail);
    assert [ds.uid, ds.euid][1..] == [ds.euid];
    assert s2 + tail == Fields([ds.uid as int, ds.euid], tail);
    TabTail(PrintInt(ds.tid), s2, tail);
    assert [ds.tid, ds.uid, ds.euid][1..] == [ds.uid, ds.euid];
    TabTail(PrintInt(ds.tgid), Tab(PrintInt(ds.tid), s2), tail);
    assert Ids(ds)[1..] == [ds.tid, ds.uid, ds.euid];
  }

  /** The numbers of a record are, in this order, tgid, tid, uid and euid. */
  lemma NumbersBack(ds: Dataset, tail: string)
    requires StartsPlain(tail)
    ensures ScanNumbers(Numbers(ds) + tail, 4) == Some(([ds.tgid, ds.tid, ds.uid, ds.euid], tail))
  {
    NumbersAreFields(ds, tail);
    ScanFields(Ids(ds), tail);
  }

  // ----- whole records

  /** The ids are 32-bit ones and the program path is absolute, as the kernel gives them. */
  predicate FromKernel(ds: Dataset) {
    && IsInt32(ds.tgid) && IsInt32(ds.tid) && ds.uid < 0x1_0000_0000 && ds.euid < 0x1_0000_0000
    && ds.progPath != [] && ds.progPath[0] == '/'
  }

  lemma NumbersLength(ds: Dataset)
    requires FromKernel(ds)
    ensures |Numbers(ds)| <= 46
  {
    PrintIntLength(ds.tgid);
    PrintIntLength(ds.tid);
    assert Pow10(10) == 10_000_000_000 by {
      assert Pow10(5) == 100_000;
    }
    PrintNatLength(ds.uid, 10, Pow10(10));
    PrintNatLength(ds.euid, 10, Pow10(10));
  }

  /** What follows the numbers in an uncut record. */
  function Names(ds: Dataset, hash: string): string {
    Tab(ds.progPath, hash) + "\n"
  }

  /**
   In every record, cut or not, a reader finds the four ids, and after them as much of path, tab,
   hash and newline as the buffer holds.
   */
  lemma FieldsBack(ds: Dataset, hash: string)
    requires FromKernel(ds)
    ensures var room := LOG_RECORD_MAX - |Numbers(ds)|;
            && room >= 469
            && ScanNumbers(Record(ds, hash), 4)
               == Some(([ds.tgid, ds.tid, ds.uid, ds.euid],
                        if |Names(ds, hash)| <= room then Names(ds, hash) else Names(ds, hash)[..room]))
  {
    NumbersLength(ds);
    var names, n := Names(ds, hash), |Numbers(ds)|;
    var seen := if |names| <= LOG_RECORD_MAX - n then names else names[..LOG_RECORD_MAX - n];
    assert Formatted(ds, hash) == Numbers(ds) + names by {
      Associative(Numbers(ds), Tab(ds.progPath, hash), "\n");
    }
    assert Record(ds, hash) == Numbers(ds) + seen;
    assert names[0] == '/';
    NumbersBack(ds, seen);
  }

  /** Nothing of the record was cut off, and its path has no tab. */
  predicate Legible(ds: Dataset, hash: string) {
    !Cut(ds, hash) && Lacks(ds.progPath, '\t')
  }

  lemma UncutNumbersBack(ds: Dataset, hash: string)
    requires ds.progPath != [] && ds.progPath[0] == '/' && !Cut(ds, hash)
    ensures ScanNumbers(Record(ds, hash), 4) == Some(([ds.tgid, ds.tid, ds.uid, ds.euid], Names(ds, hash)))
  {
    Associative(Numbers(ds), Tab(ds.progPath, hash), "\n");
    assert Names(ds, hash)[0] == '/';
    NumbersBack(ds, Names(ds, hash));
  }

  /** A reader gets dataset and hash back from an uncut record exactly when the path has no tab. */
  lemma ReadBackExact(ds: Dataset, hash: string)
    requires ds.progPath != [] && ds.progPath[0] == '/' && !Cut(ds, hash)
    ensures ReadRecord(Record(ds, hash)) == Some((ds, hash)) <==> Lacks(ds.progPath, '\t')
  {
    UncutNumbersBack(ds, hash);
    var names, n := Names(ds, hash), |ds.progPath|;
    assert forall i :: 0 <= i < n ==> names[i] == ds.progPath[i];
    assert names[n] == '\t';
    var k := IndexOf(names, '\t');
    assert k <= n;
    assert names[..n] == ds.progPath && names[n + 1..|names| - 1] == hash;
    if k < n {
      assert names[k] == '\t';
      assert |names[..k]| < |ds.progPath|;
    }
  }

  ghost predicate AllLegible(all: seq<(Dataset, string)>) {
    forall i :: 0 <= i < |all| ==>
      all[i].0.progPath != [] && all[i].0.progPath[0] == '/' && Legible(all[i].0, all[i].1)
  }

  /**
   End to end: up to 686 denied accesses, none with a tab or a newline in its path or a cut
   record, can be read off the log: another list would leave another text.
   */
  lemma LogDeterminesDatasets(image: Disk, all: seq<(Dataset, string)>, all': seq<(Dataset, string)>)
    requires WellFormed(image) && Content(image) == HEADER && Blocks(image) == IMAGE_BLOCKS
    requires AllClean(all) && AllClean(all') && AllLegible(all) && AllLegible(all')
    requires |all| <= SURE_RECORDS && |all'| <= SURE_RECORDS
    requires DropNul(Content(Run(image, Records(all)))) == DropNul(Content(Run(image, Records(all'))))
    ensures all == all'
  {
    LogDeterminesRecords(image, all, all');
    assert |all| == |Records(all)| == |Records(all')| == |all'|;
    forall i | 0 <= i < |all|
      ensures all[i] == all'[i]
    {
      ReadBackExact(all[i].0, all[i].1);
      ReadBackExact(all'[i].0, all'[i].1);
      assert Record(all[i].0, all[i].1) == Records(all)[i] == Records(all')[i] == Record(all'[i].0, all'[i].1);
    }
  }
}
