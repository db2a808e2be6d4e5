/**
 How much the log file holds: what jumping to the next block wastes, block by block, and how
 many records are sure to fit.
 */
module LogSpace {
  import opened LogFile
  import opened LogRuns

  // ----- text and extents, block by block

  /** The bytes of text that the extents in block b carry. */
  function BlockText(exts: seq<Extent>, b: nat): nat {
    if exts == [] then 0 else
      var e := exts[|exts| - 1];
      BlockText(exts[..|exts| - 1], b) + if e.start / BLOCK_SIZE == b then |e.text| else 0
  }

  /** How many extents lie in block b. */
  function BlockCount(exts: seq<Extent>, b: nat): nat {
    if exts == [] then 0 else
      var e := exts[|exts| - 1];
      BlockCount(exts[..|exts| - 1], b) + if e.start / BLOCK_SIZE == b then 1 else 0
  }

  lemma BlockSnoc(exts: seq<Extent>, e: Extent, b: nat)
    ensures BlockText(exts + [e], b) == BlockText(exts, b) + if e.start / BLOCK_SIZE == b then |e.text| else 0
    ensures BlockCount(exts + [e], b) == BlockCount(exts, b) + if e.start / BLOCK_SIZE == b then 1 else 0
  {
    assert (exts + [e])[..|exts|] == exts;
  }

  /**
   Every block before the current one carries at least c bytes, the current one is full up to
   the end of the file, and later ones carry nothing.
   */
  ghost predicate Packed(exts: seq<Extent>, size: nat, c: nat) {
    && (forall b: nat :: b < size / BLOCK_SIZE ==> BlockText(exts, b) >= c)
    && BlockText(exts, size / BLOCK_SIZE) == size % BLOCK_SIZE
    && (forall b: nat :: b > size / BLOCK_SIZE ==> BlockText(exts, b) == 0)
  }

  lemma EndBlock(size: nat, n: nat)
    requires n < BLOCK_SIZE
    ensures var s, q, r := StartOf(size, n), size / BLOCK_SIZE, size % BLOCK_SIZE;
            if SpareSpace(size) <= n
            then s / BLOCK_SIZE == q + 1 && (s + n) / BLOCK_SIZE == q + 1 && (s + n) % BLOCK_SIZE == n
            else s / BLOCK_SIZE == q && (s + n) / BLOCK_SIZE == q && (s + n) % BLOCK_SIZE == r + n
  {
    var q, r := size / BLOCK_SIZE, size % BLOCK_SIZE;
    if SpareSpace(size) <= n {
      NextBlock(size);
      assert StartOf(size, n) + n == BLOCK_SIZE * (q + 1) + n;
    } else {
      assert size + n == BLOCK_SIZE * q + (r + n);
    }
  }

  lemma PackedStep(exts: seq<Extent>, size: nat, record: string, c: nat)
    requires 0 < c && c + |record| <= BLOCK_SIZE && Packed(exts, size, c)
    ensures Packed(exts + [Extent(StartOf(size, |record|), record)], StartOf(size, |record|) + |record|, c)
  {
    var e := Extent(StartOf(size, |record|), record);
    EndBlock(size, |record|);
    forall b: nat
      ensures BlockText(exts + [e], b) == BlockText(exts, b) + if e.start / BLOCK_SIZE == b then |e.text| else 0
    {
      BlockSnoc(exts, e, b);
    }
  }

  lemma RunSize(d: Disk, records: seq<string>)
    requires WellFormed(d) && Storable(records) && records != []
    ensures var last := |records| - 1;
            var before := Run(d, records[..last]).size;
            Run(d, records).size == if LastFits(d, records) then StartOf(before, |records[last]|) + |records[last]|
                                    else before
  {
  }

  ghost predicate ShortRecords(records: seq<string>, limit: nat) {
    forall i :: 0 <= i < |records| ==> |records[i]| <= limit
  }

  lemma {:induction false} RunPacked(d: Disk, exts: seq<Extent>, records: seq<string>, c: nat)
    requires WellFormed(d) && Storable(records) && Packed(exts, d.size, c)
    requires 0 < c <= BLOCK_SIZE && ShortRecords(records, BLOCK_SIZE - c)
    ensures Packed(Extents(exts, d, records), Run(d, records).size, c)
  {
    if records != [] {
      var last := |records| - 1;
      RunPacked(d, exts, records[..last], c);
      RunSize(d, records);
      if LastFits(d, records) {
        PackedStep(Extents(exts, d, records[..last]), Run(d, records[..last]).size, records[last], c);
      }
    }
  }

  /** The extents of a run on an image whose content lies in its first block. */
  ghost function ImageExtents(image: Disk, records: seq<string>): seq<Extent>
    requires WellFormed(image) && Storable(records)
  {
    Extents([Extent(0, Content(image))], image, records)
  }

  lemma ImagePacked(image: Disk, c: nat)
    requires WellFormed(image) && image.size < BLOCK_SIZE
    ensures Packed([Extent(0, Content(image))], image.size, c)
  {
    var e := Extent(0, Content(image));
    forall b: nat
      ensures BlockText([e], b) == if b == 0 then image.size else 0
    {
      BlockSnoc([], e, b);
      assert [] + [e] == [e];
    }
  }

  lemma ImageRunLaidOut(image: Disk, records: seq<string>)
    requires WellFormed(image) && image.size < BLOCK_SIZE && Storable(records)
    ensures LaidOut(Run(image, records), ImageExtents(image, records))
  {
    ImageLaidOut(image);
    RunLaysOut(image, [Extent(0, Content(image))], records);
  }

  /**
   With records of at most BLOCK_SIZE - c bytes, each single block that was left behind holds
   at least c bytes of text, and the current one is full up to the end of the file.
   */
  lemma RunDensity(image: Disk, records: seq<string>, c: nat)
    requires WellFormed(image) && image.size < BLOCK_SIZE && Storable(records)
    requires 0 < c <= BLOCK_SIZE && ShortRecords(records, BLOCK_SIZE - c)
    ensures forall b: nat :: b < Run(image, records).size / BLOCK_SIZE ==>
              BlockText(ImageExtents(image, records), b) >= c
    ensures var size := Run(image, records).size;
            BlockText(ImageExtents(image, records), size / BLOCK_SIZE) == size % BLOCK_SIZE
  {
    ImagePacked(image, c);
    RunPacked(image, [Extent(0, Content(image))], records, c);
  }

  /** When an append finds no room, every data block of the device holds at least c bytes. */
  lemma FullBlocks(exts: seq<Extent>, size: nat, n: nat, blocks: nat, c: nat)
    requires Packed(exts, size, c) && c + n <= BLOCK_SIZE && !HasRoom(size, n, blocks)
    ensures forall b: nat :: b + META_BLOCKS < blocks ==> BlockText(exts, b) >= c
  {
    RoomByBlock(size, n, blocks);
  }

  // ----- all blocks together

  function TotalLength(ss: seq<string>): nat {
    if ss == [] then 0 else TotalLength(ss[..|ss| - 1]) + |ss[|ss| - 1]|
  }

  lemma TotalLengthSnoc(ss: seq<string>, s: string)
    ensures TotalLength(ss + [s]) == TotalLength(ss) + |s|
  {
    assert (ss + [s])[..|ss|] == ss;
  }

  lemma {:induction false} TotalLengthConcat(ss: seq<string>, tt: seq<string>)
    ensures TotalLength(ss + tt) == TotalLength(ss) + TotalLength(tt)
  {
    if tt == [] {
      assert ss + tt == ss;
    } else {
      var last := |tt| - 1;
      assert ss + tt == (ss + tt[..last]) + [tt[last]];
      TotalLengthSnoc(ss + tt[..last], tt[last]);
      TotalLengthConcat(ss, tt[..last]);
    }
  }

  function SumText(exts: seq<Extent>, m: nat): nat {
    if m == 0 then 0 else SumText(exts, m - 1) + BlockText(exts, m - 1)
  }

  function SumCount(exts: seq<Extent>, m: nat): nat {
    if m == 0 then 0 else SumCount(exts, m - 1) + BlockCount(exts, m - 1)
  }

  lemma {:induction false} SumSnoc(exts: seq<Extent>, e: Extent, m: nat)
    ensures SumText(exts + [e], m) == SumText(exts, m) + if e.start / BLOCK_SIZE < m then |e.text| else 0
    ensures SumCount(exts + [e], m) == SumCount(exts, m) + if e.start / BLOCK_SIZE < m then 1 else 0
  {
    if m > 0 {
      SumSnoc(exts, e, m - 1);
      BlockSnoc(exts, e, m - 1);
    }
  }

  lemma {:induction false} SumEmpty(m: nat)
    ensures SumText([], m) == 0 && SumCount([], m) == 0
  {
    if m > 0 {
      SumEmpty(m - 1);
    }
  }

  /** The first m blocks hold no more than there is. */
  lemma {:induction false} SumsBounded(exts: seq<Extent>, m: nat)
    ensures SumText(exts, m) <= TotalLength(Texts(exts))
    ensures SumCount(exts, m) <= |exts|
  {
    if exts == [] {
      SumEmpty(m);
    } else {
      var last := |exts| - 1;
      SumsBounded(exts[..last], m);
      SumSnoc(exts[..last], exts[last], m);
      TextsSnoc(exts[..last], exts[last]);
      TotalLengthSnoc(Texts(exts[..last]), exts[last].text);
      assert exts == exts[..last] + [exts[last]];
    }
  }

  lemma {:induction false} SumTextAtLeast(exts: seq<Extent>, m: nat, c: nat)
    requires forall b: nat :: b < m ==> BlockText(exts, b) >= c
    ensures SumText(exts, m) >= c * m
  {
    if m > 0 {
      SumTextAtLeast(exts, m - 1, c);
      assert c * m == c * (m - 1) + c;
    }
  }

  lemma {:induction false} SumCountAtLeast(exts: seq<Extent>, m: nat, k: nat)
    requires m > 0 ==> BlockCount(exts, 0) >= k + 1
    requires forall b: nat :: 0 < b < m ==> BlockCount(exts, b) >= k
    ensures m > 0 ==> SumCount(exts, m) >= k * m + 1
  {
    if m == 1 {
      assert SumCount(exts, 0) == 0;
    } else if m > 1 {
      SumCountAtLeast(exts, m - 1, k);
      assert k * m == k * (m - 1) + k;
    }
  }

  /** When the last append of a run finds no room, every data block holds at least c bytes. */
  lemma FullImage(image: Disk, records: seq<string>, c: nat)
    requires WellFormed(image) && image.size < BLOCK_SIZE
    requires 0 < c <= BLOCK_SIZE && ShortRecords(records, BLOCK_SIZE - c) && Storable(records)
    requires records != [] && !LastFits(image, records)
    ensures Accepted(image, records) == Accepted(image, records[..|records| - 1])
    ensures var exts := ImageExtents(image, records[..|records| - 1]);
            forall b: nat :: b < Blocks(image) - META_BLOCKS ==> BlockText(exts, b) >= c
  {
    var before := records[..|records| - 1];
    ImagePacked(image, c);
    RunPacked(image, [Extent(0, Content(image))], before, c);
    FullBlocks(ImageExtents(image, before), Run(image, before).size, |records[|records| - 1]|, Blocks(image), c);
  }

  /**
   Space bound: an append of at most BLOCK_SIZE - c bytes finds no room only when the header
   and the accepted records already amount to c bytes for each data block.
   */
  lemma FailsOnlyWhenFull(image: Disk, records: seq<string>, c: nat)
    requires WellFormed(image) && image.size < BLOCK_SIZE && Blocks(image) >= META_BLOCKS
    requires 0 < c <= BLOCK_SIZE && ShortRecords(records, BLOCK_SIZE - c) && Storable(records)
    requires records != [] && !LastFits(image, records)
    ensures image.size + TotalLength(Accepted(image, records)) >= c * (Blocks(image) - META_BLOCKS)
  {
    var before, m := records[..|records| - 1], Blocks(image) - META_BLOCKS;
    assert Accepted(image, records) == Accepted(image, before) by {
      FullImage(image, records, c);
    }
    assert image.size + TotalLength(Accepted(image, before)) >= c * m by {
      assert forall b: nat :: b < m ==> BlockText(ImageExtents(image, before), b) >= c by {
        FullImage(image, records, c);
      }
      RunEnoughText(image, before, m, c);
    }
  }

  lemma RunEnoughText(image: Disk, records: seq<string>, m: nat, c: nat)
    requires WellFormed(image) && image.size < BLOCK_SIZE && Storable(records)
    requires forall b: nat :: b < m ==> BlockText(ImageExtents(image, records), b) >= c
    ensures image.size + TotalLength(Accepted(image, records)) >= c * m
  {
    AllText(image, records);
    EnoughText(ImageExtents(image, records), m, c);
  }

  lemma EnoughText(exts: seq<Extent>, m: nat, c: nat)
    requires forall b: nat :: b < m ==> BlockText(exts, b) >= c
    ensures TotalLength(Texts(exts)) >= c * m
  {
    SumTextAtLeast(exts, m, c);
    SumsBounded(exts, m);
  }

  lemma AllText(image: Disk, records: seq<string>)
    requires WellFormed(image) && image.size < BLOCK_SIZE && Storable(records)
    ensures Texts(ImageExtents(image, records)) == [Content(image)] + Accepted(image, records)
    ensures TotalLength(Texts(ImageExtents(image, records))) == image.size + TotalLength(Accepted(image, records))
  {
    var first := [Extent(0, Content(image))];
    ImageLaidOut(image);
    RunLaysOut(image, first, records);
    assert Texts(first) == [Content(image)];
    TotalLengthConcat([Content(image)], Accepted(image, records));
    TotalLengthSnoc([], Content(image));
    assert [] + [Content(image)] == [Content(image)];
  }

  // ----- deferred log records

  const IMAGE_BLOCKS: nat := 100
  const LOG_RECORD_MAX: nat := 515
  const RECORDS_PER_BLOCK: nat := 7
  const SURE_RECORDS: nat := 686

  lemma {:induction false} AcceptedShort(d: Disk, records: seq<string>, limit: nat)
    requires WellFormed(d) && Storable(records) && ShortRecords(records, limit)
    ensures ShortRecords(Accepted(d, records), limit)
  {
    if records != [] {
      AcceptedShort(d, records[..|records| - 1], limit);
    }
  }

  /** A first extent of `first` bytes, and then extents of at most LOG_RECORD_MAX bytes each. */
  ghost predicate ShortExtents(exts: seq<Extent>, first: nat) {
    && exts != [] && exts[0].start == 0 && |exts[0].text| == first
    && forall i :: 1 <= i < |exts| ==> |exts[i].text| <= LOG_RECORD_MAX
  }

  lemma {:induction false} CountsCover(exts: seq<Extent>, first: nat, b: nat)
    requires ShortExtents(exts, first) && first <= LOG_RECORD_MAX
    ensures BlockText(exts, b) + (if b == 0 then LOG_RECORD_MAX - first else 0) <= LOG_RECORD_MAX * BlockCount(exts, b)
  {
    var last := |exts| - 1;
    if last == 0 {
      assert exts[..0] == [];
    } else {
      CountsCover(exts[..last], first, b);
    }
  }

  lemma EnoughExtents(exts: seq<Extent>, first: nat, m: nat)
    requires ShortExtents(exts, first) && first <= 31 && m > 0
    requires forall b: nat :: b < m ==> BlockText(exts, b) >= BLOCK_SIZE - LOG_RECORD_MAX
    ensures |exts| >= RECORDS_PER_BLOCK * m + 1
  {
    forall b: nat | b < m
      ensures BlockCount(exts, b) >= if b == 0 then RECORDS_PER_BLOCK + 1 else RECORDS_PER_BLOCK
    {
      CountsCover(exts, first, b);
    }
    SumCountAtLeast(exts, m, RECORDS_PER_BLOCK);
    SumsBounded(exts, m);
  }

  /** An append of a log record finds no room only after seven records for each data block. */
  lemma FailsOnlyAfterSevenPerBlock(image: Disk, records: seq<string>)
    requires WellFormed(image) && image.size == |HEADER| && Blocks(image) > META_BLOCKS
    requires ShortRecords(records, LOG_RECORD_MAX) && Storable(records)
    requires records != [] && !LastFits(image, records)
    ensures |Accepted(image, records)| >= RECORDS_PER_BLOCK * (Blocks(image) - META_BLOCKS)
  {
    var before := records[..|records| - 1];
    FullImage(image, records, BLOCK_SIZE - LOG_RECORD_MAX);
    AllText(image, before);
    AcceptedShort(image, before, LOG_RECORD_MAX);
    TextsShort(ImageExtents(image, before), Content(image), Accepted(image, before));
    ImageStart(image, before);
    EnoughExtents(ImageExtents(image, before), image.size, Blocks(image) - META_BLOCKS);
  }

  lemma TextsShort(exts: seq<Extent>, first: string, rest: seq<string>)
    requires Texts(exts) == [first] + rest && ShortRecords(rest, LOG_RECORD_MAX)
    ensures |exts| == 1 + |rest| && exts[0].text == first
    ensures forall i :: 1 <= i < |exts| ==> |exts[i].text| <= LOG_RECORD_MAX
  {
    assert |Texts(exts)| == |exts|;
    assert forall i :: 0 <= i < |exts| ==> exts[i].text == Texts(exts)[i];
    assert forall i :: 1 <= i < |exts| ==> exts[i].text == rest[i - 1];
  }

  lemma ImageStart(image: Disk, records: seq<string>)
    requires WellFormed(image) && image.size < BLOCK_SIZE && Storable(records)
    ensures ImageExtents(image, records) != [] && ImageExtents(image, records)[0].start == 0
  {
    var first := [Extent(0, Content(image))];
    ImageLaidOut(image);
    RunLaysOut(image, first, records);
    assert first[0] == ImageExtents(image, records)[0];
  }

  /** On the 100-block image every one of the first 686 deferred log records is stored. */
  lemma {:induction false} FirstRecordsAlwaysFit(image: Disk, records: seq<string>)
    requires WellFormed(image) && image.size == |HEADER| && Blocks(image) == IMAGE_BLOCKS
    requires ShortRecords(records, LOG_RECORD_MAX) && Storable(records) && |records| <= SURE_RECORDS
    ensures Accepted(image, records) == records
  {
    if records != [] {
      FirstRecordsAlwaysFit(image, records[..|records| - 1]);
      if !LastFits(image, records) {
        FailsOnlyAfterSevenPerBlock(image, records);
        assert false;
      }
    }
  }

  /** Size when data block j holds k + 1 records of 515 bytes and every earlier one seven. */
  function FullSize(j: nat, k: nat): nat {
    BLOCK_SIZE * j + LOG_RECORD_MAX * (k + 1) + if j == 0 then |HEADER| else 0
  }

  lemma NextFullSize(j: nat, k: nat)
    requires k < RECORDS_PER_BLOCK && j + META_BLOCKS < IMAGE_BLOCKS
    ensures var next := StartOf(FullSize(j, k), LOG_RECORD_MAX) + LOG_RECORD_MAX;
            next == if k + 1 < RECORDS_PER_BLOCK then FullSize(j, k + 1) else FullSize(j + 1, 0)
    ensures HasRoom(FullSize(j, k), LOG_RECORD_MAX, IMAGE_BLOCKS)
       <==> k + 1 < RECORDS_PER_BLOCK || j + 1 + META_BLOCKS < IMAGE_BLOCKS
  {
    var inBlock := LOG_RECORD_MAX * (k + 1) + if j == 0 then |HEADER| else 0;
    assert |HEADER| == 31 && inBlock < BLOCK_SIZE;
    assert FullSize(j, k) == BLOCK_SIZE * j + inBlock;
    assert FullSize(j, k) % BLOCK_SIZE == inBlock && FullSize(j, k) / BLOCK_SIZE == j;
    RoomByBlock(FullSize(j, k), LOG_RECORD_MAX, IMAGE_BLOCKS);
  }

  lemma FirstFullSize()
    ensures StartOf(|HEADER|, LOG_RECORD_MAX) + LOG_RECORD_MAX == FullSize(0, 0)
    ensures HasRoom(|HEADER|, LOG_RECORD_MAX, IMAGE_BLOCKS)
  {
    assert |HEADER| == 31;
  }

  lemma RoomySize(image: Disk, records: seq<string>, size: nat)
    requires WellFormed(image) && Storable(records) && records != []
    requires Run(image, records[..|records| - 1]).size == size
    requires HasRoom(size, |records[|records| - 1]|, Blocks(image))
    ensures Run(image, records).size == StartOf(size, |records[|records| - 1]|) + |records[|records| - 1]|
  {
    RunSize(image, records);
  }

  lemma {:induction false} FullRecordsSize(image: Disk, records: seq<string>, j: nat, k: nat)
    requires WellFormed(image) && image.size == |HEADER| && Blocks(image) == IMAGE_BLOCKS && Storable(records)
    requires forall i :: 0 <= i < |records| ==> |records[i]| == LOG_RECORD_MAX
    requires k < RECORDS_PER_BLOCK && j + META_BLOCKS < IMAGE_BLOCKS && |records| == RECORDS_PER_BLOCK * j + k + 1
    ensures Run(image, records).size == FullSize(j, k)
    decreases |records|
  {
    var before := records[..|records| - 1];
    if k > 0 {
      FullRecordsSize(image, before, j, k - 1);
      NextFullSize(j, k - 1);
      RoomySize(image, records, FullSize(j, k - 1));
    } else if j > 0 {
      FullRecordsSize(image, before, j - 1, RECORDS_PER_BLOCK - 1);
      NextFullSize(j - 1, RECORDS_PER_BLOCK - 1);
      RoomySize(image, records, FullSize(j - 1, RECORDS_PER_BLOCK - 1));
    } else {
      FirstFullSize();
      RoomySize(image, records, |HEADER|);
    }
  }

  /** The bound is exact: after 686 records of 515 bytes the 687th finds no room. */
  lemma Record687Fails(image: Disk, records: seq<string>)
    requires WellFormed(image) && image.size == |HEADER| && Blocks(image) == IMAGE_BLOCKS && Storable(records)
    requires |records| == SURE_RECORDS + 1 && forall i :: 0 <= i < |records| ==> |records[i]| == LOG_RECORD_MAX
    ensures Accepted(image, records) == records[..SURE_RECORDS]
  {
    var before := records[..SURE_RECORDS];
    FirstRecordsAlwaysFit(image, before);
    FullRecordsSize(image, before, 97, 6);
    NextFullSize(97, 6);
  }
}
