/**
 Whole runs of the log file: any number of appends to a fresh image, in any order of sizes,
 some of which fail for lack of room.
 */
module LogRuns {
  import opened CStrings
  import opened LogFile
  import opened Sequences

  // ----- text without its padding

  function DropNul(s: string): string {
    if s == [] then []
    else (if s[0] == NUL then [] else [s[0]]) + DropNul(s[1..])
  }

  predicate NulFree(s: string) {
    NUL !in s
  }

  lemma {:induction false} DropNulConcat(a: string, b: string)
    ensures DropNul(a + b) == DropNul(a) + DropNul(b)
  {
    if a == [] {
      assert a + b == b;
    } else {
      assert (a + b)[1..] == a[1..] + b;
      DropNulConcat(a[1..], b);
    }
  }

  lemma {:induction false} DropNulZeros(n: nat)
    ensures DropNul(Zeros(n)) == []
  {
    if n > 0 {
      assert Zeros(n)[1..] == Zeros(n - 1);
      DropNulZeros(n - 1);
    }
  }

  lemma {:induction false} DropNulKeeps(s: string)
    requires NulFree(s)
    ensures DropNul(s) == s
  {
    if s != [] {
      DropNulKeeps(s[1..]);
    }
  }

  function Flatten(ss: seq<string>): string {
    if ss == [] then [] else Flatten(ss[..|ss| - 1]) + ss[|ss| - 1]
  }

  // ----- runs of appends

  ghost predicate Storable(records: seq<string>) {
    forall i :: 0 <= i < |records| ==> |records[i]| <= BLOCK_SIZE
  }

  /** The disk after appending the records one after the other. */
  ghost function Run(d: Disk, records: seq<string>): (r: Disk)
    requires WellFormed(d) && Storable(records)
    ensures WellFormed(r) && |r.bytes| == |d.bytes|
  {
    if records == [] then d else
      var before := Run(d, records[..|records| - 1]);
      AppendedContent(before, records[|records| - 1]);
      Appended(before, records[|records| - 1])
  }

  /** Whether the last append of the run finds room. */
  ghost predicate LastFits(d: Disk, records: seq<string>)
    requires WellFormed(d) && Storable(records) && records != []
  {
    var last := |records| - 1;
    HasRoom(Run(d, records[..last]).size, |records[last]|, Blocks(d))
  }

  /** The records whose append succeeded, in order. */
  ghost function Accepted(d: Disk, records: seq<string>): (a: seq<string>)
    requires WellFormed(d) && Storable(records)
    ensures |a| <= |records|
  {
    if records == [] then [] else
      var last := |records| - 1;
      if LastFits(d, records) then Accepted(d, records[..last]) + [records[last]]
      else Accepted(d, records[..last])
  }

  lemma FlattenSnoc(ss: seq<string>, s: string)
    ensures Flatten(ss + [s]) == Flatten(ss) + s
  {
    assert (ss + [s])[..|ss|] == ss;
  }

  /** One append adds exactly its record to the text, or nothing when there is no room. */
  lemma AppendText(d: Disk, record: string)
    requires WellFormed(d) && |record| <= BLOCK_SIZE && NulFree(record)
    ensures WellFormed(Appended(d, record))
    ensures DropNul(Content(Appended(d, record)))
         == if HasRoom(d.size, |record|, Blocks(d)) then DropNul(Content(d)) + record else DropNul(Content(d))
  {
    AppendedContent(d, record);
    if HasRoom(d.size, |record|, Blocks(d)) {
      var gap := StartOf(d.size, |record|) - d.size;
      DropNulPadded(Content(d), gap, record);
    }
  }

  lemma DropNulPadded(text: string, gap: nat, record: string)
    requires NulFree(record)
    ensures DropNul(text + Zeros(gap) + record) == DropNul(text) + record
  {
    DropNulConcat(text + Zeros(gap), record);
    DropNulConcat(text, Zeros(gap));
    DropNulZeros(gap);
    DropNulKeeps(record);
  }

  /** Round trip: after dropping NULs, the file is the old text and then the accepted records. */
  lemma {:induction false} RunText(d: Disk, records: seq<string>)
    requires WellFormed(d) && Storable(records)
    requires forall i :: 0 <= i < |records| ==> NulFree(records[i])
    ensures DropNul(Content(Run(d, records))) == DropNul(Content(d)) + Flatten(Accepted(d, records))
  {
    if records == [] {
      assert Flatten([]) == "";
    } else {
      var last := |records| - 1;
      var accepted := Accepted(d, records[..last]);
      RunText(d, records[..last]);
      AppendText(Run(d, records[..last]), records[last]);
      FlattenSnoc(accepted, records[last]);
      Associative(DropNul(Content(d)), Flatten(accepted), records[last]);
    }
  }

  /** Blocks 0 and 1 never change. */
  lemma {:induction false} RunKeepsMeta(d: Disk, records: seq<string>)
    requires WellFormed(d) && Storable(records)
    ensures Run(d, records).bytes[..META_BYTES] == d.bytes[..META_BYTES]
  {
    if records != [] {
      RunKeepsMeta(d, records[..|records| - 1]);
      AppendedContent(Run(d, records[..|records| - 1]), records[|records| - 1]);
    }
  }

  lemma ImageText(image: Disk, records: seq<string>)
    requires WellFormed(image) && Content(image) == HEADER
    requires Storable(records) && forall i :: 0 <= i < |records| ==> NulFree(records[i])
    ensures DropNul(Content(Run(image, records))) == HEADER + Flatten(Accepted(image, records))
  {
    RunText(image, records);
    HeaderIsText();
  }

  lemma HeaderIsText()
    ensures DropNul(HEADER) == HEADER
  {
    DropNulKeeps(HEADER);
  }

  method AppendAll(fs: LogDevice, records: seq<string>) returns (accepted: seq<string>)
    requires fs.Valid() && Storable(records)
    modifies fs`size, fs.data
    ensures fs.Valid()
    ensures fs.Snapshot() == Run(old(fs.Snapshot()), records)
    ensures accepted == Accepted(old(fs.Snapshot()), records)
  {
    accepted := [];
    ghost var image := fs.Snapshot();
    assert records[..0] == [];
    for i := 0 to |records|
      invariant fs.Valid()
      invariant fs.Snapshot() == Run(image, records[..i])
      invariant accepted == Accepted(image, records[..i])
    {
      assert records[..i + 1][..i] == records[..i];
      var status, pos := fs.Append(records[i]);
      if status == Done {
        accepted := accepted + [records[i]];
      }
    }
    assert records[..|records|] == records;
  }

  /**
   The whole path on the real device: make the image, append, read to end of file with any
   buffer sizes and drop the padding. text is the header and the accepted records, in order.
   */
  method WriteThenRead(blocks: nat, superblock: string, inodeBlock: string,
                       records: seq<string>, chunks: nat -> nat)
    returns (text: string, accepted: seq<string>, ghost image: Disk)
    requires blocks >= 3 && |superblock| == BLOCK_SIZE && |inodeBlock| == BLOCK_SIZE
    requires Storable(records) && forall i :: 0 <= i < |records| ==> NulFree(records[i])
    requires forall i: nat :: chunks(i) > 0
    ensures WellFormed(image) && Content(image) == HEADER && |image.bytes| == blocks * BLOCK_SIZE
    ensures accepted == Accepted(image, records)
    ensures DropNul(text) == HEADER + Flatten(accepted)
  {
    var fs := new LogDevice.Mkfs(blocks, superblock, inodeBlock);
    image := fs.Snapshot();
    accepted := AppendAll(fs, records);
    var calls;
    text, calls := fs.ReadToEof(chunks);
    ImageText(image, records);
  }

  // ----- where the records lie

  datatype Extent = Extent(start: nat, text: string) {
    function End(): nat { start + |text| }
  }

  ghost predicate Disjoint(exts: seq<Extent>) {
    forall i, j :: 0 <= i < j < |exts| ==> exts[i].End() <= exts[j].start
  }

  ghost predicate Holds(d: Disk, e: Extent) {
    && META_BYTES + e.End() <= |d.bytes|
    && e.End() <= d.size
    && e.start % BLOCK_SIZE + |e.text| <= BLOCK_SIZE
    && d.bytes[META_BYTES + e.start..META_BYTES + e.End()] == e.text
  }

  ghost predicate Covered(exts: seq<Extent>, k: int) {
    exists i :: 0 <= i < |exts| && exts[i].start <= k < exts[i].End()
  }

  /**
   Extents in increasing order and pairwise disjoint, each inside one block and holding its
   text, with nothing but NUL on the rest of the data area.
   */
  ghost predicate LaidOut(d: Disk, exts: seq<Extent>) {
    && Disjoint(exts)
    && (forall i :: 0 <= i < |exts| ==> Holds(d, exts[i]))
    && (forall k :: META_BYTES <= k < |d.bytes| && !Covered(exts, k - META_BYTES) ==> d.bytes[k] == NUL)
  }

  lemma AppendKeepsExtent(d: Disk, e: Extent, record: string)
    requires WellFormed(d) && Holds(d, e) && |record| <= BLOCK_SIZE
    ensures Holds(Appended(d, record), e)
  {
    AppendedContent(d, record);
    var d' := Appended(d, record);
    Placement(d.size, |record|);
    assert d'.size >= d.size;
    assert forall k :: 0 <= k < META_BYTES + d.size ==> d'.bytes[k] == d.bytes[k];
  }

  lemma AppendLaysOut(d: Disk, exts: seq<Extent>, record: string)
    requires WellFormed(d) && LaidOut(d, exts) && |record| <= BLOCK_SIZE
    requires HasRoom(d.size, |record|, Blocks(d))
    ensures LaidOut(Appended(d, record), exts + [Extent(StartOf(d.size, |record|), record)])
  {
    var d' := Appended(d, record);
    var e := Extent(StartOf(d.size, |record|), record);
    var exts' := exts + [e];
    RoomInside(d, |record|);
    Placement(d.size, |record|);
    forall i | 0 <= i < |exts'|
      ensures Holds(d', exts'[i])
    {
      if i < |exts| {
        AppendKeepsExtent(d, exts[i], record);
      } else {
        assert d'.bytes[META_BYTES + e.start..META_BYTES + e.End()] == record;
      }
    }
    forall k | META_BYTES <= k < |d'.bytes| && !Covered(exts', k - META_BYTES)
      ensures d'.bytes[k] == NUL
    {
      assert exts'[|exts|] == e;
      assert forall i :: 0 <= i < |exts| ==> exts'[i] == exts[i];
    }
  }

  /** The extents of a run: those already there and then one per accepted record. */
  ghost function Extents(initial: seq<Extent>, d: Disk, records: seq<string>): seq<Extent>
    requires WellFormed(d) && Storable(records)
  {
    if records == [] then initial else
      var last := |records| - 1;
      var before := Extents(initial, d, records[..last]);
      if LastFits(d, records)
      then before + [Extent(StartOf(Run(d, records[..last]).size, |records[last]|), records[last])]
      else before
  }

  function Texts(exts: seq<Extent>): seq<string> {
    seq(|exts|, i requires 0 <= i < |exts| => exts[i].text)
  }

  lemma TextsSnoc(exts: seq<Extent>, e: Extent)
    ensures Texts(exts + [e]) == Texts(exts) + [e.text]
  {
  }

  /** Over every run the extents stay laid out, earlier ones stay put, and they carry the accepted records. */
  lemma {:induction false} RunLaysOut(d: Disk, exts: seq<Extent>, records: seq<string>)
    requires WellFormed(d) && LaidOut(d, exts) && Storable(records)
    ensures LaidOut(Run(d, records), Extents(exts, d, records))
    ensures exts <= Extents(exts, d, records)
    ensures Texts(Extents(exts, d, records)) == Texts(exts) + Accepted(d, records)
  {
    if records != [] {
      var last := |records| - 1;
      RunLaysOut(d, exts, records[..last]);
      var before := Extents(exts, d, records[..last]);
      if LastFits(d, records) {
        AppendLaysOut(Run(d, records[..last]), before, records[last]);
        TextsSnoc(before, Extents(exts, d, records)[|before|]);
        Associative(Texts(exts), Accepted(d, records[..last]), [records[last]]);
      }
    }
  }

  /** An image whose content lies in one block, such as the header line of a fresh one, is one extent. */
  lemma ImageLaidOut(image: Disk)
    requires WellFormed(image) && image.size <= BLOCK_SIZE
    ensures LaidOut(image, [Extent(0, Content(image))])
  {
    var exts := [Extent(0, Content(image))];
    assert Holds(image, exts[0]);
    forall k | META_BYTES <= k < |image.bytes| && !Covered(exts, k - META_BYTES)
      ensures image.bytes[k] == NUL
    {
      assert exts[0].End() == image.size;
      assert !(exts[0].start <= k - META_BYTES < exts[0].End());
    }
  }

  // ----- reads of any length, some cut short by copy faults, between appends

  datatype Event = Grow(record: string) | Fetch(len: nat, fault: nat)

  ghost predicate StorableEvents(events: seq<Event>) {
    forall i :: 0 <= i < |events| && events[i].Grow? ==> |events[i].record| <= BLOCK_SIZE
  }

  /** What one reader gets from offset off on, where its offset then stands, and the disk at the end. */
  ghost function Delivered(d: Disk, off: nat, events: seq<Event>): (r: (string, nat, Disk))
    requires WellFormed(d) && StorableEvents(events)
    ensures WellFormed(r.2)
    decreases |events|
  {
    if events == [] then ([], off, d) else
      match events[0]
      case Grow(record) =>
        AppendedContent(d, record);
        Delivered(Appended(d, record), off, events[1..])
      case Fetch(len, fault) =>
        var chunk := ReadChunk(d, off, len, fault);
        var rest := Delivered(d, off + |chunk|, events[1..]);
        (chunk + rest.0, rest.1, rest.2)
  }

  lemma ReadStep(d: Disk, off: nat, len: nat, fault: nat)
    requires META_BYTES + d.size <= |d.bytes| && off <= d.size
    ensures var chunk := ReadChunk(d, off, len, fault);
            off + |chunk| <= d.size && chunk == Content(d)[off..off + |chunk|]
  {
    ReadLengthBound(d.size, off, len, fault);
  }

  lemma AppendExtends(d: Disk, record: string)
    requires WellFormed(d) && |record| <= BLOCK_SIZE
    ensures WellFormed(Appended(d, record)) && Content(d) <= Content(Appended(d, record))
  {
    AppendedContent(d, record);
  }

  lemma FetchJoin(c: string, c': string, off: nat, next: nat, end: nat)
    requires c <= c' && off <= next <= |c| && next <= end <= |c'|
    ensures c[off..next] + c'[next..end] == c'[off..end]
  {
    assert c[off..next] == c'[off..next];
  }

  /** r is what a reader at off gets on the way from d to r.2: a slice of the final content. */
  ghost predicate GetsSlice(d: Disk, off: nat, r: (string, nat, Disk))
    requires WellFormed(d) && WellFormed(r.2)
  {
    Content(d) <= Content(r.2) && off <= r.1 <= r.2.size && r.0 == Content(r.2)[off..r.1]
  }

  lemma GrowSlice(d: Disk, record: string, off: nat, r: (string, nat, Disk))
    requires WellFormed(d) && |record| <= BLOCK_SIZE && WellFormed(Appended(d, record)) && WellFormed(r.2)
    requires GetsSlice(Appended(d, record), off, r)
    ensures GetsSlice(d, off, r)
  {
    AppendExtends(d, record);
    PrefixTransitive(Content(d), Content(Appended(d, record)), Content(r.2));
  }

  lemma FetchSlice(d: Disk, off: nat, len: nat, fault: nat, r: (string, nat, Disk))
    requires WellFormed(d) && WellFormed(r.2) && off <= d.size
    requires GetsSlice(d, off + |ReadChunk(d, off, len, fault)|, r)
    ensures GetsSlice(d, off, (ReadChunk(d, off, len, fault) + r.0, r.1, r.2))
  {
    ReadStep(d, off, len, fault);
    FetchJoin(Content(d), Content(r.2), off, off + |ReadChunk(d, off, len, fault)|, r.1);
  }

  lemma {:induction false} DeliveredSlice(d: Disk, off: nat, events: seq<Event>)
    requires WellFormed(d) && StorableEvents(events) && off <= d.size
    ensures GetsSlice(d, off, Delivered(d, off, events))
    decreases |events|
  {
    if events != [] {
      match events[0]
      case Grow(record) =>
        AppendExtends(d, record);
        DeliveredSlice(Appended(d, record), off, events[1..]);
        GrowSlice(d, record, off, Delivered(Appended(d, record), off, events[1..]));
      case Fetch(len, fault) =>
        ReadStep(d, off, len, fault);
        var next := off + |ReadChunk(d, off, len, fault)|;
        DeliveredSlice(d, next, events[1..]);
        FetchSlice(d, off, len, fault, Delivered(d, next, events[1..]));
    }
  }

  /**
   A reader that passes its offset on never skips or repeats a byte, whatever lengths and copy
   faults occur and whatever is appended between its reads: it gets a slice of the final content.
   */
  lemma ReadsAreContiguous(d: Disk, off: nat, events: seq<Event>)
    requires WellFormed(d) && StorableEvents(events) && off <= d.size
    ensures var (text, end, d') := Delivered(d, off, events);
            && Content(d) <= Content(d')
            && off <= end <= d'.size && text == Content(d')[off..end]
  {
    DeliveredSlice(d, off, events);
  }
}
