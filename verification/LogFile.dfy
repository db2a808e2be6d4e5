/**
 The log file of refmonfs (io/refmonfs/file.c): one file on a block device, grown by
 appends that never split a record over two blocks, and read one block at a time.

 A device is a string of bytes. The first two blocks hold the superblock and the inode;
 file offset k lives at device byte META_BYTES + k.
 */
module LogFile {
  import opened CStrings

  const BLOCK_SIZE: nat := 4096
  const META_BLOCKS: nat := 2
  const META_BYTES: nat := 8192
  const HEADER: string := "tgid\ttid\t\tuid\t\teuid\tpath\t\t\tsha\n"

  datatype Status = Done | Eio

  /** The bytes of the device and the in-memory file size (i_size). */
  datatype Disk = Disk(bytes: string, size: nat)

  function Zeros(n: nat): (z: string)
    ensures |z| == n && forall k :: 0 <= k < n ==> z[k] == NUL
  {
    seq(n, _ => NUL)
  }

  /** Whole blocks only, the file inside the device, and nothing but NUL after its end. */
  ghost predicate WellFormed(d: Disk) {
    && |d.bytes| % BLOCK_SIZE == 0
    && META_BYTES + d.size <= |d.bytes|
    && forall k :: META_BYTES + d.size <= k < |d.bytes| ==> d.bytes[k] == NUL
  }

  function Blocks(d: Disk): nat {
    |d.bytes| / BLOCK_SIZE
  }

  /** sb_bread fails exactly when the block is not on a device of that many bytes. */
  predicate Readable(length: nat, block: nat) {
    block < length / BLOCK_SIZE
  }

  /** What a reader sees: the file from offset 0 to its size. */
  function Content(d: Disk): string
    requires META_BYTES + d.size <= |d.bytes|
  {
    d.bytes[META_BYTES..META_BYTES + d.size]
  }

  // ----- where an append goes

  function SpareSpace(size: nat): (s: nat)
    ensures 1 <= s <= BLOCK_SIZE && (size + s) % BLOCK_SIZE == 0
  {
    BLOCK_SIZE - size % BLOCK_SIZE
  }

  /** File offset at which an append of n bytes starts. */
  function StartOf(size: nat, n: nat): nat {
    if SpareSpace(size) <= n then size + SpareSpace(size) else size
  }

  /** The block that the append writes to exists. */
  predicate HasRoom(size: nat, n: nat, blocks: nat) {
    StartOf(size, n) / BLOCK_SIZE + META_BLOCKS < blocks
  }

  /** s with the bytes from position at on overwritten by r. */
  function Overlay(s: string, at: nat, r: string): (t: string)
    requires at + |r| <= |s|
    ensures |t| == |s|
    ensures forall k :: 0 <= k < |s| ==> t[k] == if at <= k < at + |r| then r[k - at] else s[k]
  {
    s[..at] + r + s[at + |r|..]
  }

  /** What three writes in a row leave on a zeroed device. */
  lemma ImageBytes(blocks: nat, superblock: string, inodeBlock: string, text: string)
    requires blocks >= 3 && |superblock| == BLOCK_SIZE && |inodeBlock| == BLOCK_SIZE && |text| <= BLOCK_SIZE
    ensures var zeroed := Zeros(blocks * BLOCK_SIZE);
            var bytes := Overlay(Overlay(Overlay(zeroed, 0, superblock), BLOCK_SIZE, inodeBlock), META_BYTES, text);
            && WellFormed(Disk(bytes, |text|)) && bytes[..META_BYTES] == superblock + inodeBlock
            && Content(Disk(bytes, |text|)) == text
  {
  }

  lemma RoomInside(d: Disk, n: nat)
    requires WellFormed(d) && n <= BLOCK_SIZE && HasRoom(d.size, n, Blocks(d))
    ensures META_BYTES + StartOf(d.size, n) + n <= |d.bytes|
  {
  }

  function Appended(d: Disk, record: string): Disk
    requires WellFormed(d) && |record| <= BLOCK_SIZE
  {
    if HasRoom(d.size, |record|, Blocks(d)) then
      RoomInside(d, |record|);
      var start := StartOf(d.size, |record|);
      Disk(Overlay(d.bytes, META_BYTES + start, record), start + |record|)
    else d
  }

  /**
   Placement: a record that leaves at least one byte of its block unused goes to the first
   offset where it does so; a record of exactly one block goes to the first block boundary
   past the end of the file. In both cases it lies in one block and the file grows by at
   least n and at most 2n bytes.
   */
  lemma Placement(size: nat, n: nat)
    requires n <= BLOCK_SIZE
    ensures var s := StartOf(size, n);
            && size <= s && s % BLOCK_SIZE + n <= BLOCK_SIZE
            && n <= s + n - size <= 2 * n
    ensures n < BLOCK_SIZE ==>
              && StartOf(size, n) % BLOCK_SIZE + n < BLOCK_SIZE
              && forall t: nat :: size <= t < StartOf(size, n) ==> t % BLOCK_SIZE + n >= BLOCK_SIZE
    ensures n == BLOCK_SIZE ==>
              && StartOf(size, n) % BLOCK_SIZE == 0 && size < StartOf(size, n)
              && forall t: nat :: size < t < StartOf(size, n) ==> t % BLOCK_SIZE != 0
  {
    forall t: nat | size <= t < StartOf(size, n)
      ensures t % BLOCK_SIZE == size % BLOCK_SIZE + (t - size)
    {
      SameBlock(size, t);
    }
  }

  lemma SameBlock(size: nat, t: nat)
    requires size <= t < size + SpareSpace(size)
    ensures t % BLOCK_SIZE == size % BLOCK_SIZE + (t - size)
  {
    var q := size / BLOCK_SIZE;
    assert t == BLOCK_SIZE * q + (size % BLOCK_SIZE + (t - size));
  }

  /**
   An append with room extends the file by NULs up to the start of the record and then the
   record; one without room changes nothing. Blocks 0 and 1 keep their bytes, and the device
   stays NUL after the new end.
   */
  lemma AppendedContent(d: Disk, record: string)
    requires WellFormed(d) && |record| <= BLOCK_SIZE
    ensures var d' := Appended(d, record);
            && WellFormed(d') && |d'.bytes| == |d.bytes|
            && d'.bytes[..META_BYTES] == d.bytes[..META_BYTES]
            && Content(d') ==
               (if HasRoom(d.size, |record|, Blocks(d))
                then Content(d) + Zeros(StartOf(d.size, |record|) - d.size) + record
                else Content(d))
  {
    if HasRoom(d.size, |record|, Blocks(d)) {
      RoomInside(d, |record|);
    }
  }

  // ----- block arithmetic

  /** Byte position of file offset off, by block and position in the block. */
  lemma BlockOf(off: nat)
    ensures (off / BLOCK_SIZE + META_BLOCKS) * BLOCK_SIZE + off % BLOCK_SIZE == META_BYTES + off
  {
  }

  lemma NextBlock(size: nat)
    ensures (size + SpareSpace(size)) % BLOCK_SIZE == 0
    ensures (size + SpareSpace(size)) / BLOCK_SIZE == size / BLOCK_SIZE + 1
  {
    assert size + SpareSpace(size) == (size / BLOCK_SIZE + 1) * BLOCK_SIZE;
  }

  lemma OnDevice(off: nat, size: nat, length: nat)
    requires off < size && META_BYTES + size <= length && length % BLOCK_SIZE == 0
    ensures off / BLOCK_SIZE + META_BLOCKS < length / BLOCK_SIZE
  {
  }

  /** Whether there is room, by the number of the block that the file ends in. */
  lemma RoomByBlock(size: nat, n: nat, blocks: nat)
    ensures HasRoom(size, n, blocks)
       <==> size / BLOCK_SIZE + META_BLOCKS + (if SpareSpace(size) <= n then 1 else 0) < blocks
  {
    NextBlock(size);
  }

  lemma ContentSlice(d: Disk, i: nat, j: nat)
    requires i <= j <= d.size && META_BYTES + d.size <= |d.bytes|
    ensures d.bytes[META_BYTES + i..META_BYTES + j] == Content(d)[i..j]
  {
    assert forall k :: 0 <= k < j - i ==> Content(d)[i..j][k] == d.bytes[META_BYTES + i + k];
  }

  // ----- what a read delivers

  /** Bytes that one read gives: up to the end of the file and of the block, less a copy fault. */
  function ReadLength(size: nat, off: nat, len: nat, fault: nat): nat {
    if size <= off then 0 else
      var toEof := if off + len > size then size - off else len;
      var inBlock := if off % BLOCK_SIZE + toEof > BLOCK_SIZE then BLOCK_SIZE - off % BLOCK_SIZE else toEof;
      if fault < inBlock then inBlock - fault else 0
  }

  lemma ReadLengthBound(size: nat, off: nat, len: nat, fault: nat)
    ensures off <= size ==> off + ReadLength(size, off, len, fault) <= size
    ensures ReadLength(size, off, len, fault) <= len
    ensures off < size && len > 0 && fault == 0 ==> ReadLength(size, off, len, fault) > 0
    ensures off % BLOCK_SIZE + ReadLength(size, off, len, fault) <= BLOCK_SIZE
  {
  }

  /** Byte n of a read is delivered: with the bytes lost to the fault it is asked for, in the file and in the block. */
  predicate Delivers(size: nat, off: nat, len: nat, fault: nat, n: nat) {
    n + fault < len && off + n + fault < size && off % BLOCK_SIZE + n + fault < BLOCK_SIZE
  }

  /** A read gives as much as it can: up to what is asked for, the end of the file or of the block, less the fault. */
  lemma ReadLengthExact(size: nat, off: nat, len: nat, fault: nat)
    ensures forall n: nat :: n < ReadLength(size, off, len, fault) <==> Delivers(size, off, len, fault, n)
  {
  }

  /** A read without a fault stops only at what was asked for, at the end of the file or at the end of a block. */
  lemma FullRead(size: nat, off: nat, len: nat)
    requires off < size
    ensures var n := ReadLength(size, off, len, 0);
            n == len || off + n == size || (off + n) % BLOCK_SIZE == 0
  {
    var n := ReadLength(size, off, len, 0);
    if n == BLOCK_SIZE - off % BLOCK_SIZE {
      NextBlock(off);
    }
  }

  function ReadChunk(d: Disk, off: nat, len: nat, fault: nat): string
    requires META_BYTES + d.size <= |d.bytes|
  {
    if d.size <= off then [] else
      ReadLengthBound(d.size, off, len, fault);
      Content(d)[off..off + ReadLength(d.size, off, len, fault)]
  }

  /** Where a reader stands that takes whole blocks. */
  predicate AfterCalls(size: nat, calls: nat, off: nat) {
    (off == calls * BLOCK_SIZE <= size) || (off == size <= calls * BLOCK_SIZE < size + BLOCK_SIZE)
  }

  lemma WholeBlock(size: nat, len: nat, calls: nat, off: nat)
    requires len >= BLOCK_SIZE && AfterCalls(size, calls, off) && off < size
    ensures AfterCalls(size, calls + 1, off + ReadLength(size, off, len, 0))
  {
    assert off % BLOCK_SIZE == 0;
  }

  /** The mounted file system: the device, and the inode's size. */
  class LogDevice {
    const data: array<char>
    var size: nat

    ghost predicate Valid()
      reads this, data
    {
      WellFormed(Snapshot())
    }

    ghost function Snapshot(): Disk
      reads this, data
    {
      Disk(data[..], size)
    }

    /**
     The image made by dd and singlefilemakefs: a zeroed device of the given number of blocks,
     then a superblock, an inode block (opaque here) and the header line.
     */
    constructor Mkfs(blocks: nat, superblock: string, inodeBlock: string)
      requires blocks >= 3
      requires |superblock| == BLOCK_SIZE && |inodeBlock| == BLOCK_SIZE
      ensures fresh(data) && data.Length == blocks * BLOCK_SIZE
      ensures Valid()
      ensures data[..META_BYTES] == superblock + inodeBlock
      ensures Content(Snapshot()) == HEADER
    {
      var image := new char[blocks * BLOCK_SIZE](_ => NUL);
      data := image;
      size := 0;
      new;
      assert data[..] == Zeros(blocks * BLOCK_SIZE);
      var fd := 0;
      Store(fd, superblock);
      fd := fd + |superblock|;
      Store(fd, inodeBlock);
      fd := fd + |inodeBlock|;
      Store(fd, HEADER);
      size := |HEADER|;
      ImageBytes(blocks, superblock, inodeBlock, HEADER);
    }

    /** Bytes stored from a device position on: write(2) in mkfs, memcpy into a block buffer later. */
    method Store(at: nat, buf: string)
      requires at + |buf| <= data.Length
      modifies data
      ensures data[..] == Overlay(old(data[..]), at, buf)
    {
      forall k | 0 <= k < |buf| {
        data[at + k] := buf[k];
      }
    }

    /** memcpy into the buffer of a block: the file bytes from the offset that the block position stands for. */
    method CopyInto(ghost off: nat, block: nat, offset: nat, record: string)
      requires offset + |record| <= BLOCK_SIZE && Readable(data.Length, block)
      requires block == off / BLOCK_SIZE + META_BLOCKS && offset == off % BLOCK_SIZE
      modifies data
      ensures META_BYTES + off + |record| <= data.Length
      ensures data[..] == Overlay(old(data[..]), META_BYTES + off, record)
    {
      BlockOf(off);
      Store(block * BLOCK_SIZE + offset, record);
    }

    /** The part of onefilefs_write_async that picks the block, with both calls of sb_bread. */
    method FindBlock(fileSize: nat, toBeWritten: nat)
      returns (found: bool, offset: nat, blockOffset: nat, blockToWrite: nat)
      ensures found <==> HasRoom(fileSize, toBeWritten, data.Length / BLOCK_SIZE)
      ensures found ==>
                && offset == StartOf(fileSize, toBeWritten) && blockOffset == offset % BLOCK_SIZE
                && blockToWrite == offset / BLOCK_SIZE + META_BLOCKS && Readable(data.Length, blockToWrite)
    {
      RoomByBlock(fileSize, toBeWritten, data.Length / BLOCK_SIZE);
      offset := fileSize;
      blockOffset := offset % BLOCK_SIZE;
      blockToWrite := offset / BLOCK_SIZE + META_BLOCKS;
      var spareSpace := BLOCK_SIZE - blockOffset;
      found := false;
      if spareSpace <= toBeWritten {
        NextBlock(fileSize);
        if !Readable(data.Length, blockToWrite) {
          return;
        }
        offset := offset + spareSpace;
        blockOffset := 0;
        blockToWrite := blockToWrite + 1;
      }
      found := Readable(data.Length, blockToWrite);
    }

    /** onefilefs_write_async, without the lock: pos is the new f_pos. */
    method Append(record: string) returns (status: Status, pos: nat)
      requires Valid() && |record| <= BLOCK_SIZE
      modifies this`size, data
      ensures Valid()
      ensures Snapshot() == Appended(old(Snapshot()), record)
      ensures status == Done <==> HasRoom(old(size), |record|, data.Length / BLOCK_SIZE)
      ensures status == Done ==> pos == StartOf(old(size), |record|)
      ensures status == Eio ==> Snapshot() == old(Snapshot())
    {
      AppendedContent(Snapshot(), record);
      var fileSize := size;
      var toBeWritten := |record|;
      pos := 0;
      var found, offset, blockOffset, blockToWrite := FindBlock(fileSize, toBeWritten);
      if !found {
        return Eio, pos;
      }
      Placement(fileSize, toBeWritten);
      CopyInto(offset, blockToWrite, blockOffset, record);
      if offset + toBeWritten > fileSize {
        size := offset + toBeWritten;
      }
      pos := offset;
      status := Done;
    }

    /** copy_to_user from the buffer of a block: file bytes from the offset that the block position stands for. */
    method CopyFrom(ghost off: nat, block: nat, offset: nat, n: nat) returns (chunk: string)
      requires Valid() && off + n <= size && offset + n <= BLOCK_SIZE && Readable(data.Length, block)
      requires block == off / BLOCK_SIZE + META_BLOCKS && offset == off % BLOCK_SIZE
      ensures chunk == Content(Snapshot())[off..off + n]
    {
      BlockOf(off);
      ContentSlice(Snapshot(), off, off + n);
      var at := block * BLOCK_SIZE + offset;
      chunk := data[at..at + n];
    }

    /**
     onefilefs_read, without the lock: fault is how many bytes copy_to_user leaves uncopied.
     On a device in a valid state it never fails.
     */
    method Read(len: nat, off: nat, fault: nat) returns (status: Status, chunk: string, off': nat)
      requires Valid()
      ensures status == Done
      ensures chunk == ReadChunk(Snapshot(), off, len, fault)
      ensures off' == off + |chunk|
      ensures forall n: nat :: n < |chunk| <==> Delivers(size, off, len, fault, n)
      ensures off < size && fault == 0 ==> |chunk| == len || off' == size || off' % BLOCK_SIZE == 0
    {
      ReadLengthExact(size, off, len, fault);
      var fileSize := size;
      var count := len;
      if off >= fileSize {
        return Done, [], off;
      } else if off + count > fileSize {
        count := fileSize - off;
      }
      var offset := off % BLOCK_SIZE;
      if offset + count > BLOCK_SIZE {
        count := BLOCK_SIZE - offset;
      }
      var blockToRead := off / BLOCK_SIZE + META_BLOCKS;
      OnDevice(off, fileSize, data.Length);
      if !Readable(data.Length, blockToRead) {
        return Eio, [], off;
      }
      var ret := if fault < count then fault else count;
      assert count - ret == ReadLength(fileSize, off, len, fault);
      ReadLengthBound(fileSize, off, len, fault);
      FullRead(fileSize, off, len);
      chunk := CopyFrom(off, blockToRead, offset, count - ret);
      off' := off + (count - ret);
      status := Done;
    }

    /**
     A reader that calls read until it gives nothing, with any positive buffer sizes. With buffers
     of at least a block, each read but the last gives one whole block or the end of the file.
     */
    method ReadToEof(chunks: nat -> nat) returns (text: string, calls: nat)
      requires Valid()
      requires forall i: nat :: chunks(i) > 0
      ensures text == Content(Snapshot())
      ensures (forall i: nat :: chunks(i) >= BLOCK_SIZE) ==>
                size <= (calls - 1) * BLOCK_SIZE < size + BLOCK_SIZE
    {
      text := [];
      calls := 0;
      var off := 0;
      while true
        invariant off <= size
        invariant text == Content(Snapshot())[..off]
        invariant (forall i: nat :: chunks(i) >= BLOCK_SIZE) ==> AfterCalls(size, calls, off)
        decreases size - off
      {
        var status, chunk, next := Read(chunks(calls), off, 0);
        ReadLengthBound(size, off, chunks(calls), 0);
        if off < size && chunks(calls) >= BLOCK_SIZE && AfterCalls(size, calls, off) {
          WholeBlock(size, chunks(calls), calls, off);
        }
        calls := calls + 1;
        if chunk == [] {
          break;
        }
        text := text + chunk;
        off := next;
      }
    }
  }
}
