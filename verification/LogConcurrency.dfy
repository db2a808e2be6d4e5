/**
 Writers and readers of the log file running concurrently (io/refmonfs/file.c:21-141).

 Every system call is a thread that executes one statement per step, in any interleaving
 chosen by a schedule. refmonfs_mutex is part of the state: mutex_lock waits until it is
 free. memcpy copies one byte per step.
 */
module LogConcurrency {
  import opened LogFile
  import opened Wrappers

  datatype Op =
    | Write(record: string)
    | Read(off: nat, len: nat, fault: nat)

  datatype Result = Wrote(status: Status) | Got(status: Status, chunk: string)

  /** Where a thread stands, with the local variables that are live there. */
  datatype Pc =
    | Entry                                                  // at mutex_lock
    | Locked                                                 // about to read i_size
    | Sized(size: nat)                                       // about to compare with the size
    | Probing(size: nat)                                     // writer: sb_bread of the block that is too full
    | Fetching(size: nat, offset: nat)                       // writer: sb_bread of the target block
    | Copying(size: nat, offset: nat, copied: nat)           // writer: inside memcpy
    | Resizing(size: nat, offset: nat)                       // writer: at i_size_write
    | Clipped(count: nat)                                    // reader: sb_bread
    | Loaded(count: nat)                                     // reader: copy_to_user
    | Leaving(result: Result)                                // at mutex_unlock
    | Returned(result: Result)

  datatype Thread = Thread(op: Op, pc: Pc)

  datatype System = System(disk: Disk, lock: Option<nat>, threads: seq<Thread>)

  predicate Inside(pc: Pc) {
    !pc.Entry? && !pc.Leaving? && !pc.Returned?
  }

  predicate Outside(pc: Pc) {
    pc.Entry? || pc.Returned?
  }

  // Raw accesses to the buffer. Invariant Partial shows that both are always in range.

  function Poke(s: string, at: nat, c: char): string {
    if at < |s| then s[at := c] else s
  }

  function Peek(s: string, at: nat, n: nat): string {
    if at + n <= |s| then s[at..at + n] else []
  }

  /** One statement of a thread that holds the lock and has not yet reached mutex_unlock. */
  function Advance(d: Disk, op: Op, pc: Pc): (Disk, Pc)
    requires Inside(pc)
  {
    match op
    case Write(record) => AdvanceWriter(d, record, pc)
    case Read(off, len, fault) => (d, AdvanceReader(d, off, len, fault, pc))
  }

  function AdvanceWriter(d: Disk, record: string, pc: Pc): (Disk, Pc) {
    match pc
    case Locked => (d, Sized(d.size))
    case Sized(size) =>
      (d, if SpareSpace(size) <= |record| then Probing(size) else Fetching(size, size))
    case Probing(size) =>
      (d, if Readable(|d.bytes|, size / BLOCK_SIZE + META_BLOCKS) then Fetching(size, size + SpareSpace(size))
          else Leaving(Wrote(Eio)))
    case Fetching(size, offset) =>
      (d, if Readable(|d.bytes|, offset / BLOCK_SIZE + META_BLOCKS) then Copying(size, offset, 0)
          else Leaving(Wrote(Eio)))
    case Copying(size, offset, copied) =>
      if copied < |record| then
        (d.(bytes := Poke(d.bytes, META_BYTES + offset + copied, record[copied])),
         Copying(size, offset, copied + 1))
      else (d, Resizing(size, offset))
    case Resizing(size, offset) =>
      (if offset + |record| > size then d.(size := offset + |record|) else d, Leaving(Wrote(Done)))
    case _ => (d, pc)
  }

  function AdvanceReader(d: Disk, off: nat, len: nat, fault: nat, pc: Pc): Pc {
    match pc
    case Locked => Sized(d.size)
    case Sized(size) =>
      if off >= size then Leaving(Got(Done, [])) else
        var toEof := if off + len > size then size - off else len;
        Clipped(if off % BLOCK_SIZE + toEof > BLOCK_SIZE then BLOCK_SIZE - off % BLOCK_SIZE else toEof)
    case Clipped(count) =>
      if Readable(|d.bytes|, off / BLOCK_SIZE + META_BLOCKS) then Loaded(count) else Leaving(Got(Eio, []))
    case Loaded(count) =>
      var left := if fault < count then fault else count;
      Leaving(Got(Done, Peek(d.bytes, META_BYTES + off, count - left)))
    case _ => pc
  }

  /** A step of thread t is possible. */
  predicate Enabled(s: System, t: nat) {
    && t < |s.threads|
    && !s.threads[t].pc.Returned?
    && (s.threads[t].pc.Entry? ==> s.lock == None)
  }

  function Step(s: System, t: nat): System
    requires Enabled(s, t)
  {
    var th := s.threads[t];
    if th.pc.Entry? then
      s.(lock := Some(t), threads := s.threads[t := th.(pc := Locked)])
    else if th.pc.Leaving? then
      s.(lock := None, threads := s.threads[t := th.(pc := Returned(th.pc.result))])
    else
      var (d, pc) := Advance(s.disk, th.op, th.pc);
      s.(disk := d, threads := s.threads[t := th.(pc := pc)])
  }

  // ----- sequential meaning

  ghost predicate Sane(op: Op) {
    op.Write? ==> |op.record| <= BLOCK_SIZE
  }

  /** What the call does when nothing else runs. */
  ghost function Alone(d: Disk, op: Op): (Disk, Result)
    requires WellFormed(d) && Sane(op)
  {
    match op
    case Write(record) =>
      (Appended(d, record), Wrote(if HasRoom(d.size, |record|, Blocks(d)) then Done else Eio))
    case Read(off, len, fault) => (d, Got(Done, ReadChunk(d, off, len, fault)))
  }

  lemma AloneKeeps(d: Disk, op: Op)
    requires WellFormed(d) && Sane(op)
    ensures WellFormed(Alone(d, op).0)
  {
    if op.Write? {
      AppendedContent(d, op.record);
    }
  }

  /** cur is base with the part of op that has been executed when it stands at pc. */
  ghost predicate Partial(base: Disk, cur: Disk, op: Op, pc: Pc) {
    match op
    case Write(record) => PartialWrite(base, cur, record, pc)
    case Read(off, len, fault) => cur == base && PartialRead(base, off, len, pc)
  }

  ghost predicate PartialWrite(base: Disk, cur: Disk, record: string, pc: Pc) {
    var n := |record|;
    match pc
    case Locked => cur == base
    case Sized(size) => cur == base && size == base.size
    case Probing(size) => cur == base && size == base.size && SpareSpace(size) <= n
    case Fetching(size, offset) => cur == base && size == base.size && offset == StartOf(size, n)
    case Copying(size, offset, copied) =>
      && size == base.size && offset == StartOf(size, n) && HasRoom(size, n, Blocks(base))
      && META_BYTES + offset + n <= |base.bytes| && copied <= n
      && cur == Disk(Overlay(base.bytes, META_BYTES + offset, record[..copied]), size)
    case Resizing(size, offset) =>
      && size == base.size && offset == StartOf(size, n) && HasRoom(size, n, Blocks(base))
      && META_BYTES + offset + n <= |base.bytes|
      && cur == Disk(Overlay(base.bytes, META_BYTES + offset, record), size)
    case _ => false
  }

  ghost predicate PartialRead(base: Disk, off: nat, len: nat, pc: Pc) {
    match pc
    case Locked => true
    case Sized(size) => size == base.size
    case Clipped(count) => off < base.size && count == ReadLength(base.size, off, len, 0)
    case Loaded(count) => off < base.size && count == ReadLength(base.size, off, len, 0)
    case _ => false
  }

  lemma OverlayNext(s: string, at: nat, r: string, k: nat)
    requires k < |r| && at + |r| <= |s|
    ensures Poke(Overlay(s, at, r[..k]), at + k, r[k]) == Overlay(s, at, r[..k + 1])
  {
  }

  ghost predicate WriterStep(base: Disk, record: string, next: (Disk, Pc))
    requires WellFormed(base) && |record| <= BLOCK_SIZE
  {
    if next.1.Leaving? then (next.0, next.1.result) == Alone(base, Write(record))
    else PartialWrite(base, next.0, record, next.1)
  }

  lemma WriterPlaces(base: Disk, record: string, pc: Pc)
    requires WellFormed(base) && |record| <= BLOCK_SIZE
    requires PartialWrite(base, base, record, pc) && (pc.Locked? || pc.Sized? || pc.Probing?)
    ensures WriterStep(base, record, AdvanceWriter(base, record, pc))
  {
    if pc.Probing? && !Readable(|base.bytes|, pc.size / BLOCK_SIZE + META_BLOCKS) {
      assert StartOf(pc.size, |record|) == pc.size + SpareSpace(pc.size);
      assert !HasRoom(base.size, |record|, Blocks(base));
    }
  }

  lemma WriterFetches(base: Disk, record: string, pc: Pc)
    requires WellFormed(base) && |record| <= BLOCK_SIZE
    requires PartialWrite(base, base, record, pc) && pc.Fetching?
    ensures WriterStep(base, record, AdvanceWriter(base, record, pc))
  {
    if Readable(|base.bytes|, pc.offset / BLOCK_SIZE + META_BLOCKS) {
      RoomInside(base, |record|);
      assert Overlay(base.bytes, META_BYTES + pc.offset, record[..0]) == base.bytes;
    }
  }

  lemma WriterCopies(base: Disk, cur: Disk, record: string, pc: Pc)
    requires WellFormed(base) && |record| <= BLOCK_SIZE
    requires PartialWrite(base, cur, record, pc) && pc.Copying?
    ensures WriterStep(base, record, AdvanceWriter(cur, record, pc))
  {
    if pc.copied < |record| {
      OverlayNext(base.bytes, META_BYTES + pc.offset, record, pc.copied);
    } else {
      assert record[..pc.copied] == record;
    }
  }

  lemma WriterResizes(base: Disk, cur: Disk, record: string, pc: Pc)
    requires WellFormed(base) && |record| <= BLOCK_SIZE
    requires PartialWrite(base, cur, record, pc) && pc.Resizing?
    ensures WriterStep(base, record, AdvanceWriter(cur, record, pc))
  {
    Placement(pc.size, |record|);
  }

  /** One step of a writer is a step of its sequential meaning. */
  lemma WriterAdvances(base: Disk, cur: Disk, record: string, pc: Pc)
    requires WellFormed(base) && |record| <= BLOCK_SIZE
    requires PartialWrite(base, cur, record, pc)
    ensures WriterStep(base, record, AdvanceWriter(cur, record, pc))
  {
    match pc
    case Copying(_, _, _) => WriterCopies(base, cur, record, pc);
    case Resizing(_, _) => WriterResizes(base, cur, record, pc);
    case Fetching(_, _) => WriterFetches(base, record, pc);
    case _ => WriterPlaces(base, record, pc);
  }

  /** One step of a reader is a step of its sequential meaning. */
  lemma ReaderAdvances(base: Disk, off: nat, len: nat, fault: nat, pc: Pc)
    requires WellFormed(base)
    requires PartialRead(base, off, len, pc)
    ensures var pc' := AdvanceReader(base, off, len, fault, pc);
            if pc'.Leaving? then (base, pc'.result) == Alone(base, Read(off, len, fault))
            else PartialRead(base, off, len, pc')
  {
    if pc.Loaded? {
      ReadLengthBound(base.size, off, len, 0);
      ReadLengthBound(base.size, off, len, fault);
      var n := ReadLength(base.size, off, len, fault);
      assert n == pc.count - (if fault < pc.count then fault else pc.count);
      assert base.bytes[META_BYTES + off..META_BYTES + off + n] == Content(base)[off..off + n];
    } else if pc.Clipped? {
      assert Readable(|base.bytes|, off / BLOCK_SIZE + META_BLOCKS);
    }
  }

  lemma Advances(base: Disk, cur: Disk, op: Op, pc: Pc)
    requires WellFormed(base) && Sane(op) && Inside(pc) && Partial(base, cur, op, pc)
    ensures var (cur', pc') := Advance(cur, op, pc);
            && !Outside(pc')
            && (pc'.Leaving? ==> (cur', pc'.result) == Alone(base, op))
            && (Inside(pc') ==> Partial(base, cur', op, pc'))
  {
    match op
    case Write(record) => WriterAdvances(base, cur, record, pc);
    case Read(off, len, fault) => ReaderAdvances(base, off, len, fault, pc);
  }

  // ----- whole runs

  /** A run: the state reached, and the thread ids in the order of their mutex_lock and of their effects. */
  datatype Trace = Trace(sys: System, locks: seq<nat>, effects: seq<nat>)

  function Initial(d: Disk, ops: seq<Op>): System {
    System(d, None, seq(|ops|, i requires 0 <= i < |ops| => Thread(ops[i], Entry)))
  }

  function Next(tr: Trace, t: nat): Trace {
    if !Enabled(tr.sys, t) then tr else
      var s' := Step(tr.sys, t);
      var before, after := tr.sys.threads[t].pc, s'.threads[t].pc;
      Trace(s',
            if before.Entry? then tr.locks + [t] else tr.locks,
            if after.Leaving? then tr.effects + [t] else tr.effects)
  }

  /** Any schedule: a thread that cannot move when it is chosen stays where it is. */
  function Execute(d: Disk, ops: seq<Op>, schedule: seq<nat>): Trace {
    if schedule == [] then Trace(Initial(d, ops), [], [])
    else Next(Execute(d, ops, schedule[..|schedule| - 1]), schedule[|schedule| - 1])
  }

  ghost predicate AllSane(ops: seq<Op>) {
    forall i :: 0 <= i < |ops| ==> Sane(ops[i])
  }

  ghost predicate Ids(ops: seq<Op>, order: seq<nat>) {
    forall i :: 0 <= i < |order| ==> order[i] < |ops|
  }

  /** The disk after the given calls run one after the other. */
  ghost function Serial(d: Disk, ops: seq<Op>, order: seq<nat>): (r: Disk)
    requires WellFormed(d) && AllSane(ops) && Ids(ops, order)
    ensures WellFormed(r)
  {
    if order == [] then d else
      var last := |order| - 1;
      var before := Serial(d, ops, order[..last]);
      AloneKeeps(before, ops[order[last]]);
      Alone(before, ops[order[last]]).0
  }

  /** The result that the i-th call of the serial order gets. */
  ghost function SerialResult(d: Disk, ops: seq<Op>, order: seq<nat>, i: nat): Result
    requires WellFormed(d) && AllSane(ops) && Ids(ops, order) && i < |order|
  {
    Alone(Serial(d, ops, order[..i]), ops[order[i]]).1
  }

  lemma SerialSnoc(d: Disk, ops: seq<Op>, order: seq<nat>, t: nat)
    requires WellFormed(d) && AllSane(ops) && Ids(ops, order) && t < |ops|
    ensures Ids(ops, order + [t])
    ensures Serial(d, ops, order + [t]) == Alone(Serial(d, ops, order), ops[t]).0
    ensures SerialResult(d, ops, order + [t], |order|) == Alone(Serial(d, ops, order), ops[t]).1
    ensures forall i :: 0 <= i < |order| ==> SerialResult(d, ops, order + [t], i) == SerialResult(d, ops, order, i)
  {
    assert (order + [t])[..|order|] == order;
    forall i | 0 <= i < |order|
      ensures SerialResult(d, ops, order + [t], i) == SerialResult(d, ops, order, i)
    {
      assert (order + [t])[..i] == order[..i];
    }
  }

  ghost predicate Distinct(order: seq<nat>) {
    forall i, j :: 0 <= i < j < |order| ==> order[i] != order[j]
  }

  predicate Finished(pc: Pc) {
    pc.Leaving? || pc.Returned?
  }

  ghost predicate SameOps(ops: seq<Op>, s: System) {
    |s.threads| == |ops| && forall t :: 0 <= t < |ops| ==> s.threads[t].op == ops[t]
  }

  /** Only the holder of the lock is between mutex_lock and mutex_unlock. */
  ghost predicate Exclusive(s: System) {
    && (forall t :: 0 <= t < |s.threads| && s.lock != Some(t) ==> Outside(s.threads[t].pc))
    && (s.lock.Some? ==> s.lock.value < |s.threads| && !Outside(s.threads[s.lock.value].pc))
  }

  /** A finished call has taken effect, and no call takes effect twice. */
  ghost predicate EffectsMatch(s: System, effects: seq<nat>) {
    && Distinct(effects)
    && (forall t :: 0 <= t < |s.threads| && Finished(s.threads[t].pc) ==> t in effects)
  }

  /** Every finished call has the result it gets in the serial run of the effects. */
  ghost predicate ResultsMatch(d: Disk, ops: seq<Op>, s: System, effects: seq<nat>)
    requires WellFormed(d) && AllSane(ops) && Ids(ops, effects)
  {
    forall i :: 0 <= i < |effects| ==>
      && effects[i] < |s.threads| && Finished(s.threads[effects[i]].pc)
      && s.threads[effects[i]].pc.result == SerialResult(d, ops, effects, i)
  }

  /** Device and size are those of the serial run, plus at most the partial step of the holder. */
  ghost predicate DiskMatches(d: Disk, ops: seq<Op>, s: System, effects: seq<nat>)
    requires WellFormed(d) && AllSane(ops) && Ids(ops, effects)
  {
    var base := Serial(d, ops, effects);
    if s.lock.Some? && s.lock.value < |s.threads| && Inside(s.threads[s.lock.value].pc)
    then Partial(base, s.disk, s.threads[s.lock.value].op, s.threads[s.lock.value].pc)
    else s.disk == base
  }

  /** Calls take effect in the order in which they got the lock. */
  ghost predicate LockOrder(tr: Trace) {
    var s := tr.sys;
    tr.locks == if s.lock.Some? && s.lock.value < |s.threads| && Inside(s.threads[s.lock.value].pc)
                then tr.effects + [s.lock.value] else tr.effects
  }

  ghost predicate Linearized(d: Disk, ops: seq<Op>, tr: Trace)
    requires WellFormed(d) && AllSane(ops)
  {
    && SameOps(ops, tr.sys) && Exclusive(tr.sys) && EffectsMatch(tr.sys, tr.effects)
    && Ids(ops, tr.effects)
    && ResultsMatch(d, ops, tr.sys, tr.effects)
    && DiskMatches(d, ops, tr.sys, tr.effects)
    && LockOrder(tr)
  }

  /** Moving thread t between two unfinished or two finished places keeps what is known of the effects. */
  lemma OthersKeep(d: Disk, ops: seq<Op>, s: System, s': System, t: nat, effects: seq<nat>)
    requires WellFormed(d) && AllSane(ops) && Ids(ops, effects)
    requires SameOps(ops, s) && EffectsMatch(s, effects) && ResultsMatch(d, ops, s, effects)
    requires t < |ops| && |s'.threads| == |s.threads| && s'.threads[t].op == ops[t]
    requires forall u :: 0 <= u < |s.threads| && u != t ==> s'.threads[u] == s.threads[u]
    requires Finished(s.threads[t].pc) <==> Finished(s'.threads[t].pc)
    requires Finished(s.threads[t].pc) ==> s'.threads[t].pc.result == s.threads[t].pc.result
    ensures SameOps(ops, s') && EffectsMatch(s', effects) && ResultsMatch(d, ops, s', effects)
  {
  }

  lemma AcquireKeeps(d: Disk, ops: seq<Op>, tr: Trace, t: nat)
    requires WellFormed(d) && AllSane(ops) && Linearized(d, ops, tr)
    requires Enabled(tr.sys, t) && tr.sys.threads[t].pc.Entry?
    ensures Linearized(d, ops, Next(tr, t))
  {
    var s := tr.sys;
    var s' := System(s.disk, Some(t), s.threads[t := Thread(ops[t], Locked)]);
    OthersKeep(d, ops, s, s', t, tr.effects);
    assert Exclusive(s');
    assert s.disk == Serial(d, ops, tr.effects);
    assert DiskMatches(d, ops, s', tr.effects);
    assert Next(tr, t) == Trace(s', tr.locks + [t], tr.effects);
  }

  lemma ReleaseKeeps(d: Disk, ops: seq<Op>, tr: Trace, t: nat)
    requires WellFormed(d) && AllSane(ops) && Linearized(d, ops, tr)
    requires Enabled(tr.sys, t) && tr.sys.threads[t].pc.Leaving?
    ensures Linearized(d, ops, Next(tr, t))
    ensures Next(tr, t).sys.lock == None
  {
    var s, s' := tr.sys, Next(tr, t).sys;
    assert s.lock == Some(t);
    OthersKeep(d, ops, s, s', t, tr.effects);
  }

  /** Thread t takes effect. */
  lemma EffectKeeps(s: System, s': System, t: nat, effects: seq<nat>)
    requires EffectsMatch(s, effects) && forall i :: 0 <= i < |effects| ==> effects[i] != t
    requires t < |s.threads| == |s'.threads|
    requires forall u :: 0 <= u < |s.threads| && u != t ==> s'.threads[u] == s.threads[u]
    ensures EffectsMatch(s', effects + [t])
  {
    var effects' := effects + [t];
    forall u | 0 <= u < |s'.threads| && Finished(s'.threads[u].pc)
      ensures u in effects'
    {
      if u == t {
        assert effects'[|effects|] == t;
      } else {
        assert u in effects;
      }
    }
  }

  lemma EffectResults(d: Disk, ops: seq<Op>, s: System, s': System, t: nat, effects: seq<nat>)
    requires WellFormed(d) && AllSane(ops) && Ids(ops, effects) && ResultsMatch(d, ops, s, effects)
    requires t < |ops| == |s.threads| == |s'.threads|
    requires forall i :: 0 <= i < |effects| ==> s'.threads[effects[i]] == s.threads[effects[i]]
    requires Finished(s'.threads[t].pc) && s'.threads[t].pc.result == Alone(Serial(d, ops, effects), ops[t]).1
    ensures Ids(ops, effects + [t]) && ResultsMatch(d, ops, s', effects + [t])
    ensures Serial(d, ops, effects + [t]) == Alone(Serial(d, ops, effects), ops[t]).0
  {
    SerialSnoc(d, ops, effects, t);
    var effects' := effects + [t];
    forall i | 0 <= i < |effects'|
      ensures && effects'[i] < |s'.threads| && Finished(s'.threads[effects'[i]].pc)
              && s'.threads[effects'[i]].pc.result == SerialResult(d, ops, effects', i)
    {
      assert effects'[i] == if i < |effects| then effects[i] else t;
    }
  }

  lemma Uncommitted(d: Disk, ops: seq<Op>, s: System, effects: seq<nat>, t: nat)
    requires WellFormed(d) && AllSane(ops) && Ids(ops, effects) && ResultsMatch(d, ops, s, effects)
    requires t < |s.threads| && !Finished(s.threads[t].pc)
    ensures forall i :: 0 <= i < |effects| ==> effects[i] != t
  {
  }

  /** The one step by which a call takes effect. */
  lemma CommitKeeps(d: Disk, ops: seq<Op>, s: System, effects: seq<nat>, t: nat, cur: Disk, r: Result)
    requires WellFormed(d) && AllSane(ops) && Ids(ops, effects)
    requires SameOps(ops, s) && Exclusive(s) && EffectsMatch(s, effects) && ResultsMatch(d, ops, s, effects)
    requires t < |ops| && s.lock == Some(t) && Inside(s.threads[t].pc)
    requires cur == Alone(Serial(d, ops, effects), ops[t]).0
    requires r == Alone(Serial(d, ops, effects), ops[t]).1
    ensures var s' := System(cur, Some(t), s.threads[t := Thread(ops[t], Leaving(r))]);
            && SameOps(ops, s') && Exclusive(s') && Ids(ops, effects + [t]) && EffectsMatch(s', effects + [t])
            && ResultsMatch(d, ops, s', effects + [t]) && cur == Serial(d, ops, effects + [t])
  {
    var s' := System(cur, Some(t), s.threads[t := Thread(ops[t], Leaving(r))]);
    assert s'.threads[t] == Thread(ops[t], Leaving(r));
    assert SameOps(ops, s') && Exclusive(s');
    Uncommitted(d, ops, s, effects, t);
    EffectKeeps(s, s', t, effects);
    EffectResults(d, ops, s, s', t, effects);
  }

  lemma InnerKeeps(d: Disk, ops: seq<Op>, tr: Trace, t: nat, cur: Disk, pc: Pc)
    requires WellFormed(d) && AllSane(ops) && Linearized(d, ops, tr)
    requires t < |ops| && tr.sys.lock == Some(t) && Inside(tr.sys.threads[t].pc)
    requires Inside(pc) && Partial(Serial(d, ops, tr.effects), cur, ops[t], pc)
    ensures var threads := tr.sys.threads[t := Thread(ops[t], pc)];
            Linearized(d, ops, Trace(System(cur, Some(t), threads), tr.locks, tr.effects))
  {
    var s := tr.sys;
    var s' := System(cur, Some(t), s.threads[t := Thread(ops[t], pc)]);
    OthersKeep(d, ops, s, s', t, tr.effects);
  }

  lemma AdvanceKeeps(d: Disk, ops: seq<Op>, tr: Trace, t: nat)
    requires WellFormed(d) && AllSane(ops) && Linearized(d, ops, tr)
    requires Enabled(tr.sys, t) && Inside(tr.sys.threads[t].pc)
    ensures Linearized(d, ops, Next(tr, t))
  {
    var s := tr.sys;
    var (cur, pc) := Advance(s.disk, ops[t], s.threads[t].pc);
    Advances(Serial(d, ops, tr.effects), s.disk, ops[t], s.threads[t].pc);
    if pc.Leaving? {
      CommitKeeps(d, ops, s, tr.effects, t, cur, pc.result);
    } else {
      InnerKeeps(d, ops, tr, t, cur, pc);
    }
  }

  /**
   Linearizability, for any number of calls and any schedule: disk and results are always
   those of a serial run of the completed calls in lock order, plus at most the lock holder's
   partial step; a call that has returned does not hold the lock.
   */
  lemma {:induction false} EveryRunIsLinearized(d: Disk, ops: seq<Op>, schedule: seq<nat>)
    requires WellFormed(d) && AllSane(ops)
    ensures Linearized(d, ops, Execute(d, ops, schedule))
  {
    if schedule == [] {
      assert Serial(d, ops, []) == d;
    } else {
      var last := |schedule| - 1;
      var tr, t := Execute(d, ops, schedule[..last]), schedule[last];
      EveryRunIsLinearized(d, ops, schedule[..last]);
      if Enabled(tr.sys, t) {
        match tr.sys.threads[t].pc
        case Entry => AcquireKeeps(d, ops, tr, t);
        case Leaving(_) => ReleaseKeeps(d, ops, tr, t);
        case _ => AdvanceKeeps(d, ops, tr, t);
      }
    }
  }

  // ----- progress

  /** If some call has not returned then some call can move. */
  lemma NoDeadlock(d: Disk, ops: seq<Op>, tr: Trace, t: nat)
    requires WellFormed(d) && AllSane(ops) && Linearized(d, ops, tr)
    requires t < |ops| && !tr.sys.threads[t].pc.Returned?
    ensures Enabled(tr.sys, t) || (tr.sys.lock.Some? && Enabled(tr.sys, tr.sys.lock.value))
  {
  }

  /** Bound on the statements that a call still executes. */
  function Remaining(op: Op, pc: Pc): nat {
    var n := if op.Write? then |op.record| else 0;
    match pc
    case Entry => n + 9
    case Locked => n + 8
    case Sized(_) => n + 7
    case Probing(_) => n + 6
    case Fetching(_, _) => n + 5
    case Copying(_, _, copied) => if copied < n then n - copied + 4 else 4
    case Resizing(_, _) => 3
    case Clipped(_) => 4
    case Loaded(_) => 3
    case Leaving(_) => 1
    case Returned(_) => 0
  }

  function TotalRemaining(threads: seq<Thread>): nat {
    if threads == [] then 0
    else Remaining(threads[0].op, threads[0].pc) + TotalRemaining(threads[1..])
  }

  lemma {:induction false} TotalDecreases(threads: seq<Thread>, t: nat, th: Thread)
    requires t < |threads| && Remaining(th.op, th.pc) < Remaining(threads[t].op, threads[t].pc)
    ensures TotalRemaining(threads[t := th]) < TotalRemaining(threads)
  {
    if t == 0 {
      assert threads[t := th][1..] == threads[1..];
    } else {
      assert threads[t := th][1..] == threads[1..][t - 1 := th];
      TotalDecreases(threads[1..], t - 1, th);
    }
  }

  ghost predicate FitsOp(op: Op, pc: Pc) {
    && (pc.Probing? || pc.Fetching? || pc.Copying? || pc.Resizing? ==> op.Write?)
    && (pc.Clipped? || pc.Loaded? ==> op.Read?)
  }

  lemma StepDecreases(s: System, t: nat)
    requires Enabled(s, t) && FitsOp(s.threads[t].op, s.threads[t].pc)
    ensures TotalRemaining(Step(s, t).threads) < TotalRemaining(s.threads)
  {
    var th := s.threads[t];
    if Inside(th.pc) {
      var (d, pc) := Advance(s.disk, th.op, th.pc);
      TotalDecreases(s.threads, t, th.(pc := pc));
    } else {
      TotalDecreases(s.threads, t, Step(s, t).threads[t]);
    }
  }

  lemma PartialFits(base: Disk, cur: Disk, op: Op, pc: Pc)
    requires Partial(base, cur, op, pc)
    ensures FitsOp(op, pc)
  {
  }

  lemma LinearizedFits(d: Disk, ops: seq<Op>, tr: Trace, t: nat)
    requires WellFormed(d) && AllSane(ops) && Linearized(d, ops, tr) && t < |ops|
    ensures FitsOp(tr.sys.threads[t].op, tr.sys.threads[t].pc)
  {
    var th := tr.sys.threads[t];
    if Inside(th.pc) {
      PartialFits(Serial(d, ops, tr.effects), tr.sys.disk, th.op, th.pc);
    }
  }

  ghost predicate AlwaysEnabled(d: Disk, ops: seq<Op>, schedule: seq<nat>) {
    forall k :: 0 <= k < |schedule| ==> Enabled(Execute(d, ops, schedule[..k]).sys, schedule[k])
  }

  /** A schedule of possible steps is no longer than the calls have statements: every run ends. */
  lemma {:induction false} RunsEnd(d: Disk, ops: seq<Op>, schedule: seq<nat>)
    requires WellFormed(d) && AllSane(ops) && AlwaysEnabled(d, ops, schedule)
    ensures |schedule| + TotalRemaining(Execute(d, ops, schedule).sys.threads)
         <= TotalRemaining(Initial(d, ops).threads)
  {
    if schedule != [] {
      var last := |schedule| - 1;
      var before := schedule[..last];
      assert forall k :: 0 <= k < last ==> before[..k] == schedule[..k];
      RunsEnd(d, ops, before);
      EveryRunIsLinearized(d, ops, before);
      var tr := Execute(d, ops, before);
      LinearizedFits(d, ops, tr, schedule[last]);
      StepDecreases(tr.sys, schedule[last]);
    }
  }

  /**
   A run that cannot continue is a serial execution of every call: each takes effect exactly
   once, in lock order, with its serial result, and the lock is free.
   */
  lemma FinalStateIsSerial(d: Disk, ops: seq<Op>, schedule: seq<nat>)
    requires WellFormed(d) && AllSane(ops)
    requires forall t: nat :: !Enabled(Execute(d, ops, schedule).sys, t)
    ensures var tr := Execute(d, ops, schedule);
            && tr.sys.lock == None && tr.locks == tr.effects
            && Ids(ops, tr.effects) && Distinct(tr.effects)
            && (forall t :: 0 <= t < |ops| ==> t in tr.effects)
            && tr.sys.disk == Serial(d, ops, tr.effects)
            && (forall i :: 0 <= i < |tr.effects| ==>
                  tr.effects[i] < |tr.sys.threads| &&
                  tr.sys.threads[tr.effects[i]].pc == Returned(SerialResult(d, ops, tr.effects, i)))
  {
    EveryRunIsLinearized(d, ops, schedule);
    var tr := Execute(d, ops, schedule);
    forall t | 0 <= t < |ops|
      ensures tr.sys.threads[t].pc.Returned?
    {
      if !tr.sys.threads[t].pc.Returned? {
        NoDeadlock(d, ops, tr, t);
      }
    }
  }
}
