/**
 Installing the four system calls into the free entries and restoring the table
 (syscalls/syscalls.c:62-124).
 */
module SyscallTable {
  import opened SyscallSearch

  const HACKED_ENTRIES: nat := 4

  datatype Codes = Codes(setState: int, reconfAdd: int, reconfRm: int, flush: int)

  function CodeSeq(c: Codes): (s: seq<int>)
    ensures |s| == HACKED_ENTRIES
  {
    [c.setState, c.reconfAdd, c.reconfRm, c.flush]
  }

  /** The globals of syscalls.c together with the table they point at. */
  class Syscalls {
    const table: array?<Addr>          // the_syscall_table, null for 0x0
    const setState: Addr               // addresses of the four calls
    const reconfAdd: Addr
    const reconfRm: Addr
    const flush: Addr
    const handlers: seq<Addr>          // new_sys_call_array
    const restore: array<int>
    const niSyscall: Cell
    var codes: Codes
    ghost var original: seq<Addr>      // the table as the last successful init found it

    ghost predicate Valid() {
      && (table != null ==> table.Length >= SCANNED)
      && handlers == [setState, reconfAdd, reconfRm, flush] && restore.Length == HACKED_ENTRIES
    }

    constructor (table: array?<Addr>, setState: Addr, reconfAdd: Addr, reconfRm: Addr, flush: Addr)
      requires table != null ==> table.Length >= SCANNED
      ensures Valid() && this.table == table
      ensures this.setState == setState && this.reconfAdd == reconfAdd
      ensures this.reconfRm == reconfRm && this.flush == flush
      ensures fresh(restore) && fresh(niSyscall)
    {
      this.table := table;
      this.setState, this.reconfAdd, this.reconfRm, this.flush := setState, reconfAdd, reconfRm, flush;
      handlers := [setState, reconfAdd, reconfRm, flush];
      restore := new int[HACKED_ENTRIES](_ => -1);
      niSyscall := new Cell(0);
      codes := Codes(0, 0, 0, 0);
      original := [];
    }

    /** Index m is one of the first k acquired entries. */
    ghost predicate Taken(m: int, k: int)
      reads restore
      requires k <= restore.Length
    {
      exists i :: 0 <= i < k && restore[i] == m
    }

    /** The acquired entries are four distinct ones, which all held the free-entry address. */
    ghost predicate Acquired()
      reads this, restore, niSyscall
      requires Valid()
    {
      && |original| >= SCANNED
      && (forall i, j :: 0 <= i < j < HACKED_ENTRIES ==> restore[i] < restore[j])
      && (forall i :: 0 <= i < HACKED_ENTRIES ==> 0 <= restore[i] < SCANNED && original[restore[i]] == niSyscall.value)
    }

    /** The state that a successful init leaves: four handlers in, everything else as found. */
    ghost predicate Installed()
      reads this, restore, niSyscall, table
    {
      && Valid() && table != null && |original| == table.Length && Acquired()
      && (forall i :: 0 <= i < HACKED_ENTRIES ==> table[restore[i]] == handlers[i])
      && (forall m :: 0 <= m < table.Length && !Taken(m, HACKED_ENTRIES) ==> table[m] == original[m])
      && CodeSeq(codes) == restore[..]
    }

    /** The call of get_entries, with the table in a local variable. */
    method Acquire(entries: array<Addr>) returns (ok: bool)
      requires Valid() && entries.Length >= SCANNED
      modifies this`original, restore, niSyscall
      ensures ok <==> Acquirable(entries[..], HACKED_ENTRIES)
      ensures ok ==> Acquired() && original == entries[..]
      ensures !ok ==>
                && original == old(original) && restore[..] == old(restore[..])
                && niSyscall.value == old(niSyscall.value)
    {
      var ret := GetEntries(restore, HACKED_ENTRIES, entries, niSyscall);
      ok := ret == HACKED_ENTRIES;
      if ok {
        original := entries[..];
        assert restore[..ret] == restore[..];
        EstablishAcquired();
      }
    }

    method InitSyscalls() returns (ret: int)
      requires Valid()
      modifies this, restore, niSyscall, table
      ensures ret == if table != null && Acquirable(old(table[..]), HACKED_ENTRIES) then 0 else -1
      ensures ret == 0 ==> Installed() && original == old(table[..])
      ensures ret != 0 ==> unchanged(this) && restore[..] == old(restore[..]) && niSyscall.value == old(niSyscall.value)
      ensures ret != 0 && table != null ==> table[..] == old(table[..])
    {
      if table == null {
        return -1;
      }
      var acquired := Acquire(table);
      if !acquired {
        return -1;
      }
      Install();
      codes := Codes(restore[0], restore[1], restore[2], restore[3]);
      return 0;
    }

    /** The loop that writes the handlers over the acquired entries. */
    method Install()
      requires Valid() && table != null && Acquired() && table[..] == original
      modifies table
      ensures forall i :: 0 <= i < HACKED_ENTRIES ==> table[restore[i]] == handlers[i]
      ensures forall m :: 0 <= m < table.Length && !Taken(m, HACKED_ENTRIES) ==> table[m] == original[m]
    {
      for i := 0 to HACKED_ENTRIES
        invariant forall k :: 0 <= k < i ==> table[restore[k]] == handlers[k]
        invariant forall m :: 0 <= m < table.Length && !Taken(m, i) ==> table[m] == original[m]
      {
        assert forall m :: Taken(m, i) ==> Taken(m, i + 1);
        table[restore[i]] := handlers[i];
        assert Taken(restore[i], i + 1);
      }
    }

    lemma EstablishAcquired()
      requires Valid() && |original| >= SCANNED
      requires FirstOccurrences(original, niSyscall.value, restore[..])
      ensures Acquired()
    {
      PositionsExact(original, niSyscall.value, SCANNED);
      var ps := Positions(original, niSyscall.value, SCANNED);
      assert forall i :: 0 <= i < HACKED_ENTRIES ==> restore[i] == restore[..][i] == ps[i];
    }

    /** Undoes the last successful init: the table is exactly what it was before. */
    method FlushSyscalls()
      requires Installed()
      modifies table
      ensures table[..] == original
    {
      for i := 0 to HACKED_ENTRIES
        invariant forall k :: 0 <= k < i ==> table[restore[k]] == original[restore[k]]
        invariant forall m :: 0 <= m < table.Length && !Taken(m, HACKED_ENTRIES) ==> table[m] == original[m]
      {
        assert Taken(restore[i], HACKED_ENTRIES);
        table[restore[i]] := niSyscall.value;
      }
      forall m | 0 <= m < table.Length
        ensures table[m] == original[m]
      {
        if Taken(m, HACKED_ENTRIES) {
          var k :| 0 <= k < HACKED_ENTRIES && restore[k] == m;
        }
      }
    }

    /** Installing and then restoring leaves the whole table as it was; so does an install that fails. */
    method InitThenFlush() returns (ret: int)
      requires Valid() && table != null
      modifies this, restore, niSyscall, table
      ensures table[..] == old(table[..])
      ensures ret == 0 <==> Acquirable(old(table[..]), HACKED_ENTRIES)
    {
      ret := InitSyscalls();
      if ret == 0 {
        FlushSyscalls();
      }
    }
  }
}
