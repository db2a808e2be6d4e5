/**
 Discovery of free system call table entries (lib/scth/scth.c, get_entries): the free entries
 all hold the address of sys_ni_syscall, so it is the first value that occurs twice.
 */
module SyscallSearch {

  const SCANNED: nat := 256
  const MAX_ACQUIRES: nat := 5

  /** unsigned long */
  newtype Addr = x: int | 0 <= x < 0x1_0000_0000_0000_0000

  /** An output parameter of pointer type. */
  class Cell {
    var value: Addr

    constructor (v: Addr)
      ensures value == v
    {
      value := v;
    }
  }

  // ----- what the search finds

  /** Entry i holds a value that a later entry holds too. */
  ghost predicate Repeats(t: seq<Addr>, i: int)
    requires |t| >= SCANNED
  {
    0 <= i < SCANNED && exists z :: i < z < SCANNED && t[z] == t[i]
  }

  /** i is the first entry whose value occurs again. */
  ghost predicate FirstRepeat(t: seq<Addr>, i: int)
    requires |t| >= SCANNED
  {
    Repeats(t, i) && forall a :: 0 <= a < i ==> !Repeats(t, a)
  }

  /** The indices in [0, hi) at which t holds v, in increasing order. */
  function Positions(t: seq<Addr>, v: Addr, hi: nat): (ps: seq<int>)
    requires hi <= |t|
    ensures |ps| <= hi
    ensures forall k :: 0 <= k < |ps| ==> 0 <= ps[k] < hi
  {
    if hi == 0 then []
    else if t[hi - 1] == v then Positions(t, v, hi - 1) + [hi - 1]
    else Positions(t, v, hi - 1)
  }

  /** ids are the first occurrences of v, and v is the first value that repeats. */
  ghost predicate FirstOccurrences(t: seq<Addr>, v: Addr, ids: seq<int>)
    requires |t| >= SCANNED
  {
    && (exists i :: FirstRepeat(t, i) && t[i] == v)
    && ids <= Positions(t, v, SCANNED)
  }

  /** The search succeeds for this request. */
  ghost predicate Acquirable(t: seq<Addr>, num: int)
    requires |t| >= SCANNED
  {
    1 <= num <= MAX_ACQUIRES && exists i :: FirstRepeat(t, i) && |Positions(t, t[i], SCANNED)| >= num
  }

  /** Positions lists exactly the occurrences, each once, in order. */
  lemma {:induction false} PositionsExact(t: seq<Addr>, v: Addr, hi: nat)
    requires hi <= |t|
    ensures forall a, b :: 0 <= a < b < |Positions(t, v, hi)| ==> Positions(t, v, hi)[a] < Positions(t, v, hi)[b]
    ensures forall a :: 0 <= a < |Positions(t, v, hi)| ==> t[Positions(t, v, hi)[a]] == v
    ensures forall k :: 0 <= k < hi && t[k] == v ==>
              exists a :: 0 <= a < |Positions(t, v, hi)| && Positions(t, v, hi)[a] == k
  {
    if hi > 0 {
      PositionsExact(t, v, hi - 1);
      var ps, before := Positions(t, v, hi), Positions(t, v, hi - 1);
      forall k | 0 <= k < hi && t[k] == v
        ensures exists a :: 0 <= a < |ps| && ps[a] == k
      {
        if k < hi - 1 {
          var a :| 0 <= a < |before| && before[a] == k;
          assert ps[a] == k;
        } else {
          assert ps[|before|] == k;
        }
      }
    }
  }

  lemma {:induction false} PositionsPrefix(t: seq<Addr>, v: Addr, lo: nat, hi: nat)
    requires lo <= hi <= |t|
    ensures Positions(t, v, lo) <= Positions(t, v, hi)
  {
    if lo < hi {
      PositionsPrefix(t, v, lo, hi - 1);
    }
  }

  lemma {:induction false} NoPositions(t: seq<Addr>, v: Addr, lo: nat, hi: nat)
    requires lo <= hi <= |t|
    requires forall k :: lo <= k < hi ==> t[k] != v
    ensures Positions(t, v, hi) == Positions(t, v, lo)
  {
    if lo < hi {
      NoPositions(t, v, lo, hi - 1);
    }
  }

  /** The first two occurrences of the first repeated value. */
  lemma FirstPair(t: seq<Addr>, i: nat, z: nat)
    requires i < z < SCANNED <= |t| && t[i] == t[z]
    requires FirstRepeat(t, i) && forall k :: i < k < z ==> t[k] != t[i]
    ensures Positions(t, t[i], z + 1) == [i, z]
  {
    var v := t[i];
    assert forall a :: 0 <= a < i && t[a] == v ==> Repeats(t, a);
    NoPositions(t, v, 0, i);
    assert Positions(t, v, i + 1) == [i];
    NoPositions(t, v, i + 1, z);
  }

  lemma FirstRepeatUnique(t: seq<Addr>, i: int, j: int)
    requires |t| >= SCANNED && FirstRepeat(t, i) && FirstRepeat(t, j)
    ensures i == j
  {
  }

  // ----- the search

  /**
   get_entries: the outputs are written only on success, and then entryIds starts with the
   first num indices of the first repeated value, and ni holds that value.
   */
  method GetEntries(entryIds: array<int>, num: int, table: array<Addr>, ni: Cell) returns (ret: int)
    requires table.Length >= SCANNED
    requires num <= MAX_ACQUIRES ==> num <= entryIds.Length
    modifies entryIds, ni
    ensures ret == if Acquirable(table[..], num) then num else -1
    ensures ret == -1 ==> entryIds[..] == old(entryIds[..]) && ni.value == old(ni.value)
    ensures ret != -1 ==>
              && FirstOccurrences(table[..], ni.value, entryIds[..ret])
              && entryIds[ret..] == old(entryIds[ret..])
  {
    if num < 1 {
      return -1;
    }
    if num > MAX_ACQUIRES {
      return -1;
    }
    ghost var t := table[..];
    for i := 0 to SCANNED
      invariant forall a :: 0 <= a < i ==> !Repeats(t, a)
    {
      for z := i + 1 to SCANNED
        invariant forall b :: i < b < z ==> t[b] != t[i]
      {
        if table[i] == table[z] {
          assert FirstRepeat(t, i) && t[z] == t[i];
          var restore, count := Collect(table, i, z, num);
          if count == num {
            Write(entryIds, restore, count);
            ni.value := table[i];
            return count;
          }
          NotEnough(t, i, num);
          return -1;
        }
      }
    }
    return -1;
  }

  lemma NotEnough(t: seq<Addr>, i: int, num: int)
    requires |t| >= SCANNED && FirstRepeat(t, i) && |Positions(t, t[i], SCANNED)| < num
    ensures !Acquirable(t, num)
  {
    forall j | FirstRepeat(t, j)
      ensures j == i
    {
      FirstRepeatUnique(t, i, j);
    }
  }

  function Least(a: int, b: int): int {
    if a < b then a else b
  }

  /** The part of get_entries that fills restore[] once the pair (i, z) is found; its j is always ret - 1. */
  method Collect(table: array<Addr>, i: nat, z: nat, num: int) returns (restore: array<int>, ret: nat)
    requires table.Length >= SCANNED && 1 <= num <= MAX_ACQUIRES
    requires i < z < SCANNED && table[i] == table[z] && FirstRepeat(table[..], i)
    requires forall b :: i < b < z ==> table[b] != table[i]
    ensures fresh(restore) && restore.Length == MAX_ACQUIRES
    ensures var all := Positions(table[..], table[i], SCANNED);
            ret == Least(num, |all|) && restore[..ret] == all[..ret]
  {
    ghost var t := table[..];
    FirstPair(t, i, z);
    restore := new int[MAX_ACQUIRES](_ => -1);
    ret := 0;
    if ret < num {
      restore[ret] := i;
      ret := ret + 1;
    }
    if ret < num {
      restore[ret] := z;
      ret := ret + 1;
    }
    ret := Fill(table, table[i], z + 1, num, restore, ret);
  }

  /** The loop over k: further occurrences of v from index lo on, until num slots are filled. */
  method Fill(table: array<Addr>, v: Addr, lo: nat, num: int, restore: array<int>, filled: nat) returns (ret: nat)
    requires lo <= SCANNED <= table.Length && restore.Length == MAX_ACQUIRES && num <= MAX_ACQUIRES
    requires var ps := Positions(table[..], v, lo);
             && filled <= num && (filled < num ==> filled == |ps|) && filled <= |ps|
             && restore[..filled] == ps[..filled]
    modifies restore
    ensures var all := Positions(table[..], v, SCANNED);
            ret == Least(num, |all|) && restore[..ret] == all[..ret]
  {
    ghost var t := table[..];
    var k := lo;
    ret := filled;
    while k < SCANNED && ret < num
      invariant lo <= k <= SCANNED && ret <= num
      invariant ret < num ==> ret == |Positions(t, v, k)|
      invariant ret <= |Positions(t, v, k)| && restore[..ret] == Positions(t, v, k)[..ret]
    {
      if v == table[k] {
        restore[ret] := k;
        ret := ret + 1;
      }
      k := k + 1;
    }
    PositionsPrefix(t, v, k, SCANNED);
  }

  /** memcpy of the first count slots to the caller. */
  method Write(entryIds: array<int>, restore: array<int>, count: nat)
    requires count <= restore.Length && count <= entryIds.Length && entryIds != restore
    modifies entryIds
    ensures entryIds[..] == old(restore[..count]) + old(entryIds[count..])
  {
    for k := 0 to count
      invariant restore[..] == old(restore[..])
      invariant entryIds[..] == restore[..k] + old(entryIds[k..])
    {
      entryIds[k] := restore[k];
    }
  }
}
