/**
 A probe handler that walks the registry (misc/fsutils.c:62-76) while do_reconf_rm deletes an
 entry (syscalls/syscalls-handlers.c:215). The handlers do not take the lock that the
 operations hold, so every read and every write of a link is a step of its own here.

 Nodes are numbered along the list: 0 is the head, 1 to n are the entries.
 */
module RegistryRace {
  import opened Paths
  import opened Registry
  import opened Wrappers

  const POISON: int := -1

  datatype Walker =
    | Start                   // about to read the head's next
    | At(pos: int)            // about to compare with the head and test the entry
    | Leave(pos: int)         // the entry does not match; about to read its next
    | Found(pos: int)
    | NotFound
    | Faulted                 // it read a poisoned link

  /** The links in memory, how many writes of list_del are done, and the walker. */
  datatype State = State(next: seq<int>, prev: seq<int>, written: nat, walker: Walker)

  /** A write through a link; Linked shows that it is always in range. */
  function Put(links: seq<int>, at: int, value: int): seq<int> {
    if 0 <= at < |links| then links[at := value] else links
  }

  function Get(links: seq<int>, at: int): int {
    if 0 <= at < |links| then links[at] else POISON
  }

  /** The four writes of list_del of node k, in order. */
  function DeleterStep(s: State, k: nat): State {
    if s.written == 0 then s.(prev := Put(s.prev, Get(s.next, k), Get(s.prev, k)), written := 1)
    else if s.written == 1 then s.(next := Put(s.next, Get(s.prev, k), Get(s.next, k)), written := 2)
    else if s.written == 2 then s.(next := Put(s.next, k, POISON), written := 3)
    else if s.written == 3 then s.(prev := Put(s.prev, k, POISON), written := 4)
    else s
  }

  /** One step of list_for_each_entry; matches[i - 1] tells whether entry i satisfies the test. */
  function WalkerStep(s: State, matches: seq<bool>): State {
    match s.walker
    case Start => s.(walker := At(Get(s.next, 0)))
    case At(pos) =>
      if pos == 0 then s.(walker := NotFound)
      else if 0 < pos <= |matches| && matches[pos - 1] then s.(walker := Found(pos))
      else s.(walker := Leave(pos))
    case Leave(pos) => s.(walker := if Get(s.next, pos) == POISON then Faulted else At(Get(s.next, pos)))
    case _ => s
  }

  function Succ(n: nat, i: int): int {
    if i == n then 0 else i + 1
  }

  function Pred(n: nat, i: int): int {
    if i == 0 then n else i - 1
  }

  function Initial(n: nat): State {
    State(seq(n + 1, i => Succ(n, i)), seq(n + 1, i => Pred(n, i)), 0, Start)
  }

  /** A schedule: true for a step of the walker, false for one of the deleter. */
  function Race(matches: seq<bool>, k: nat, schedule: seq<bool>): State {
    if schedule == [] then Initial(|matches|) else
      var last := |schedule| - 1;
      var s := Race(matches, k, schedule[..last]);
      if schedule[last] then WalkerStep(s, matches) else DeleterStep(s, k)
  }

  // ----- what holds in every state

  ghost predicate Linked(n: nat, k: nat, s: State) {
    && 1 <= k <= n && s.written <= 4 && |s.next| == |s.prev| == n + 1
    && (forall i :: 0 <= i <= n ==>
          s.next[i] == if i == k && s.written >= 3 then POISON
                       else if i == k - 1 && s.written >= 2 then Succ(n, k) else Succ(n, i))
    && (forall i :: 0 <= i <= n ==>
          s.prev[i] == if i == k && s.written >= 4 then POISON
                       else if i == Succ(n, k) && s.written >= 1 then k - 1 else Pred(n, i))
  }

  /** No entry before position i matches, except possibly k when the walker went around it. */
  ghost predicate Passed(matches: seq<bool>, k: nat, written: nat, i: int) {
    && 1 <= k <= |matches| && 1 <= i <= |matches| + 1
    && (forall j :: 0 <= j < i - 1 && j != k - 1 ==> !matches[j])
    && (k < i ==> !matches[k - 1] || written >= 2)
  }

  ghost predicate OnItsWay(matches: seq<bool>, k: nat, s: State) {
    match s.walker
    case Start => true
    case At(pos) => 0 <= pos <= |matches| && Passed(matches, k, s.written, if pos == 0 then |matches| + 1 else pos)
    case Leave(pos) => 0 < pos <= |matches| && Passed(matches, k, s.written, pos) && !matches[pos - 1]
    case Found(pos) => 0 < pos <= |matches| && Passed(matches, k, s.written, pos) && matches[pos - 1]
    case NotFound => Passed(matches, k, s.written, |matches| + 1)
    case Faulted => s.written >= 3 && Passed(matches, k, s.written, k) && !matches[k - 1]
  }

  lemma DeleterKeeps(matches: seq<bool>, k: nat, s: State)
    requires Linked(|matches|, k, s) && OnItsWay(matches, k, s)
    ensures Linked(|matches|, k, DeleterStep(s, k)) && OnItsWay(matches, k, DeleterStep(s, k))
  {
  }

  lemma WalkerKeeps(matches: seq<bool>, k: nat, s: State)
    requires Linked(|matches|, k, s) && OnItsWay(matches, k, s)
    ensures Linked(|matches|, k, WalkerStep(s, matches)) && OnItsWay(matches, k, WalkerStep(s, matches))
  {
  }

  lemma {:induction false} RaceKeeps(matches: seq<bool>, k: nat, schedule: seq<bool>)
    requires 1 <= k <= |matches|
    ensures Linked(|matches|, k, Race(matches, k, schedule)) && OnItsWay(matches, k, Race(matches, k, schedule))
  {
    if schedule != [] {
      var last := |schedule| - 1;
      RaceKeeps(matches, k, schedule[..last]);
      if schedule[last] {
        WalkerKeeps(matches, k, Race(matches, k, schedule[..last]));
      } else {
        DeleterKeeps(matches, k, Race(matches, k, schedule[..last]));
      }
    }
  }

  // ----- when the walker meets the poison

  /** The walker is at the deleted entry and will go past it. */
  predicate Stands(matches: seq<bool>, k: nat, s: State)
    requires 1 <= k <= |matches|
  {
    (s.walker == At(k) && !matches[k - 1]) || s.walker == Leave(k)
  }

  predicate Doomed(matches: seq<bool>, k: nat, s: State)
    requires 1 <= k <= |matches|
  {
    Stands(matches, k, s) || s.walker == Faulted
  }

  predicate Finished(w: Walker) {
    w.Found? || w.NotFound? || w.Faulted?
  }

  /** Once the entry's next is poisoned, whether the walker will meet the poison does not change any more. */
  lemma DoomIsFixed(matches: seq<bool>, k: nat, s: State, walks: bool)
    requires Linked(|matches|, k, s) && OnItsWay(matches, k, s) && s.written >= 3
    ensures var s' := if walks then WalkerStep(s, matches) else DeleterStep(s, k);
            s'.written >= 3 && (Doomed(matches, k, s') <==> Doomed(matches, k, s))
  {
  }

  lemma {:induction false} DoomAfter(matches: seq<bool>, k: nat, before: seq<bool>, after: seq<bool>)
    requires 1 <= k <= |matches| && Race(matches, k, before).written >= 3
    ensures Race(matches, k, before + after).written >= 3
    ensures Doomed(matches, k, Race(matches, k, before + after)) <==> Doomed(matches, k, Race(matches, k, before))
  {
    if after == [] {
      assert before + after == before;
    } else {
      var last := |after| - 1;
      DoomAfter(matches, k, before, after[..last]);
      assert (before + after)[..|before + after| - 1] == before + after[..last];
      RaceKeeps(matches, k, before + after[..last]);
      DoomIsFixed(matches, k, Race(matches, k, before + after[..last]), after[last]);
    }
  }

  /**
   In any interleaving a finished walk has met the poison exactly when, at the moment of the
   third write of list_del, it stood on the deleted entry and was to go past it.
   */
  lemma FaultExact(matches: seq<bool>, k: nat, before: seq<bool>, after: seq<bool>)
    requires 1 <= k <= |matches| && Race(matches, k, before).written == 2
    ensures var w := Race(matches, k, before + [false] + after).walker;
            && (Finished(w) ==> (w == Faulted <==> Stands(matches, k, Race(matches, k, before))))
            && (w == Faulted ==> Stands(matches, k, Race(matches, k, before)))
  {
    var third := before + [false];
    assert third[..|third| - 1] == before;
    RaceKeeps(matches, k, before);
    DoomAfter(matches, k, third, after);
  }

  /** Before that write no walk meets the poison. */
  lemma NoFaultBefore(matches: seq<bool>, k: nat, schedule: seq<bool>)
    requires 1 <= k <= |matches| && Race(matches, k, schedule).written <= 2
    ensures Race(matches, k, schedule).walker != Faulted
  {
    RaceKeeps(matches, k, schedule);
  }

  /** Steps that the walker still takes at most. */
  function Rank(n: nat, w: Walker): int {
    match w
    case Start => 2 * (n + 1)
    case At(pos) => if pos == 0 then 1 else 2 * (n + 1 - pos) + 1
    case Leave(pos) => 2 * (n + 1 - pos)
    case _ => 0
  }

  /** Every walk ends, whatever the deleter does. */
  lemma WalkEnds(matches: seq<bool>, k: nat, schedule: seq<bool>)
    requires 1 <= k <= |matches|
    ensures var s := Race(matches, k, schedule);
            && (Finished(s.walker) ==> Rank(|matches|, s.walker) == 0)
            && (!Finished(s.walker) ==> 0 <= Rank(|matches|, WalkerStep(s, matches).walker) < Rank(|matches|, s.walker))
  {
    RaceKeeps(matches, k, schedule);
  }

  // ----- what the other walks answer

  /** Whether entry i of the registry satisfies the test of the search. */
  function Tests(env: Env, reg: seq<Entry>, id: PathId): (m: seq<bool>)
    ensures |m| == |reg| && forall i :: 0 <= i < |m| ==> m[i] == Matches(env, id, BY_COVERAGE, reg[i])
  {
    seq(|reg|, i requires 0 <= i < |reg| => Matches(env, id, BY_COVERAGE, reg[i]))
  }

  lemma EligibleByTests(env: Env, reg: seq<Entry>, id: PathId)
    requires id.path != []
    ensures IsEligible(env, reg, id) <==> exists i :: 0 <= i < |reg| && Tests(env, reg, id)[i]
  {
    EligibleIffCovered(env, reg, id);
    assert forall i :: 0 <= i < |reg| ==> (Tests(env, reg, id)[i] <==> Covers(env, reg[i], id));
  }

  lemma EligibleWithout(env: Env, reg: seq<Entry>, k: nat, id: PathId)
    requires id.path != [] && 1 <= k <= |reg|
    ensures IsEligible(env, Without(reg, k - 1), id)
       <==> exists i :: 0 <= i < |reg| && i != k - 1 && Tests(env, reg, id)[i]
  {
    EligibleIffCovered(env, Without(reg, k - 1), id);
    RemainingEntries(env, reg, k - 1, id);
    assert forall i :: 0 <= i < |reg| ==> (Tests(env, reg, id)[i] <==> Covers(env, reg[i], id));
  }

  /**
   A walk that does not meet the poison answers as if it had run alone, on the registry before
   the deletion or, once the entry is unlinked, on the one after it.
   */
  lemma AnswerIsBeforeOrAfter(env: Env, reg: seq<Entry>, k: nat, id: PathId, schedule: seq<bool>)
    requires id.path != [] && 1 <= k <= |reg|
    ensures var s := Race(Tests(env, reg, id), k, schedule);
            s.walker.Found? || s.walker.NotFound? ==>
              || s.walker.Found? == IsEligible(env, reg, id)
              || (s.written >= 2 && s.walker.Found? == IsEligible(env, Without(reg, k - 1), id))
  {
    var m := Tests(env, reg, id);
    RaceKeeps(m, k, schedule);
    EligibleByTests(env, reg, id);
    EligibleWithout(env, reg, k, id);
    var w := Race(m, k, schedule).walker;
    if w.Found? {
      assert m[w.pos - 1];
    }
  }

  /** A schedule in which the walk meets the poison: the only entry is deleted while the walker tests it. */
  lemma FaultExample()
    ensures Race([false], 1, [true, false, false, false, true, true]).walker == Faulted
  {
    var before, after := [true, false, false], [true, true];
    var s := State([1, 0], [1, 0], 0, At(1));
    assert Race([false], 1, [true]) == s by {
      assert [true][..0] == [];
      assert Initial(1).next == [1, 0] && Initial(1).prev == [1, 0];
    }
    assert [true, false][..1] == [true] && before[..2] == [true, false];
    assert Race([false], 1, before) == State([0, 0], [0, 0], 2, At(1));
    assert (before + [false])[..3] == before;
    var s3 := Race([false], 1, before + [false]);
    assert s3 == State([0, POISON], [0, 0], 3, At(1));
    assert (before + [false] + [true])[..4] == before + [false];
    assert (before + [false] + [true, true])[..5] == before + [false] + [true];
    assert before + [false] + [true, true] == [true, false, false, false, true, true];
  }
}
