/**
 What the log says after a concurrent run: interleaving neither loses, splits nor reorders a record.
 */
module LogConcurrentText {
  import opened LogConcurrency
  import opened LogFile
  import opened LogRuns
  import opened Wrappers

  /** The records of the writers, in the given order of calls. */
  ghost function Records(ops: seq<Op>, order: seq<nat>): seq<string>
    requires Ids(ops, order)
  {
    if order == [] then [] else
      var last := |order| - 1;
      match ops[order[last]]
      case Write(record) => Records(ops, order[..last]) + [record]
      case Read(_, _, _) => Records(ops, order[..last])
  }

  lemma {:induction false} SerialIsRun(d: Disk, ops: seq<Op>, order: seq<nat>)
    requires WellFormed(d) && AllSane(ops) && Ids(ops, order)
    ensures Storable(Records(ops, order))
    ensures Serial(d, ops, order) == Run(d, Records(ops, order))
  {
    if order != [] {
      var last := |order| - 1;
      SerialIsRun(d, ops, order[..last]);
      if ops[order[last]].Write? {
        assert Records(ops, order)[..|Records(ops, order)| - 1] == Records(ops, order[..last]);
      }
    }
  }

  lemma {:induction false} RecordsNulFree(ops: seq<Op>, order: seq<nat>)
    requires Ids(ops, order)
    requires forall t :: 0 <= t < |ops| && ops[t].Write? ==> NulFree(ops[t].record)
    ensures forall i :: 0 <= i < |Records(ops, order)| ==> NulFree(Records(ops, order)[i])
  {
    if order != [] {
      RecordsNulFree(ops, order[..|order| - 1]);
    }
  }

  /**
   Whenever the lock is free, in any interleaving, the log holds the old text and then the
   records stored so far, whole, in lock order.
   */
  lemma ConcurrentText(d: Disk, ops: seq<Op>, schedule: seq<nat>)
    requires WellFormed(d) && AllSane(ops)
    requires forall t :: 0 <= t < |ops| && ops[t].Write? ==> NulFree(ops[t].record)
    requires Execute(d, ops, schedule).sys.lock == None
    ensures var tr := Execute(d, ops, schedule);
            && Ids(ops, tr.locks) && Storable(Records(ops, tr.locks)) && WellFormed(tr.sys.disk)
            && DropNul(Content(tr.sys.disk))
               == DropNul(Content(d)) + Flatten(Accepted(d, Records(ops, tr.locks)))
  {
    EveryRunIsLinearized(d, ops, schedule);
    var tr := Execute(d, ops, schedule);
    SerialIsRun(d, ops, tr.effects);
    RecordsNulFree(ops, tr.effects);
    RunText(d, Records(ops, tr.effects));
  }
}
