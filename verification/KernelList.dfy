/**
 The kernel's circular doubly linked list (linux/list.h), as the registry uses it: list_head
 nodes embedded in entries, a head without an entry, insertion at the tail, deletion, the
 plain and the deletion-safe traversal.
 */
module KernelList {
  import opened Wrappers

  class ListHead<T> {
    var next: ListHead?<T>
    var prev: ListHead?<T>
    const entry: Option<T>

    constructor (entry: Option<T>)
      ensures this.entry == entry
    {
      this.entry := entry;
      next, prev := null, null;
    }
  }

  class List<T> {
    const head: ListHead<T>
    /** The head, the entries in list order, and the head again. */
    ghost var ring: seq<ListHead<T>>
    ghost var Repr: set<object>

    /** next and prev are inverse to each other all along the ring. */
    ghost predicate Valid()
      reads this, Repr
      ensures Valid() ==> this in Repr
    {
      && this in Repr
      && |ring| >= 2 && ring[0] == head && ring[|ring| - 1] == head && head.entry == None
      && (forall i :: 0 <= i < |ring| ==> ring[i] in Repr)
      && (forall i :: 1 <= i < |ring| - 1 ==> ring[i] != head && ring[i].entry.Some?)
      && (forall i, j :: 1 <= i < j < |ring| - 1 ==> ring[i] != ring[j])
      && (forall i {:trigger ring[i].next} :: 0 <= i < |ring| - 1 ==> ring[i].next == ring[i + 1])
      && (forall i {:trigger ring[i].prev} :: 1 <= i < |ring| ==> ring[i].prev == ring[i - 1])
    }

    /** The registered entries in order. */
    ghost function Contents(): (s: seq<T>)
      requires Valid()
      reads this, Repr
      ensures |s| == |ring| - 2
      ensures forall i :: 0 <= i < |s| ==> s[i] == ring[i + 1].entry.value
    {
      var r := ring;
      seq(|r| - 2, i requires 0 <= i < |r| - 2 && r[i + 1].entry.Some? => r[i + 1].entry.value)
    }

    /** INIT_LIST_HEAD */
    constructor ()
      ensures Valid() && fresh(Repr) && Contents() == []
      ensures CheckListInit()
    {
      head := new ListHead(None);
      new;
      head.next := head;
      head.prev := head;
      ring := [head, head];
      Repr := {this, head};
    }

    /** check_list_init */
    predicate CheckListInit()
      reads this, head
    {
      head.next == head && head.prev == head
    }

    lemma EmptyWhenSelfLinked()
      requires Valid()
      ensures head.next == head <==> Contents() == []
      ensures CheckListInit() <==> Contents() == []
    {
      assert ring[0].next == ring[1];
      assert ring[|ring| - 1].prev == ring[|ring| - 2];
    }

    /** list_empty */
    method IsEmpty() returns (empty: bool)
      requires Valid()
      ensures empty <==> Contents() == []
    {
      EmptyWhenSelfLinked();
      empty := head.next == head;
    }

    /** list_add_tail of a fresh node for x */
    method AddTail(x: T)
      requires Valid()
      modifies Repr
      ensures Valid() && fresh(Repr - old(Repr))
      ensures Contents() == old(Contents()) + [x]
      ensures |ring| == |old(ring)| + 1 && ring[..|ring| - 2] == old(ring[..|ring| - 1])
    {
      var node := new ListHead(Some(x));
      ghost var before, n := ring, |ring|;
      assert ring[n - 1].prev == ring[n - 2];
      var last := head.prev;
      head.prev := node;
      node.next := head;
      node.prev := last;
      last.next := node;
      ring := before[..n - 1] + [node, head];
      Repr := Repr + {node};
    }

    /** list_del of the node at position k of the ring; its links are poisoned */
    method Delete(node: ListHead<T>, ghost k: nat)
      requires Valid() && 1 <= k < |ring| - 1 && ring[k] == node
      modifies Repr
      ensures Valid() && Repr == old(Repr)
      ensures ring == old(ring)[..k] + old(ring)[k + 1..]
      ensures Contents() == old(Contents())[..k - 1] + old(Contents())[k..]
      ensures node.next == null && node.prev == null
    {
      assert ring[k].next == ring[k + 1] && ring[k].prev == ring[k - 1];
      var prev, next := node.prev, node.next;
      next.prev := prev;
      prev.next := next;
      node.next := null;
      node.prev := null;
      ring := ring[..k] + ring[k + 1..];
    }

    /**
     list_for_each_entry_safe with list_del of every entry: the successor is saved before the
     current node is deleted.
     */
    method DeleteAll() returns (ghost visited: seq<ListHead<T>>)
      requires Valid()
      modifies Repr
      ensures Valid() && Repr == old(Repr)
      ensures visited == old(ring[1..|ring| - 1])
      ensures Contents() == [] && CheckListInit()
    {
      visited := [];
      var pos := head.next;
      assert pos == ring[0].next == ring[1];
      var n := pos.next;
      while pos != head
        invariant Valid() && Repr == old(Repr)
        invariant visited + ring[1..|ring| - 1] == old(ring[1..|ring| - 1])
        invariant pos == ring[1] && n == pos.next
        decreases |ring|
      {
        visited := visited + [pos];
        assert n == ring[1].next == ring[2];
        Delete(pos, 1);
        pos := n;
        n := pos.next;
      }
      EmptyWhenSelfLinked();
    }

    /** list_for_each_entry with a test that ends the loop; k is the position on the ring. */
    method Find(test: T -> bool) returns (found: ListHead?<T>, ghost k: nat)
      requires Valid()
      ensures found == null <==> forall i :: 0 <= i < |Contents()| ==> !test(Contents()[i])
      ensures found != null ==>
                && 1 <= k < |ring| - 1 && ring[k] == found && test(Contents()[k - 1])
                && forall i :: 0 <= i < k - 1 ==> !test(Contents()[i])
    {
      k := 1;
      assert ring[0].next == ring[1];
      var pos := head.next;
      while pos != head
        invariant 1 <= k < |ring| && pos == ring[k]
        invariant forall i :: 0 <= i < k - 1 ==> !test(Contents()[i])
        decreases |ring| - k
      {
        assert Contents()[k - 1] == pos.entry.value;
        if test(pos.entry.value) {
          return pos, k;
        }
        assert ring[k].next == ring[k + 1];
        pos := pos.next;
        k := k + 1;
      }
      return null, k;
    }
  }
}
