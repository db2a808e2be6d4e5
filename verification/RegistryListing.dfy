/**
 The registry proc file (io/procio.c:33-67): one line per entry in a page-sized buffer, as
 many whole lines as fit.
 */
module RegistryListing {
  import opened CStrings
  import opened Decimal
  import opened KernelList
  import opened Monitor
  import opened ProcFile
  import opened Registry
  import opened Wrappers

  /** "- %lu %s -> %lu %s\n" */
  function Line(e: Entry): (s: string)
    ensures |s| > 0
  {
    "- " + PrintNat(e.registered.ino) + " " + e.registered.path
    + " -> " + PrintNat(e.resolved.ino) + " " + e.resolved.path + "\n"
  }

  function Lines(reg: seq<Entry>): string {
    if reg == [] then [] else Lines(reg[..|reg| - 1]) + Line(reg[|reg| - 1])
  }

  /** The first n entries are those that the page holds: they fit, and one more would not. */
  ghost predicate LongestFitting(reg: seq<Entry>, n: nat) {
    && n <= |reg| && |Lines(reg[..n])| < PAGE_SIZE
    && (n < |reg| ==> |Lines(reg[..n + 1])| >= PAGE_SIZE)
  }

  lemma {:induction false} LinesMonotone(reg: seq<Entry>, m: nat, n: nat)
    requires m <= n <= |reg|
    ensures |Lines(reg[..m])| <= |Lines(reg[..n])|
  {
    if m < n {
      LinesMonotone(reg, m, n - 1);
      assert reg[..n][..n - 1] == reg[..n - 1];
    }
  }

  /** There is one such prefix, and it contains every other prefix that fits. */
  lemma LongestIsLongest(reg: seq<Entry>, n: nat, m: nat)
    requires LongestFitting(reg, n) && m <= |reg|
    ensures |Lines(reg[..m])| < PAGE_SIZE <==> m <= n
  {
    if m <= n {
      LinesMonotone(reg, m, n);
    } else {
      LinesMonotone(reg, n + 1, m);
    }
  }

  /** One snprintf at the end of what is printed so far: a whole line, or no change of what counts. */
  method PrintLine(out: array<char>, outLen: nat, decrement: nat, e: Entry) returns (ret: nat)
    requires out.Length == PAGE_SIZE && outLen + decrement == PAGE_SIZE && 0 < decrement
    modifies out
    ensures ret == |Line(e)|
    ensures out[..outLen] == old(out[..outLen])
    ensures ret < decrement ==> out[..outLen + ret] == old(out[..outLen]) + Line(e)
  {
    ret := Snprintf(out, outLen, decrement, Line(e));
    if ret < decrement {
      assert out[outLen..outLen + ret] == Line(e);
      assert out[..outLen + ret] == out[..outLen] + out[outLen..outLen + ret];
    }
  }

  lemma LinesSnoc(reg: seq<Entry>, n: nat)
    requires n < |reg|
    ensures Lines(reg[..n + 1]) == Lines(reg[..n]) + Line(reg[n])
  {
    assert reg[..n + 1][..n] == reg[..n];
  }

  /** The nodes hold the entries in order, between two occurrences of the head. */
  ghost predicate OnRing(head: ListHead<Entry>, ring: seq<ListHead<Entry>>, reg: seq<Entry>)
    reads ring
  {
    && |ring| == |reg| + 2 && ring[0] == head && ring[|reg| + 1] == head
    && (forall i :: 0 <= i <= |reg| ==> ring[i].next == ring[i + 1])
    && (forall i :: 1 <= i <= |reg| ==> ring[i] != head && ring[i].entry == Some(reg[i - 1]))
  }

  /** The loop over the registry; n is the number of lines printed. */
  method RenderFrom(head: ListHead<Entry>, ghost ring: seq<ListHead<Entry>>, ghost reg: seq<Entry>)
    returns (out: array<char>, outLen: nat, ghost n: nat)
    requires OnRing(head, ring, reg)
    ensures fresh(out) && out.Length == PAGE_SIZE && outLen < PAGE_SIZE
    ensures LongestFitting(reg, n) && out[..outLen] == Lines(reg[..n])
  {
    out := new char[PAGE_SIZE];
    outLen := 0;
    var decrement := PAGE_SIZE;
    n := 0;
    var pos := head.next;
    while pos != head
      invariant OnRing(head, ring, reg) && n <= |reg| && pos == ring[n + 1]
      invariant outLen + decrement == PAGE_SIZE && 0 < decrement
      invariant out[..outLen] == Lines(reg[..n])
      decreases |reg| - n
    {
      LinesSnoc(reg, n);
      var ret := PrintLine(out, outLen, decrement, pos.entry.value);
      if ret >= decrement {
        break;
      }
      outLen := outLen + ret;
      decrement := decrement - ret;
      n := n + 1;
      pos := pos.next;
    }
  }

  method Render(list: List<Entry>) returns (out: array<char>, outLen: nat, ghost n: nat)
    requires list.Valid()
    ensures fresh(out) && out.Length == PAGE_SIZE && outLen < PAGE_SIZE
    ensures LongestFitting(list.Contents(), n) && out[..outLen] == Lines(list.Contents()[..n])
  {
    out, outLen, n := RenderFrom(list.head, list.ring, list.Contents());
  }

  /** The lines, if the reader's buffer holds them all. */
  function Delivered(reg: seq<Entry>, count: nat): string {
    if |Lines(reg)| <= count then Lines(reg) else []
  }

  /** Reading the proc file to its end gives the longest prefix of whole lines, if the buffer holds it. */
  method ShowRegistry(m: RefMonitor, count: nat) returns (text: string)
    requires m.Valid()
    ensures exists n: nat ::
              LongestFitting(m.registry.Contents(), n) && text == Delivered(m.registry.Contents()[..n], count)
  {
    var out, outLen;
    ghost var n;
    out, outLen, n := Render(m.registry);
    text := ReadProcToEof(out[..outLen], count);
    assert LongestFitting(m.registry.Contents(), n);
  }
}
