/**
 A reader of the registry proc file (io/procio.c:44-49): which listings can be taken apart
 again into the entries that they show.
 */
module ListingReader {
  import opened CStrings
  import opened Decimal
  import opened Monitor
  import opened ProcFile
  import opened Registry
  import opened RegistryListing
  import opened Sequences
  import opened Wrappers

  const ARROW: string := " -> "

  /** The position of the first arrow, or the length. */
  function FirstArrow(s: string): (k: nat)
    ensures k <= |s| && (k < |s| ==> ARROW <= s[k..])
    ensures forall j :: 0 <= j < k ==> !(ARROW <= s[j..])
  {
    if s == [] || ARROW <= s then 0 else
      var k := 1 + FirstArrow(s[1..]);
      assert forall j :: 1 <= j <= |s| ==> s[j..] == s[1..][j - 1..];
      k
  }

  /** What stands after the first number: a path up to an arrow, a number, a path up to the newline at the end. */
  function ReadPaths(ino: nat, s: string): Option<Entry> {
    var k := FirstArrow(s);
    if k == |s| then None else
      match ScanInt(s[k + 4..])
      case None => None
      case Some((m, t)) =>
        if m < 0 || t == [] || t[|t| - 1] != '\n' then None
        else Some(Entry(PathId(s[..k], ino), PathId(t[..|t| - 1], m)))
  }

  function ReadLine(line: string): Option<Entry> {
    if !("- " <= line) then None else
      match ScanInt(line[2..])
      case None => None
      case Some((n, s)) => if n < 0 then None else ReadPaths(n, s)
  }

  /** One entry per line. */
  function ReadListing(text: string): (r: Option<seq<Entry>>)
    decreases |text|
  {
    if text == [] then Some([]) else
      var k := IndexOf(text, '\n');
      if k == |text| || ReadLine(text[..k + 1]).None? then None else
        match ReadListing(text[k + 1..])
        case None => None
        case Some(entries) => Some([ReadLine(text[..k + 1]).value] + entries)
  }

  // ----- what a reader can tell apart

  /** No arrow begins inside the path, not even one that ends in the arrow after it. */
  ghost predicate NoArrow(path: string) {
    forall i :: 0 <= i < |path| ==> !(ARROW <= (path + ARROW)[i..])
  }

  predicate OneLine(e: Entry) {
    Lacks(e.registered.path, '\n') && Lacks(e.resolved.path, '\n')
  }

  ghost predicate Legible(e: Entry) {
    OneLine(e) && NoArrow(e.registered.path)
  }

  /** As resolve_path_alloc and dentry_path_raw give them. */
  predicate AbsolutePaths(e: Entry) {
    && e.registered.path != [] && e.registered.path[0] == '/'
    && e.resolved.path != [] && e.resolved.path[0] == '/'
  }

  // ----- one line

  lemma ArrowAt(path: string, tail: string)
    ensures var s := path + ARROW + tail;
            && s[|path| + 4..] == tail && s[..|path|] == path
            && FirstArrow(s) <= |path| && (FirstArrow(s) == |path| <==> NoArrow(path))
  {
    var s := path + ARROW + tail;
    assert s[|path|..] == ARROW + tail;
    forall i | 0 <= i < |path|
      ensures ARROW <= s[i..] <==> ARROW <= (path + ARROW)[i..]
    {
      assert s[i..] == (path + ARROW)[i..] + tail;
      assert |(path + ARROW)[i..]| >= 4;
    }
  }

  /** The second half of a line: the number, and what follows it. */
  function Second(ino: nat, tail: string): string {
    PrintNat(ino) + " " + tail
  }

  lemma SecondBack(ino: nat, tail: string)
    requires StartsPlain(tail)
    ensures ScanInt(Second(ino, tail)) == Some((ino, tail))
  {
    assert Second(ino, tail) == PrintInt(ino) + (" " + tail);
    ScanPrintInt(ino, " " + tail);
    assert (" " + tail)[1..] == tail;
  }

  /** A line, or the front of one that ends in a newline of the resolved path. */
  lemma PathsBack(ino: nat, path: string, m: nat, tail: string)
    requires tail != [] && tail[0] == '/' && tail[|tail| - 1] == '\n'
    ensures var r := ReadPaths(ino, path + ARROW + Second(m, tail));
            && (NoArrow(path) ==> r == Some(Entry(PathId(path, ino), PathId(tail[..|tail| - 1], m))))
            && (!NoArrow(path) && r.Some? ==> r.value.registered.path != path)
  {
    ArrowAt(path, Second(m, tail));
    SecondBack(m, tail);
  }

  lemma LineSplit(e: Entry)
    ensures Line(e) == "- " + Second(e.registered.ino, e.registered.path + ARROW
                                     + Second(e.resolved.ino, e.resolved.path + "\n"))
  {
  }

  lemma LineFront(ino: nat, s: string)
    requires StartsPlain(s)
    ensures ReadLine("- " + Second(ino, s)) == ReadPaths(ino, s)
  {
    SecondBack(ino, s);
    assert ("- " + Second(ino, s))[2..] == Second(ino, s);
  }

  /** A reader gets paths and inode numbers back from a line exactly when no arrow begins in the first path. */
  lemma LineReadBack(e: Entry)
    requires AbsolutePaths(e)
    ensures ReadLine(Line(e)) == Some(e) <==> NoArrow(e.registered.path)
  {
    var tail := e.resolved.path + "\n";
    LineSplit(e);
    LineFront(e.registered.ino, e.registered.path + ARROW + Second(e.resolved.ino, tail));
    PathsBack(e.registered.ino, e.registered.path, e.resolved.ino, tail);
  }

  lemma JoinPaths(a: string, x: string, b: string, y: string)
    ensures (a + ARROW + x + b) + ARROW + y == a + ARROW + (x + (b + ARROW + y))
  {
    Associative(a + ARROW + x, b, ARROW);
    Associative(a + ARROW + x, b + ARROW, y);
    Associative(a + ARROW, x, b + ARROW + y);
  }

  /**
   Without that condition two entries can have the same line: one whose first path goes on with
   an arrow, a number and a path, and one whose second path does.
   */
  lemma TwoEntriesOneLine(a: string, b: string, c: string, i: nat, j: nat, k: nat)
    ensures Line(Entry(PathId(a + ARROW + Second(j, b), i), PathId(c, k)))
         == Line(Entry(PathId(a, i), PathId(b + ARROW + Second(k, c), j)))
  {
    var e, e' := Entry(PathId(a + ARROW + Second(j, b), i), PathId(c, k)),
                 Entry(PathId(a, i), PathId(b + ARROW + Second(k, c), j));
    var last := Second(k, c + "\n");
    assert Second(k, c) + "\n" == last;
    LineSplit(e);
    LineSplit(e');
    assert (b + ARROW + Second(k, c)) + "\n" == b + ARROW + last by {
      Associative(b + ARROW, Second(k, c), "\n");
    }
    assert (a + ARROW + Second(j, b)) + ARROW + last == a + ARROW + Second(j, b + ARROW + last) by {
      var x := PrintNat(j) + " ";
      assert Second(j, b) == x + b && Second(j, b + ARROW + last) == x + (b + ARROW + last);
      Associative(a + ARROW, x, b);
      JoinPaths(a, x, b, last);
    }
  }

  // ----- the whole listing

  /** A text that ends in its only newline. */
  predicate EndsLine(a: string) {
    a != [] && a[|a| - 1] == '\n' && Lacks(a[..|a| - 1], '\n')
  }

  lemma FirstLine(a: string, rest: string)
    requires EndsLine(a)
    ensures var k := IndexOf(a + rest, '\n');
            k == |a| - 1 && (a + rest)[..k + 1] == a && (a + rest)[k + 1..] == rest
  {
    var s, k := a + rest, IndexOf(a + rest, '\n');
    assert s[|a| - 1] == '\n';
    assert forall i :: 0 <= i < |a| - 1 ==> a[..|a| - 1][i] == s[i];
  }

  lemma SecondEndsLine(ino: nat, tail: string)
    requires EndsLine(tail)
    ensures EndsLine(Second(ino, tail))
  {
    var front := PrintNat(ino) + " ";
    assert Second(ino, tail)[..|Second(ino, tail)| - 1] == front + tail[..|tail| - 1];
  }

  lemma JoinEndsLine(front: string, tail: string)
    requires Lacks(front, '\n') && EndsLine(tail)
    ensures EndsLine(front + tail)
  {
    assert (front + tail)[..|front + tail| - 1] == front + tail[..|tail| - 1];
  }

  lemma FrontEndsLine(s: string)
    requires !Lacks(s, '\n')
    ensures var i := IndexOf(s, '\n'); i < |s| && EndsLine(s[..i + 1])
  {
    var i := IndexOf(s, '\n');
    assert s[..i + 1][..i] == s[..i];
  }

  lemma SecondTail(ino: nat, a: string, b: string)
    ensures Second(ino, a + b) == Second(ino, a) + b
  {
  }

  /** A line whose part after the first number is split in two. */
  lemma LineTail(ino: nat, a: string, b: string, more: string)
    ensures "- " + Second(ino, a + b) + more == ("- " + Second(ino, a)) + (b + more)
  {
    SecondTail(ino, a, b);
    Associative("- ", Second(ino, a), b);
    Associative("- " + Second(ino, a), b, more);
  }

  /** The part of a line after the first number. */
  function Names(e: Entry): string {
    e.registered.path + ARROW + Second(e.resolved.ino, e.resolved.path + "\n")
  }

  /** A line cut in its first path, and one cut in its second path, with the text after it. */
  lemma TextCutInFirst(e: Entry, s: string, p: string, more: string) returns (rest: string)
    requires e.registered.path == s + p
    ensures Line(e) + more == ("- " + Second(e.registered.ino, s)) + rest
  {
    var x := Second(e.resolved.ino, e.resolved.path + "\n");
    Associative(s, p, ARROW);
    Associative(s, p + ARROW, x);
    assert Names(e) == s + (p + ARROW + x);
    LineSplit(e);
    LineTail(e.registered.ino, s, p + ARROW + x, more);
    rest := p + ARROW + x + more;
  }

  lemma TextCutInSecond(e: Entry, s: string, p: string, more: string) returns (rest: string)
    requires e.resolved.path == s + p
    ensures Line(e) + more
         == ("- " + Second(e.registered.ino, e.registered.path + ARROW + Second(e.resolved.ino, s))) + rest
  {
    rest := p + "\n";
    var front := e.registered.path + ARROW;
    Associative(s, p, "\n");
    SecondTail(e.resolved.ino, s, rest);
    Associative(front, Second(e.resolved.ino, s), rest);
    assert Names(e) == front + Second(e.resolved.ino, s) + rest;
    LineSplit(e);
    LineTail(e.registered.ino, front + Second(e.resolved.ino, s), rest, more);
    rest := rest + more;
  }

  /** A newline in the first path ends the line there, with less than that path before it. */
  lemma CutInFirst(e: Entry, s: string)
    requires AbsolutePaths(e) && s <= e.registered.path && EndsLine(s)
    ensures EndsLine("- " + Second(e.registered.ino, s))
    ensures ReadLine("- " + Second(e.registered.ino, s)) != Some(e)
  {
    SecondEndsLine(e.registered.ino, s);
    JoinEndsLine("- ", Second(e.registered.ino, s));
    LineFront(e.registered.ino, s);
  }

  /** A newline in the second path leaves a shorter second path, or another first one. */
  lemma CutInSecond(e: Entry, tail: string)
    requires AbsolutePaths(e) && Lacks(e.registered.path, '\n') && tail <= e.resolved.path && EndsLine(tail)
    ensures var s := e.registered.path + ARROW + Second(e.resolved.ino, tail);
            EndsLine("- " + Second(e.registered.ino, s)) && ReadLine("- " + Second(e.registered.ino, s)) != Some(e)
  {
    var second := Second(e.resolved.ino, tail);
    SecondEndsLine(e.resolved.ino, tail);
    JoinEndsLine(e.registered.path + ARROW, second);
    var s := e.registered.path + ARROW + second;
    SecondEndsLine(e.registered.ino, s);
    JoinEndsLine("- ", Second(e.registered.ino, s));
    LineFront(e.registered.ino, s);
    PathsBack(e.registered.ino, e.registered.path, e.resolved.ino, tail);
  }

  lemma BrokenInFirst(e: Entry, i: nat, more: string) returns (rest: string)
    requires AbsolutePaths(e) && i <= |e.registered.path| && EndsLine(e.registered.path[..i])
    ensures var first := "- " + Second(e.registered.ino, e.registered.path[..i]);
            Line(e) + more == first + rest && EndsLine(first) && ReadLine(first) != Some(e)
  {
    CutInFirst(e, e.registered.path[..i]);
    rest := TextCutInFirst(e, e.registered.path[..i], e.registered.path[i..], more);
  }

  lemma BrokenInSecond(e: Entry, i: nat, more: string) returns (rest: string)
    requires AbsolutePaths(e) && Lacks(e.registered.path, '\n')
    requires i <= |e.resolved.path| && EndsLine(e.resolved.path[..i])
    ensures var s := e.registered.path + ARROW + Second(e.resolved.ino, e.resolved.path[..i]);
            var first := "- " + Second(e.registered.ino, s);
            Line(e) + more == first + rest && EndsLine(first) && ReadLine(first) != Some(e)
  {
    CutInSecond(e, e.resolved.path[..i]);
    rest := TextCutInSecond(e, e.resolved.path[..i], e.resolved.path[i..], more);
  }

  /** The first line of a text that starts with an entry of more than one line is not read as that entry. */
  lemma BrokenLine(e: Entry, more: string) returns (first: string, rest: string)
    requires AbsolutePaths(e) && !OneLine(e)
    ensures Line(e) + more == first + rest && EndsLine(first) && ReadLine(first) != Some(e)
  {
    if !Lacks(e.registered.path, '\n') {
      var path := e.registered.path;
      var i := IndexOf(path, '\n') + 1;
      FrontEndsLine(path);
      rest := BrokenInFirst(e, i, more);
      first := "- " + Second(e.registered.ino, path[..i]);
    } else {
      var path := e.resolved.path;
      var i := IndexOf(path, '\n') + 1;
      FrontEndsLine(path);
      rest := BrokenInSecond(e, i, more);
      first := "- " + Second(e.registered.ino, e.registered.path + ARROW + Second(e.resolved.ino, path[..i]));
    }
  }

  lemma WholeLine(e: Entry)
    requires OneLine(e)
    ensures EndsLine(Line(e))
  {
    var tail := e.resolved.path + "\n";
    assert tail[..|tail| - 1] == e.resolved.path;
    SecondEndsLine(e.resolved.ino, tail);
    JoinEndsLine(e.registered.path + ARROW, Second(e.resolved.ino, tail));
    SecondEndsLine(e.registered.ino, e.registered.path + ARROW + Second(e.resolved.ino, tail));
    JoinEndsLine("- ", Second(e.registered.ino, e.registered.path + ARROW + Second(e.resolved.ino, tail)));
    LineSplit(e);
  }

  lemma {:induction false} LinesFront(reg: seq<Entry>)
    requires reg != []
    ensures Lines(reg) == Line(reg[0]) + Lines(reg[1..])
  {
    var last := |reg| - 1;
    if last == 0 {
      assert reg[..0] == [] && reg[1..] == [];
    } else {
      LinesFront(reg[..last]);
      var a, b, c := Line(reg[0]), Lines(reg[1..last]), Line(reg[last]);
      assert Lines(reg[..last]) == a + b by {
        assert reg[..last][1..] == reg[1..last];
      }
      assert Lines(reg[1..]) == b + c by {
        assert reg[1..][..last - 1] == reg[1..last];
      }
      Associative(a, b, c);
    }
  }

  lemma ReadFirst(text: string, first: string, rest: string)
    requires text == first + rest && EndsLine(first)
    ensures ReadListing(text) == if ReadLine(first).None? || ReadListing(rest).None? then None
                                 else Some([ReadLine(first).value] + ReadListing(rest).value)
  {
    FirstLine(first, rest);
  }

  ghost predicate AllAbsolute(reg: seq<Entry>) {
    forall i :: 0 <= i < |reg| ==> AbsolutePaths(reg[i])
  }

  ghost predicate AllLegible(reg: seq<Entry>) {
    forall i :: 0 <= i < |reg| ==> Legible(reg[i])
  }

  lemma LegibleFront(reg: seq<Entry>)
    requires reg != []
    ensures AllLegible(reg) <==> Legible(reg[0]) && AllLegible(reg[1..])
  {
    if Legible(reg[0]) && AllLegible(reg[1..]) {
      assert forall i :: 1 <= i < |reg| ==> reg[i] == reg[1..][i - 1];
    }
  }

  /**
   A reader gets all entries of a listing back exactly when no path has a newline and no first
   path the beginning of an arrow.
   */
  lemma {:induction false} ListingReadBack(reg: seq<Entry>)
    requires AllAbsolute(reg)
    ensures ReadListing(Lines(reg)) == Some(reg) <==> AllLegible(reg)
  {
    if reg != [] {
      var e, more := reg[0], Lines(reg[1..]);
      LinesFront(reg);
      LegibleFront(reg);
      if OneLine(e) {
        WholeLine(e);
        LineReadBack(e);
        ReadFirst(Lines(reg), Line(e), more);
        ListingReadBack(reg[1..]);
        Reassembled(reg, ReadLine(Line(e)), ReadListing(more));
      } else {
        var first, rest := BrokenLine(e, more);
        ReadFirst(Lines(reg), first, rest);
      }
    }
  }

  lemma Reassembled(reg: seq<Entry>, first: Option<Entry>, rest: Option<seq<Entry>>)
    requires reg != []
    ensures (first.Some? && rest.Some? && [first.value] + rest.value == reg)
       <==> first == Some(reg[0]) && rest == Some(reg[1..])
  {
    if first.Some? && rest.Some? && [first.value] + rest.value == reg {
      assert reg[0] == first.value && reg[1..] == rest.value;
    }
    assert [reg[0]] + reg[1..] == reg;
  }

  /** Reading the proc file with a large enough buffer and taking it apart gives the entries that fit the page. */
  method ReadRegistry(m: RefMonitor, count: nat) returns (text: string)
    requires m.Valid() && count >= PAGE_SIZE
    requires AllAbsolute(m.registry.Contents()) && AllLegible(m.registry.Contents())
    ensures exists n: nat ::
              LongestFitting(m.registry.Contents(), n) && ReadListing(text) == Some(m.registry.Contents()[..n])
  {
    text := ShowRegistry(m, count);
    ghost var reg := m.registry.Contents();
    ghost var n: nat :| LongestFitting(reg, n) && text == Delivered(reg[..n], count);
    ListingReadBack(reg[..n]);
  }
}
