/**
 From a command of the user tool to its handler: the kernel prints the acquired table indices
 to a proc file (io/procio.c:68-106), the tool parses them (user/user-utils.c:8-26) and uses
 the one at its command's place as a system call number.
 */
module Dispatch {
  import opened Decimal
  import opened Errno
  import opened ProcFile
  import opened SyscallTable
  import opened Wrappers

  const SC_NO: nat := 4

  // ----- the listing and its parser

  /** snprintf "%d\n%d\n%d\n%d\n" */
  function CodeListing(c: Codes): string {
    PrintInt(c.setState) + "\n" + PrintInt(c.reconfAdd) + "\n" + PrintInt(c.reconfRm) + "\n" + PrintInt(c.flush) + "\n"
  }

  /** The listing always fits the page buffer. */
  lemma CodeListingFits(c: Codes)
    requires forall i :: 0 <= i < SC_NO ==> IsInt32(CodeSeq(c)[i])
    ensures |CodeListing(c)| <= 48 < PAGE_SIZE
  {
    forall i | 0 <= i < SC_NO
      ensures |PrintInt(CodeSeq(c)[i])| <= 11
    {
      PrintIntLength(CodeSeq(c)[i]);
    }
    assert |PrintInt(c.setState)| <= 11 by { assert c.setState == CodeSeq(c)[0]; }
    assert |PrintInt(c.reconfAdd)| <= 11 by { assert c.reconfAdd == CodeSeq(c)[1]; }
    assert |PrintInt(c.reconfRm)| <= 11 by { assert c.reconfRm == CodeSeq(c)[2]; }
    assert |PrintInt(c.flush)| <= 11 by { assert c.flush == CodeSeq(c)[3]; }
  }

  /** The lines of the codes from the i-th on. */
  function Lines(codes: seq<int>): string {
    if codes == [] then [] else PrintInt(codes[0]) + "\n" + Lines(codes[1..])
  }

  lemma ListingIsLines(c: Codes)
    ensures CodeListing(c) == Lines(CodeSeq(c))
  {
    var s := CodeSeq(c);
    assert s[1..] == [c.reconfAdd, c.reconfRm, c.flush];
    assert s[1..][1..] == [c.reconfRm, c.flush];
    assert s[1..][1..][1..] == [c.flush];
    assert Lines([c.flush]) == PrintInt(c.flush) + "\n";
    assert Lines([c.reconfRm, c.flush]) == PrintInt(c.reconfRm) + "\n" + Lines([c.flush]);
    assert Lines(s[1..]) == PrintInt(c.reconfAdd) + "\n" + Lines([c.reconfRm, c.flush]);
  }

  lemma LinesFront(codes: seq<int>)
    ensures codes != [] ==> Lines(codes) != [] && !IsSpace(Lines(codes)[0])
  {
    if codes != [] {
      var rest := "\n" + Lines(codes[1..]);
      SignedFront(codes[0], rest);
      assert Lines(codes) == PrintInt(codes[0]) + rest;
    }
  }

  lemma SkipNewline(s: string)
    requires s != [] ==> !IsSpace(s[0])
    ensures SkipSpace("\n" + s) == s
  {
    assert ("\n" + s)[1..] == s;
  }

  /** One fscanf call takes exactly the first line. */
  lemma ScanLine(codes: seq<int>)
    requires codes != []
    ensures ScanInt(Lines(codes)) == Some((codes[0], Lines(codes[1..])))
  {
    var rest := "\n" + Lines(codes[1..]);
    assert Lines(codes) == PrintInt(codes[0]) + rest;
    ScanPrintInt(codes[0], rest);
    LinesFront(codes[1..]);
    SkipNewline(Lines(codes[1..]));
  }

  /** The first k numbers of a stream, if it has so many. */
  function ScanCodes(stream: string, k: nat): (r: Option<seq<int>>)
    ensures r.Some? ==> |r.value| == k
    decreases k
  {
    if k == 0 then Some([]) else
      match ScanInt(stream)
      case None => None
      case Some((value, rest)) => Prepend([value], ScanCodes(rest, k - 1))
  }

  function Prepend(front: seq<int>, back: Option<seq<int>>): (r: Option<seq<int>>)
    ensures r.Some? <==> back.Some?
    ensures r.Some? ==> r.value == front + back.value
    ensures front == [] ==> r == back
  {
    if back.None? then None else
      assert front == [] ==> front + back.value == back.value;
      Some(front + back.value)
  }

  /** Round trip: scanning the printed codes gives them back. */
  lemma {:induction false} ScanPrinted(codes: seq<int>)
    ensures ScanCodes(Lines(codes), |codes|) == Some(codes)
  {
    if codes != [] {
      ScanLine(codes);
      ScanPrinted(codes[1..]);
      assert [codes[0]] + codes[1..] == codes;
    }
  }

  lemma PrependSnoc(front: seq<int>, v: int, back: Option<seq<int>>)
    ensures Prepend(front, Prepend([v], back)) == Prepend(front + [v], back)
  {
    if back.Some? {
      assert front + ([v] + back.value) == front + [v] + back.value;
    }
  }

  /** get_syscall_index, with None for a file that cannot be opened and its text otherwise. */
  method GetSyscallIndex(source: Option<string>, index: nat) returns (code: int)
    requires index < SC_NO
    ensures source.None? ==> code == -1
    ensures source.Some? ==>
              code == match ScanCodes(source.value, SC_NO) case None => -EINVAL case Some(all) => all[index]
  {
    if source.None? {
      return -1;
    }
    var file := source.value;
    var codes := new int[SC_NO](_ => 0);
    var stream := file;
    for i := 0 to SC_NO
      invariant ScanCodes(file, SC_NO) == Prepend(codes[..i], ScanCodes(stream, SC_NO - i))
    {
      match ScanInt(stream) {
        case None => return -EINVAL;
        case Some((value, rest)) =>
          PrependSnoc(codes[..i], value, ScanCodes(rest, SC_NO - i - 1));
          codes[i] := value;
          stream := rest;
          assert codes[..i + 1] == codes[..i] + [value];
      }
    }
    return codes[index];
  }

  /** The commands of the user tool. */
  datatype Command = SetState | ReconfAdd | ReconfRm | Flush

  /** SC_ORDER_...: the place of a command's code in the listing. */
  function Order(c: Command): (order: nat)
    ensures order < SC_NO
  {
    match c
    case SetState => 0
    case ReconfAdd => 1
    case ReconfRm => 2
    case Flush => 3
  }

  /**
   End to end: once the calls are installed, the number that the tool reads for its command is
   a table index at which that command's call sits.
   */
  method Reach(sys: Syscalls, command: Command, count: nat) returns (code: int)
    requires sys.Installed()
    requires count >= 48
    ensures 0 <= code < sys.table.Length
    ensures sys.table[code] == match command
                               case SetState => sys.setState
                               case ReconfAdd => sys.reconfAdd
                               case ReconfRm => sys.reconfRm
                               case Flush => sys.flush
  {
    var listing := CodeListing(sys.codes);
    assert forall i :: 0 <= i < SC_NO ==> CodeSeq(sys.codes)[i] == sys.restore[..][i];
    CodeListingFits(sys.codes);
    var file := ReadProcToEof(listing, count);
    ListingIsLines(sys.codes);
    ScanPrinted(CodeSeq(sys.codes));
    code := GetSyscallIndex(Some(file), Order(command));
  }
}
