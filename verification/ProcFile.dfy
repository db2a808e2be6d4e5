/** The one-shot read protocol of the proc files (io/procio.c:96-106). */
module ProcFile {

  const PAGE_SIZE: nat := 4096

  /** One read of a proc file whose text is out: all of it at position 0, or nothing. */
  function ReadProc(out: string, count: nat, pos: nat): (r: (string, nat))
  {
    if pos > 0 || count < |out| then ([], pos) else (out, pos + |out|)
  }

  /** A reader that reads until it gets nothing has the whole text, if its buffer can hold it, or nothing. */
  method ReadProcToEof(out: string, count: nat) returns (text: string)
    ensures text == if |out| <= count then out else []
  {
    text := [];
    var pos := 0;
    while true
      invariant pos == 0 ==> text == []
      invariant pos > 0 ==> text == out && |out| <= count
      decreases pos == 0
    {
      var (chunk, next) := ReadProc(out, count, pos);
      if chunk == [] {
        break;
      }
      text := text + chunk;
      pos := next;
    }
  }
}
