/** Bounded printing into a character buffer, as snprintf does it, and strlen. */
module CStrings {

  const NUL: char := '\0'

  /**
   snprintf of an already formatted text into size characters from position at on: the text as
   far as it fits before a terminator, and its full length as the result. Nothing outside those
   size characters is written.
   */
  method Snprintf(out: array<char>, at: nat, size: nat, text: string) returns (ret: nat)
    requires 0 < size && at + size <= out.Length
    modifies out
    ensures ret == |text|
    ensures out[..at] == old(out[..at]) && out[at + size..] == old(out[at + size..])
    ensures var kept := if |text| < size then |text| else size - 1;
            out[at..at + kept] == text[..kept] && out[at + kept] == NUL
  {
    var kept := if |text| < size then |text| else size - 1;
    forall k | 0 <= k < kept {
      out[at + k] := text[k];
    }
    out[at + kept] := NUL;
    ret := |text|;
  }

  /** strlen of a terminated buffer */
  method Strlen(buf: array<char>, ghost end: nat) returns (n: nat)
    requires end < buf.Length && buf[end] == NUL && forall k :: 0 <= k < end ==> buf[k] != NUL
    ensures n == end
  {
    n := 0;
    while buf[n] != NUL
      invariant n <= end
      decreases end - n
    {
      n := n + 1;
    }
  }

  predicate Lacks(s: string, c: char) {
    forall i :: 0 <= i < |s| ==> s[i] != c
  }

  /** The position of the first c, or the length: strchr. */
  function IndexOf(s: string, c: char): (i: nat)
    ensures i <= |s| && (i < |s| ==> s[i] == c)
    ensures forall j :: 0 <= j < i ==> s[j] != c
    ensures i == |s| <==> Lacks(s, c)
  {
    if s == [] || s[0] == c then 0 else 1 + IndexOf(s[1..], c)
  }
}
