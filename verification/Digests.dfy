/**
 Digests as text (misc/misc.c): hexadecimal encoding into a buffer, and the chunked hash of
 a file. SHA-256 itself is a parameter: a function of all the bytes fed to it.
 */
module Digests {
  import opened Wrappers

  /** unsigned char */
  newtype u8 = x: int | 0 <= x < 256

  function HexDigit(n: nat): (c: char)
    requires n < 16
    ensures c != '\0'
  {
    if n < 10 then '0' + n as char else 'a' + (n - 10) as char
  }

  lemma HexDigitInjective(m: nat, n: nat)
    requires m < 16 && n < 16 && HexDigit(m) == HexDigit(n)
    ensures m == n
  {
  }

  /** sprintf "%02x" */
  function HexByte(b: u8): (s: string)
    ensures |s| == 2
  {
    [HexDigit((b / 16) as nat), HexDigit((b % 16) as nat)]
  }

  /** The text of a digest. */
  function Hex(hash: seq<u8>): (s: string)
    ensures |s| == 2 * |hash|
  {
    if hash == [] then [] else Hex(hash[..|hash| - 1]) + HexByte(hash[|hash| - 1])
  }

  /** What a reader takes a hexadecimal digit for, 16 for any other character. */
  function HexValue(c: char): nat {
    if '0' <= c <= '9' then c as nat - '0' as nat
    else if 'a' <= c <= 'f' then c as nat - 'a' as nat + 10
    else 16
  }

  lemma HexDigitValue(n: nat)
    requires n < 16
    ensures HexValue(HexDigit(n)) == n
  {
  }

  /** A reader gets the digest back: byte i is written as two digits, the high one first. */
  lemma {:induction false} HexReadBack(hash: seq<u8>, i: nat)
    requires i < |hash|
    ensures var high, low := HexValue(Hex(hash)[2 * i]), HexValue(Hex(hash)[2 * i + 1]);
            high < 16 && low < 16 && 16 * high + low == hash[i] as nat
  {
    var last := |hash| - 1;
    if i < last {
      HexReadBack(hash[..last], i);
    } else {
      HexDigitValue((hash[last] / 16) as nat);
      HexDigitValue((hash[last] % 16) as nat);
    }
  }

  /** Different digests have different texts, so comparing the texts compares the digests. */
  lemma {:induction false} HexInjective(a: seq<u8>, b: seq<u8>)
    ensures Hex(a) == Hex(b) <==> a == b
  {
    if Hex(a) == Hex(b) && a != [] {
      var n := |a| - 1;
      var x, y := Hex(a[..n]), Hex(b[..n]);
      assert x == Hex(a)[..2 * n] && y == Hex(b)[..2 * n];
      HexInjective(a[..n], b[..n]);
      HexByteInjective(a[n], b[n], Hex(a)[2 * n..], Hex(b)[2 * n..]);
      assert a == a[..n] + [a[n]] && b == b[..n] + [b[n]];
    }
  }

  lemma HexByteInjective(a: u8, b: u8, s: string, t: string)
    requires s == HexByte(a) && t == HexByte(b) && s == t
    ensures a == b
  {
    assert HexByte(a)[0] == HexByte(b)[0] && HexByte(a)[1] == HexByte(b)[1];
    HexDigitInjective((a / 16) as nat, (b / 16) as nat);
    HexDigitInjective((a % 16) as nat, (b % 16) as nat);
  }

  /** sprintf into a buffer: the two digits and the terminator. */
  method SprintfByte(out: array<char>, at: nat, b: u8)
    requires at + 3 <= out.Length
    modifies out
    ensures out[..] == old(out[..at]) + HexByte(b) + "\0" + old(out[at + 3..])
  {
    var s := HexByte(b);
    out[at] := s[0];
    out[at + 1] := s[1];
    out[at + 2] := '\0';
  }

  /** hexconv: a buffer of 2n+1 characters is enough, and then holds the text and its terminator. */
  method HexConv(hash: seq<u8>, out: array<char>)
    requires out.Length == 2 * |hash| + 1
    modifies out
    ensures out[..] == Hex(hash) + "\0"
  {
    for i := 0 to |hash|
      invariant out[..2 * i] == Hex(hash[..i])
    {
      ghost var before := out[..2 * i];
      SprintfByte(out, i * 2, hash[i]);
      assert out[..2 * i] == before;
      assert out[2 * i..2 * (i + 1)] == HexByte(hash[i]);
      assert out[..2 * (i + 1)] == before + HexByte(hash[i]);
      assert hash[..i + 1][..i] == hash[..i];
    }
    assert hash[..|hash|] == hash;
    out[|hash| * 2] := '\0';
  }

  /** The encoding of a digest as a C string. */
  method DigestText(hash: seq<u8>) returns (text: string)
    ensures text == Hex(hash)
  {
    var out := new char[2 * |hash| + 1];
    HexConv(hash, out);
    assert out[..2 * |hash|] == Hex(hash);
    return out[..2 * |hash|];
  }

  /** hashgen_str, when the kernel calls in it succeed */
  method HashString(digest: string -> seq<u8>, str: string) returns (text: string)
    ensures text == Hex(digest(str))
  {
    text := DigestText(digest(str));
  }

  // ----- hashing a file

  const BUFFER_SIZE: nat := 4096

  /** What kernel_read answers when asked for BUFFER_SIZE bytes, and what the hash update then answers. */
  datatype Answer = Bytes(count: nat, updateError: int) | Error(code: int)

  /** A possible answer at offset off: an error, or some bytes that are there, none only at the end. */
  ghost predicate Plausible(a: Answer, content: string, off: nat) {
    match a
    case Error(code) => code < 0
    case Bytes(count, _) => count <= BUFFER_SIZE && off + count <= |content| && (count == 0 ==> off == |content|)
  }

  /** hashgen_filecont: the offset of the call decides what the reads answer. */
  ghost predicate ReadsFine(answers: nat -> Answer, content: string, off: nat)
    requires forall o: nat :: o <= |content| ==> Plausible(answers(o), content, o)
    requires off <= |content|
    decreases |content| - off
  {
    match answers(off)
    case Error(_) => false
    case Bytes(count, updateError) => count == 0 || (updateError == 0 && ReadsFine(answers, content, off + count))
  }

  /** The offset of the k-th read of the loop. */
  ghost function OffsetAt(answers: nat -> Answer, off: nat, k: nat): nat
    decreases k
  {
    if k == 0 then off else
      match answers(off)
      case Error(_) => off
      case Bytes(count, _) => OffsetAt(answers, off + count, k - 1)
  }

  predicate Taken(a: Answer) {
    a.Bytes? && a.count > 0 && a.updateError == 0
  }

  /** The first n reads give bytes that the hash takes, and the one after them finds the end of the file. */
  ghost predicate EndsAfter(answers: nat -> Answer, off: nat, n: nat) {
    && (forall k: nat :: k < n ==> Taken(answers(OffsetAt(answers, off, k))))
    && var a := answers(OffsetAt(answers, off, n)); a.Bytes? && a.count == 0
  }

  /** The loop succeeds exactly when no read and no update before the end of the file reports an error. */
  lemma {:induction false} ReadsFineExact(answers: nat -> Answer, content: string, off: nat)
    requires forall o: nat :: o <= |content| ==> Plausible(answers(o), content, o)
    requires off <= |content|
    ensures ReadsFine(answers, content, off) <==> exists n: nat :: EndsAfter(answers, off, n)
    decreases |content| - off
  {
    var a := answers(off);
    assert OffsetAt(answers, off, 0) == off;
    if a.Bytes? && a.count == 0 {
      assert EndsAfter(answers, off, 0);
    } else if a.Bytes? && a.updateError == 0 {
      var next := off + a.count;
      ReadsFineExact(answers, content, next);
      if n: nat :| EndsAfter(answers, next, n) {
        OneMoreRead(answers, off, n);
      }
      if n: nat :| EndsAfter(answers, off, n) {
        assert n > 0;
        OneMoreRead(answers, off, n - 1);
      }
    }
  }

  lemma OneMoreRead(answers: nat -> Answer, off: nat, n: nat)
    requires Taken(answers(off))
    ensures EndsAfter(answers, off, n + 1) <==> EndsAfter(answers, off + answers(off).count, n)
  {
    var next := off + answers(off).count;
    assert forall k: nat {:trigger OffsetAt(answers, next, k)} ::
        OffsetAt(answers, off, k + 1) == OffsetAt(answers, next, k);
    assert forall k: nat {:trigger OffsetAt(answers, off, k)} ::
        k > 0 ==> OffsetAt(answers, off, k) == OffsetAt(answers, next, k - 1);
  }

  /**
   The read/update loop ends and, whatever the sizes of the reads, gives the text of the digest
   of the whole content; it gives NULL exactly when the file cannot be opened or a hash or read call reports an error.
   */
  method HashFile(digest: string -> seq<u8>, content: string, initError: int, fileOpens: bool, answers: nat -> Answer,
                  finalError: int)
    returns (text: Option<string>)
    requires forall o: nat :: o <= |content| ==> Plausible(answers(o), content, o)
    ensures text == if initError == 0 && fileOpens && ReadsFine(answers, content, 0) && finalError == 0
                    then Some(Hex(digest(content))) else None
  {
    if initError != 0 {
      return None;
    }
    if !fileOpens {
      return None;
    }
    var fed, off := "", 0;
    while true
      invariant off <= |content| && fed == content[..off]
      invariant ReadsFine(answers, content, 0) == ReadsFine(answers, content, off)
      decreases |content| - off
    {
      match answers(off) {
        case Error(_) => return None;
        case Bytes(count, updateError) =>
          if count == 0 {
            break;
          }
          if updateError != 0 {
            return None;
          }
          fed := fed + content[off..off + count];
          off := off + count;
      }
    }
    assert fed == content;
    if finalError != 0 {
      return None;
    }
    var out := DigestText(digest(fed));
    return Some(out);
  }
}
