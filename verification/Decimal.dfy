/**
 Decimal numbers as the C library prints and scans them: %d and %lu on the kernel side
 (io/procio.c, io/logio.c), fscanf with %d on the user side (user/user-utils.c).
 */
module Decimal {
  import opened Wrappers

  predicate IsDigit(c: char) {
    '0' <= c <= '9'
  }

  predicate IsSpace(c: char) {
    c == ' ' || '\t' <= c <= '\r'
  }

  function Digit(n: nat): (c: char)
    requires n < 10
    ensures IsDigit(c)
  {
    '0' + n as char
  }

  function DigitValue(c: char): nat
    requires IsDigit(c)
  {
    (c as int - '0' as int) as nat
  }

  /** %lu */
  function PrintNat(n: nat): (s: string)
    ensures s != [] && forall i :: 0 <= i < |s| ==> IsDigit(s[i])
  {
    if n < 10 then [Digit(n)] else PrintNat(n / 10) + [Digit(n % 10)]
  }

  /** %d */
  function PrintInt(n: int): string {
    if n < 0 then "-" + PrintNat(-n) else PrintNat(n)
  }

  lemma {:induction false} PrintNatLength(n: nat, k: nat, bound: nat)
    requires 0 < k && n < bound && bound == Pow10(k)
    ensures |PrintNat(n)| <= k
  {
    if n >= 10 {
      assert k > 1;
      PrintNatLength(n / 10, k - 1, Pow10(k - 1));
    }
  }

  function Pow10(k: nat): (p: nat)
    ensures p > 0
  {
    if k == 0 then 1 else 10 * Pow10(k - 1)
  }

  /** The decimal digit at place k of n, counted from the right. */
  function Place(n: nat, k: nat): (d: nat)
    ensures d < 10
  {
    n / Pow10(k) % 10
  }

  lemma NextPlace(n: nat, k: nat)
    requires k > 0
    ensures Place(n, k) == Place(n / 10, k - 1)
  {
    DivideTwice(n, Pow10(k - 1));
  }

  /** The characters are the decimal digits of n, the last place at the end. */
  lemma {:induction false} PrintNatPlaces(n: nat, k: nat)
    requires k < |PrintNat(n)|
    ensures PrintNat(n)[|PrintNat(n)| - 1 - k] == "0123456789"[Place(n, k)]
  {
    if k == 0 {
      assert Place(n, 0) == n % 10;
      DigitText(n % 10);
    } else {
      PrintNatPlaces(n / 10, k - 1);
      NextPlace(n, k);
      assert PrintNat(n)[|PrintNat(n)| - 1 - k] == PrintNat(n / 10)[|PrintNat(n / 10)| - 1 - (k - 1)];
    }
  }

  lemma DigitText(d: nat)
    requires d < 10
    ensures Digit(d) == "0123456789"[d]
  {
  }

  lemma DivideTwice(n: nat, p: nat)
    requires p > 0
    ensures n / 10 / p == n / (10 * p)
  {
    var q := n / 10 / p;
    assert p * q <= n / 10 < p * q + p;
    assert 10 * p * q <= n < 10 * p * q + 10 * p;
    QuotientUnique(n, 10 * p, q);
  }

  lemma QuotientUnique(n: nat, d: nat, q: nat)
    requires d > 0 && d * q <= n < d * q + d
    ensures n / d == q
  {
    var r := n / d;
    assert d * r <= n < d * r + d;
    if r < q {
      Multiples(d, r, q);
    } else if q < r {
      Multiples(d, q, r);
    }
  }

  lemma {:induction false} Multiples(d: nat, a: nat, b: nat)
    requires a < b
    ensures d * a + d <= d * b
  {
    assert d * b == d * (b - 1) + d;
    if a < b - 1 {
      Multiples(d, a, b - 1);
    }
  }

  /** There are no leading zeros. */
  lemma {:induction false} NoLeadingZero(n: nat)
    requires n > 0
    ensures PrintNat(n)[0] != '0'
  {
    if n >= 10 {
      NoLeadingZero(n / 10);
    }
  }

  /** The range of a 32-bit int. */
  predicate IsInt32(n: int) {
    -0x8000_0000 <= n < 0x8000_0000
  }

  lemma PrintIntLength(n: int)
    requires IsInt32(n)
    ensures |PrintInt(n)| <= 11
  {
    assert Pow10(10) == 10_000_000_000 by {
      assert Pow10(5) == 100_000;
    }
    PrintNatLength(if n < 0 then -n else n, 10, Pow10(10));
  }

  // ----- scanning

  function SkipSpace(s: string): (r: string)
    ensures |r| <= |s|
    ensures r != [] ==> !IsSpace(r[0])
  {
    if s != [] && IsSpace(s[0]) then SkipSpace(s[1..]) else s
  }

  /** Digits at the front of s, with the value read so far, and what follows them. */
  function ScanDigits(s: string, acc: nat): (r: (nat, string))
    ensures |r.1| <= |s|
  {
    if s != [] && IsDigit(s[0]) then ScanDigits(s[1..], 10 * acc + DigitValue(s[0])) else (acc, s)
  }

  /** fscanf "%d\n": blanks, an optional sign, at least one digit, then blanks. */
  function ScanInt(s: string): Option<(int, string)> {
    var t := SkipSpace(s);
    var negative := t != [] && t[0] == '-';
    var u := if t != [] && (t[0] == '-' || t[0] == '+') then t[1..] else t;
    if u == [] || !IsDigit(u[0]) then None else
      var (n, rest) := ScanDigits(u, 0);
      var sign := if negative then -1 else 1;
      Some((sign * n, SkipSpace(rest)))
  }

  predicate StartsWithDigit(s: string) {
    s != [] && IsDigit(s[0])
  }

  lemma {:induction false} ScanSnoc(s: string, c: char, rest: string, acc: nat)
    requires forall i :: 0 <= i < |s| ==> IsDigit(s[i])
    requires IsDigit(c) && !StartsWithDigit(rest)
    ensures ScanDigits(s + [c] + rest, acc) == (10 * ScanDigits(s, acc).0 + DigitValue(c), rest)
  {
    var t := s + [c] + rest;
    if s == [] {
      assert t[1..] == rest;
    } else {
      assert t[1..] == s[1..] + [c] + rest;
      ScanSnoc(s[1..], c, rest, 10 * acc + DigitValue(s[0]));
    }
  }

  lemma {:induction false} ScanPrintNat(n: nat, rest: string)
    requires !StartsWithDigit(rest)
    ensures ScanDigits(PrintNat(n) + rest, 0) == (n, rest)
  {
    if n < 10 {
      ScanSnoc([], Digit(n), rest, 0);
      assert [] + [Digit(n)] + rest == PrintNat(n) + rest;
    } else {
      ScanPrintNat(n / 10, []);
      assert PrintNat(n / 10) + [] == PrintNat(n / 10);
      ScanSnoc(PrintNat(n / 10), Digit(n % 10), rest, 0);
    }
  }

  lemma SignedFront(n: int, rest: string)
    ensures var s := PrintInt(n) + rest;
            && s != [] && !IsSpace(s[0]) && SkipSpace(s) == s
            && (n < 0 ==> s[0] == '-' && s[1..] == PrintNat(-n) + rest)
            && (n >= 0 ==> IsDigit(s[0]) && s == PrintNat(n) + rest)
  {
    if n < 0 {
      assert (PrintInt(n) + rest)[1..] == PrintNat(-n) + rest;
    }
  }

  /** Scanning what %d printed gives the number back, for every int, whatever blanks follow. */
  lemma ScanPrintInt(n: int, rest: string)
    requires !StartsWithDigit(rest)
    ensures ScanInt(PrintInt(n) + rest) == Some((n, SkipSpace(rest)))
  {
    SignedFront(n, rest);
    ScanPrintNat(if n < 0 then -n else n, rest);
  }

  /** A text that fscanf does not shorten at its front. */
  predicate StartsPlain(s: string) {
    s != [] ==> !IsSpace(s[0])
  }
}
