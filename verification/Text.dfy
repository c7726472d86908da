/**
 Text as the C library produces it: decimal and hexadecimal conversions, C strings in
 buffers, and the part of `snprintf` the programs rely on. Characters of formatted text
 are `char`; opaque message bytes are `byte`.
 */
module Text {

  datatype Option<+T> = None | Some(value: T)

  type byte = x: int | 0 <= x < 256

  const NUL: char := '\0'

  function Min(a: int, b: int): int {
    if a <= b then a else b
  }

  // ----- decimal -----

  predicate IsDigit(c: char) {
    '0' <= c <= '9'
  }

  function DigitChar(d: nat): (c: char)
    requires d < 10
    ensures IsDigit(c) && DigitValue(c) == d
  {
    ('0' as int + d) as char
  }

  function DigitValue(c: char): nat
    requires IsDigit(c)
  {
    c as int - '0' as int
  }

  /** `%u` and `%lu`. */
  function Decimal(n: nat): (s: string)
    ensures |s| >= 1
    ensures forall i | 0 <= i < |s| :: IsDigit(s[i])
  {
    if n < 10 then [DigitChar(n)] else Decimal(n / 10) + [DigitChar(n % 10)]
  }

  /** `%d`, `%i` and `%ld`. */
  function Signed(i: int): (s: string)
    ensures |s| >= 1
  {
    if i < 0 then "-" + Decimal(-i) else Decimal(i)
  }

  /** The number a string of digits denotes. */
  function Value(s: string): nat
    requires forall i | 0 <= i < |s| :: IsDigit(s[i])
  {
    if s == "" then 0
    else 10 * Value(s[..|s| - 1]) + DigitValue(s[|s| - 1])
  }

  lemma {:induction false} DecimalValue(n: nat)
    ensures Value(Decimal(n)) == n
  {
    if n >= 10 {
      DecimalValue(n / 10);
      assert Decimal(n)[..|Decimal(n)| - 1] == Decimal(n / 10);
    } else {
      assert Decimal(n)[..0] == "";
    }
  }

  /** Length of the longest prefix of digits. */
  function DigitRun(s: string): (k: nat)
    ensures k <= |s|
    ensures forall i | 0 <= i < k :: IsDigit(s[i])
    ensures k < |s| ==> !IsDigit(s[k])
  {
    if s == "" || !IsDigit(s[0]) then 0 else 1 + DigitRun(s[1..])
  }

  function ParseNat(s: string): Option<(nat, string)> {
    var k := DigitRun(s);
    if k == 0 then None else Some((Value(s[..k]), s[k..]))
  }

  function ParseInt(s: string): Option<(int, string)> {
    var negative := s != "" && s[0] == '-';
    match ParseNat(if negative then s[1..] else s)
    case None => None
    case Some(p) => Some((if negative then -(p.0 as int) else p.0, p.1))
  }

  predicate NoDigitAhead(rest: string) {
    rest == "" || !IsDigit(rest[0])
  }

  lemma ParseDecimal(n: nat, rest: string)
    requires NoDigitAhead(rest)
    ensures ParseNat(Decimal(n) + rest) == Some((n, rest))
  {
    var d := Decimal(n);
    var s := d + rest;
    var k := DigitRun(s);
    assert forall i | 0 <= i < |d| :: s[i] == d[i];
    assert k >= |d|;
    assert rest != "" ==> s[|d|] == rest[0];
    assert s[..k] == d && s[k..] == rest;
    DecimalValue(n);
  }

  lemma ParseSigned(i: int, rest: string)
    requires NoDigitAhead(rest)
    ensures ParseInt(Signed(i) + rest) == Some((i, rest))
  {
    if i < 0 {
      ParseDecimal(-i, rest);
      SignAhead(Decimal(-i), rest);
    } else {
      ParseDecimal(i, rest);
      assert IsDigit(Decimal(i)[0]);
    }
  }

  lemma SignAhead(digits: string, rest: string)
    ensures (("-" + digits) + rest)[1..] == digits + rest
  {
  }

  // ----- hexadecimal -----

  function HexDigit(d: nat): char
    requires d < 16
  {
    if d < 10 then ('0' as int + d) as char else ('A' as int + d - 10) as char
  }

  function HexDigitValue(c: char): Option<nat> {
    if '0' <= c <= '9' then Some(c as int - '0' as int)
    else if 'A' <= c <= 'F' then Some(c as int - 'A' as int + 10)
    else None
  }

  /** `%02X`. */
  function Hex(b: byte): (s: string)
    ensures |s| == 2
  {
    [HexDigit(b / 16), HexDigit(b % 16)]
  }

  function HexValue(hi: char, lo: char): (r: Option<byte>)
  {
    match (HexDigitValue(hi), HexDigitValue(lo))
    case (Some(h), Some(l)) => if h < 16 && l < 16 then Some(16 * h + l) else None
    case _ => None
  }

  lemma HexRoundTrip(b: byte)
    ensures HexValue(Hex(b)[0], Hex(b)[1]) == Some(b)
  {
    assert HexDigitValue(HexDigit(b / 16)) == Some(b / 16);
    assert HexDigitValue(HexDigit(b % 16)) == Some(b % 16);
  }

  /** Consecutive `%02X` conversions, one per byte. */
  function HexString(bytes: seq<byte>): (s: string)
    ensures |s| == 2 * |bytes|
  {
    if bytes == [] then "" else HexString(bytes[..|bytes| - 1]) + Hex(bytes[|bytes| - 1])
  }

  function HexDecode(s: string): Option<seq<byte>> {
    if s == "" then Some([])
    else if |s| == 1 then None
    else
      match (HexDecode(s[..|s| - 2]), HexValue(s[|s| - 2], s[|s| - 1]))
      case (Some(front), Some(b)) => Some(front + [b])
      case _ => None
  }

  lemma {:induction false} HexStringRoundTrip(bytes: seq<byte>)
    ensures HexDecode(HexString(bytes)) == Some(bytes)
  {
    if bytes == [] {
    } else {
      var front, last := bytes[..|bytes| - 1], bytes[|bytes| - 1];
      var s := HexString(bytes);
      HexStringRoundTrip(front);
      HexRoundTrip(last);
      assert s[..|s| - 2] == HexString(front);
      assert s[|s| - 2] == Hex(last)[0] && s[|s| - 1] == Hex(last)[1];
      assert bytes == front + [last];
    }
  }

  // ----- C strings and snprintf -----

  /** The C string at the start of `s`: everything before the first NUL. */
  function CString(s: string): (r: string)
    ensures r <= s && NUL !in r
    ensures |r| < |s| ==> s[|r|] == NUL
  {
    if s == "" || s[0] == NUL then "" else [s[0]] + CString(s[1..])
  }

  /** The C string of a buffer, found by scanning for the first NUL. */
  lemma CStringScan(s: string, n: nat)
    requires n <= |s| && (forall i | 0 <= i < n :: s[i] != NUL) && (n < |s| ==> s[n] == NUL)
    ensures CString(s) == s[..n]
  {
    var r := CString(s);
    assert forall i | 0 <= i < |r| :: r[i] == s[i] && r[i] != NUL;
  }

  lemma {:induction false} CStringOfTerminated(text: string, tail: string)
    requires NUL !in text
    ensures CString(text + [NUL] + tail) == text
  {
    if text == "" {
    } else {
      CStringOfTerminated(text[1..], tail);
      assert (text + [NUL] + tail)[1..] == text[1..] + [NUL] + tail;
    }
  }

  method Strlen(s: array<char>) returns (n: nat)
    ensures n <= s.Length && CString(s[..]) == s[..n]
  {
    n := 0;
    while n < s.Length && s[n] != NUL
      invariant n <= s.Length && forall i | 0 <= i < n :: s[i] != NUL
    {
      n := n + 1;
    }
    CStringScan(s[..], n);
  }

  /**
   `snprintf(dst + at, n, ...)` whose formatted output is `text`. With n > 0 it stores the
   first n - 1 characters at most and a NUL; with n == 0 it stores nothing. It always
   returns the untruncated length.
   */
  method Snprintf(dst: array<char>, at: nat, n: nat, text: string) returns (len: nat)
    requires n > 0 ==> at + n <= dst.Length
    modifies dst
    ensures len == |text|
    ensures n == 0 ==> dst[..] == old(dst[..])
    ensures n > 0 ==>
              var k := Min(|text|, n - 1);
              dst[..] == old(dst[..at]) + text[..k] + [NUL] + old(dst[at + k + 1..])
  {
    len := |text|;
    if n > 0 {
      var k := Min(|text|, n - 1);
      forall i | 0 <= i < k {
        dst[at + i] := text[i];
      }
      dst[at + k] := NUL;
    }
  }

  /**
   `snprintf(dst + strpos, limit - strpos + 1, ...)` behind a text of `strpos` characters:
   the buffer then starts with the longer text, cut at `limit`.
   */
  lemma AppendCut(before: string, after: string, done: string, text: string, limit: nat)
    requires |done| <= limit < |before|
    requires before[..|done|] == done
    requires var k := Min(|text|, limit - |done|);
             after == before[..|done|] + text[..k] + [NUL] + before[|done| + k + 1..]
    ensures var end := Min(|done + text|, limit);
            |after| == |before| && after[..end] == (done + text)[..end]
  {
    var k := Min(|text|, limit - |done|);
    assert after[..|done| + k] == done + text[..k];
  }
}
