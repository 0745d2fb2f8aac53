/**
  * The string and byte helpers of Go's standard library that the client relies on:
  * strconv.Itoa and strconv.Atoi (decimal text), fmt's "%x" on a byte slice (lower-case hex),
  * bytes.HasSuffix, bytes.TrimSpace, strings.Split and strings.Join.
  */
module Text {
  import opened Wrappers

  type byte = x: int | 0 <= x < 256

  // ---------------------------------------------------------------------------
  // Decimal text (strconv.Itoa, strconv.Atoi on a run of digits)
  // ---------------------------------------------------------------------------

  predicate IsDigit(c: char) {
    '0' <= c <= '9'
  }

  predicate AllDigits(s: string) {
    forall i :: 0 <= i < |s| ==> IsDigit(s[i])
  }

  function DigitChar(d: nat): (c: char)
    requires d < 10
    ensures IsDigit(c)
  {
    (('0' as int) + d) as char
  }

  function DigitValue(c: char): (d: nat)
    requires IsDigit(c)
    ensures d < 10 && DigitChar(d) == c
  {
    (c as int) - ('0' as int)
  }

  /** strconv.Itoa for a non-negative value: the digits, most significant first, without padding. */
  function Decimal(n: nat): (s: string)
    ensures |s| >= 1 && AllDigits(s)
    ensures |s| > 1 ==> s[0] != '0'
    decreases n
  {
    if n < 10 then [DigitChar(n)] else Decimal(n / 10) + [DigitChar(n % 10)]
  }

  /** The value of a run of decimal digits, as strconv.Atoi reads it (without its 64-bit range check). */
  function DecimalValue(s: string): nat
    requires AllDigits(s)
    decreases |s|
  {
    if s == [] then 0 else DecimalValue(s[..|s| - 1]) * 10 + DigitValue(s[|s| - 1])
  }

  /** Reading back the decimal rendering of n gives n. */
  lemma {:induction false} DecimalRoundTrip(n: nat)
    ensures DecimalValue(Decimal(n)) == n
  {
    var s := Decimal(n);
    if n >= 10 {
      DecimalRoundTrip(n / 10);
      assert s[..|s| - 1] == Decimal(n / 10);
    }
  }

  /** The decimal rendering is injective. */
  lemma DecimalInjective(m: nat, n: nat)
    requires Decimal(m) == Decimal(n)
    ensures m == n
  {
    DecimalRoundTrip(m);
    DecimalRoundTrip(n);
  }

  function Pow10(k: nat): (p: nat)
    ensures p >= 1
  {
    if k == 0 then 1 else 10 * Pow10(k - 1)
  }

  /** A value below 10^k has at most k digits. */
  lemma {:induction false} DecimalLength(n: nat, k: nat)
    requires 1 <= k && n < Pow10(k)
    ensures |Decimal(n)| <= k
  {
    if n >= 10 {
      DecimalLength(n / 10, k - 1);
    }
  }

  /** strconv.Itoa on a Go int, sign included. */
  function Itoa(i: int): (s: string)
    ensures i >= 0 ==> s == Decimal(i)
    ensures i < 0 ==> s == "-" + Decimal(-i)
  {
    if i < 0 then "-" + Decimal(-i) else Decimal(i)
  }

  /** The length of the longest run of digits in s starting at position i. */
  function DigitRun(s: string, i: nat): (k: nat)
    requires i <= |s|
    ensures i + k <= |s|
    ensures forall j :: i <= j < i + k ==> IsDigit(s[j])
    ensures i + k == |s| || !IsDigit(s[i + k])
    decreases |s| - i
  {
    if i < |s| && IsDigit(s[i]) then 1 + DigitRun(s, i + 1) else 0
  }

  // ---------------------------------------------------------------------------
  // Lower-case hex ("%x" on a byte slice)
  // ---------------------------------------------------------------------------

  predicate IsLowerHex(c: char) {
    '0' <= c <= '9' || 'a' <= c <= 'f'
  }

  function HexDigit(d: nat): (c: char)
    requires d < 16
    ensures IsLowerHex(c)
  {
    if d < 10 then (('0' as int) + d) as char else (('a' as int) + d - 10) as char
  }

  function HexValue(c: char): (d: nat)
    requires IsLowerHex(c)
    ensures d < 16 && HexDigit(d) == c
  {
    if c <= '9' then (c as int) - ('0' as int) else (c as int) - ('a' as int) + 10
  }

  /** fmt.Sprintf("%x", b): two lower-case hex digits per byte, high nibble first. */
  function LowerHex(b: seq<byte>): (s: string)
    ensures |s| == 2 * |b|
    ensures forall i :: 0 <= i < |s| ==> IsLowerHex(s[i])
  {
    if b == [] then [] else [HexDigit(b[0] / 16), HexDigit(b[0] % 16)] + LowerHex(b[1..])
  }

  /** The inverse of LowerHex: None on an odd length or a character outside [0-9a-f]. */
  function ParseHex(s: string): Option<seq<byte>>
    decreases |s|
  {
    if s == [] then Some([])
    else if |s| == 1 || !IsLowerHex(s[0]) || !IsLowerHex(s[1]) then None
    else
      match ParseHex(s[2..])
      case None => None
      case Some(rest) => Some([(HexValue(s[0]) * 16 + HexValue(s[1])) as byte] + rest)
  }

  lemma {:induction false} HexRoundTrip(b: seq<byte>)
    ensures ParseHex(LowerHex(b)) == Some(b)
  {
    if b != [] {
      var s := LowerHex(b);
      assert s[2..] == LowerHex(b[1..]);
      HexRoundTrip(b[1..]);
      assert HexValue(s[0]) == b[0] / 16 && HexValue(s[1]) == b[0] % 16;
      assert [b[0]] + b[1..] == b;
    }
  }

  /** Equal hex renderings come from equal byte strings. */
  lemma LowerHexInjective(a: seq<byte>, b: seq<byte>)
    requires LowerHex(a) == LowerHex(b)
    ensures a == b
  {
    HexRoundTrip(a);
    HexRoundTrip(b);
  }

  // ---------------------------------------------------------------------------
  // Searching, splitting, joining, trimming
  // ---------------------------------------------------------------------------

  /** bytes.HasSuffix. */
  predicate EndsWith(s: string, suffix: string) {
    |suffix| <= |s| && s[|s| - |suffix|..] == suffix
  }

  /** The index of the first c in s, or |s| when there is none. */
  function IndexOf(s: string, c: char): (i: nat)
    ensures i <= |s|
    ensures i < |s| ==> s[i] == c
    ensures forall j :: 0 <= j < i ==> s[j] != c
    ensures i == |s| <==> c !in s
  {
    if s == [] then 0 else if s[0] == c then 0 else 1 + IndexOf(s[1..], c)
  }

  /** strings.Join. */
  function Join(parts: seq<string>, sep: string): string {
    if parts == [] then ""
    else if |parts| == 1 then parts[0]
    else parts[0] + sep + Join(parts[1..], sep)
  }

  /** Joining n pieces with a separator costs n - 1 separators. */
  lemma {:induction false} JoinLength(parts: seq<string>, sep: string, total: nat)
    requires |parts| >= 1
    requires total == SumLengths(parts)
    ensures |Join(parts, sep)| == total + (|parts| - 1) * |sep|
  {
    if |parts| > 1 {
      JoinLength(parts[1..], sep, SumLengths(parts[1..]));
    }
  }

  function SumLengths(parts: seq<string>): nat {
    if parts == [] then 0 else |parts[0]| + SumLengths(parts[1..])
  }

  /** Appending a piece to a non-empty list appends the separator and the piece to the joined text. */
  lemma {:induction false} JoinAppend(parts: seq<string>, x: string, sep: string)
    requires parts != [] || sep == ""
    ensures Join(parts + [x], sep) == Join(parts, sep) + sep + x
  {
    if |parts| > 1 {
      assert (parts + [x])[1..] == parts[1..] + [x];
      JoinAppend(parts[1..], x, sep);
    }
  }

  /** unicode.IsSpace, which bytes.TrimSpace uses on the decoded text. */
  predicate IsSpace(c: char) {
    var n := c as int;
    n == 0x09 || n == 0x0A || n == 0x0B || n == 0x0C || n == 0x0D || n == 0x20 ||
    n == 0x85 || n == 0xA0 || n == 0x1680 || (0x2000 <= n <= 0x200A) ||
    n == 0x2028 || n == 0x2029 || n == 0x202F || n == 0x205F || n == 0x3000
  }

  /** s without its leading white space: a suffix of s, all of whose dropped characters are spaces. */
  function TrimLeft(s: string): (r: string)
    ensures |r| <= |s| && r == s[|s| - |r|..]
    ensures r == [] || !IsSpace(r[0])
    ensures forall i :: 0 <= i < |s| - |r| ==> IsSpace(s[i])
  {
    if s != [] && IsSpace(s[0]) then TrimLeft(s[1..]) else s
  }

  /** s without its trailing white space: a prefix of s, all of whose dropped characters are spaces. */
  function TrimRight(s: string): (r: string)
    ensures |r| <= |s| && r == s[..|r|]
    ensures r == [] || !IsSpace(r[|r| - 1])
    ensures forall i :: |r| <= i < |s| ==> IsSpace(s[i])
  {
    if s != [] && IsSpace(s[|s| - 1]) then TrimRight(s[..|s| - 1]) else s
  }

  /** bytes.TrimSpace. */
  function TrimSpace(s: string): string {
    TrimRight(TrimLeft(s))
  }

  /** Trimming keeps exactly the characters between the first and the last non-space character. */
  lemma TrimSpaceKeepsCore(pre: string, core: string, post: string)
    requires forall i :: 0 <= i < |pre| ==> IsSpace(pre[i])
    requires forall i :: 0 <= i < |post| ==> IsSpace(post[i])
    requires core != [] && !IsSpace(core[0]) && !IsSpace(core[|core| - 1])
    ensures TrimSpace(pre + core + post) == core
  {
    var s := pre + core + post;
    var l := TrimLeft(s);
    assert !IsSpace(s[|pre|]);
    assert |s| - |l| <= |pre|;
    assert l[0] == s[|s| - |l|];
    assert |s| - |l| == |pre|;
    assert l == core + post;
    var r := TrimRight(l);
    assert !IsSpace(l[|core| - 1]);
    assert |r| >= |core|;
    assert r[|r| - 1] == l[|r| - 1];
    assert |r| == |core|;
  }
}
