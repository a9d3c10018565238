/** The .NET string and number operations the controllers and services rely on, and
    PostgreSQL's LPAD, stated over `string`, a sequence of Unicode scalar values. */
module DotNetText {
  import opened Wrappers

  const Int32Min: int := -0x8000_0000
  const Int32Max: int := 0x7fff_ffff

  /** C#'s `int`. */
  type Int32 = x: int | Int32Min <= x <= Int32Max

  /** `unchecked` int addition: the mathematical value wrapped into 32 bits. */
  function Wrap32(x: int): (r: Int32)
    ensures Int32Min <= x <= Int32Max ==> r == x
    ensures (r - x) % 0x1_0000_0000 == 0
    ensures Int32Max < x <= Int32Max + 0x1_0000_0000 ==> r == x - 0x1_0000_0000
  {
    (x - Int32Min) % 0x1_0000_0000 + Int32Min
  }

  // ---------------------------------------------------------------- whitespace

  /** `Char.IsWhiteSpace`: the Unicode space, line and paragraph separators, U+0009..U+000D and U+0085. */
  predicate IsWhiteSpace(c: char) {
    c == ' ' || '\t' <= c <= '\r' || c == '\U{0085}' || c == '\U{00A0}' || c == '\U{1680}' ||
    '\U{2000}' <= c <= '\U{200A}' || c == '\U{2028}' || c == '\U{2029}' || c == '\U{202F}' ||
    c == '\U{205F}' || c == '\U{3000}'
  }

  /** `string.IsNullOrWhiteSpace`; `None` is the null reference. */
  predicate IsNullOrWhiteSpace(s: Option<string>) {
    s.None? || forall i :: 0 <= i < |s.value| ==> IsWhiteSpace(s.value[i])
  }

  // ---------------------------------------------------------------- padding

  function Repeat(c: char, n: nat): (r: string)
    ensures |r| == n && forall i :: 0 <= i < n ==> r[i] == c
  {
    if n == 0 then [] else [c] + Repeat(c, n - 1)
  }

  /** `s.PadLeft(totalWidth, paddingChar)`: widens `s` on the left, never shortens it. */
  function PadLeft(s: string, totalWidth: nat, paddingChar: char): (r: string)
    ensures |r| == if |s| < totalWidth then totalWidth else |s|
    ensures r[|r| - |s|..] == s
    ensures forall i :: 0 <= i < |r| - |s| ==> r[i] == paddingChar
  {
    if |s| < totalWidth then Repeat(paddingChar, totalWidth - |s|) + s else s
  }

  /** PostgreSQL `LPAD(s, length, fill)`: pads on the left, or truncates on the right to `length`. */
  function Lpad(s: string, length: nat, fill: char): (r: string)
    ensures |r| == length
    ensures |s| >= length ==> r == s[..length]
    ensures |s| < length ==> r == PadLeft(s, length, fill)
  {
    if |s| >= length then s[..length] else PadLeft(s, length, fill)
  }

  /** The two paddings agree exactly on strings no longer than the width. */
  lemma LpadAgreesWithPadLeft(s: string, width: nat, c: char)
    ensures Lpad(s, width, c) == PadLeft(s, width, c) <==> |s| <= width
  {
  }

  // ---------------------------------------------------------------- decimal digits

  predicate IsDigit(c: char) {
    '0' <= c <= '9'
  }

  predicate AllDigits(s: string) {
    forall i :: 0 <= i < |s| ==> IsDigit(s[i])
  }

  /** The value of a string of decimal digits, read left to right. */
  function ParseDigits(s: string): nat
    requires AllDigits(s)
  {
    if s == [] then 0 else ParseDigits(s[..|s| - 1]) * 10 + (s[|s| - 1] as int - '0' as int)
  }

  /** The shortest decimal representation of `n`, the digits of `n.ToString()`. */
  function Digits(n: nat): (r: string)
    ensures 1 <= |r| && AllDigits(r)
    ensures ParseDigits(r) == n
    ensures r[0] == '0' ==> n == 0
  {
    if n < 10 then
      [('0' as int + n) as char]
    else
      var r := Digits(n / 10) + [('0' as int + n % 10) as char];
      assert r[..|r| - 1] == Digits(n / 10);
      r
  }

  /** Leading zeros do not change the value. */
  lemma {:induction false} ParseDigitsZeroPrefix(k: nat, s: string)
    requires AllDigits(s)
    ensures AllDigits(Repeat('0', k) + s)
    ensures ParseDigits(Repeat('0', k) + s) == ParseDigits(s)
  {
    if k == 0 {
      assert Repeat('0', k) + s == s;
    } else {
      ParseDigitsZeroPrefix(k - 1, s);
      assert Repeat('0', k) + s == ['0'] + (Repeat('0', k - 1) + s);
      ParseDigitsOneZero(Repeat('0', k - 1) + s);
    }
  }

  lemma {:induction false} ParseDigitsOneZero(s: string)
    requires AllDigits(s)
    ensures AllDigits(['0'] + s) && ParseDigits(['0'] + s) == ParseDigits(s)
  {
    if s != [] {
      var t := ['0'] + s;
      assert t[..|t| - 1] == ['0'] + s[..|s| - 1];
      ParseDigitsOneZero(s[..|s| - 1]);
    }
  }

  // ---------------------------------------------------------------- Int32 formatting and parsing

  /** An optional sign followed by at least one decimal digit, read as an unbounded integer. */
  function ParseInteger(s: string): Option<int> {
    var signed := |s| > 0 && (s[0] == '-' || s[0] == '+');
    var body := if signed then s[1..] else s;
    if body == [] || !AllDigits(body) then None
    else if signed && s[0] == '-' then Some(-(ParseDigits(body) as int))
    else Some(ParseDigits(body))
  }

  /** `Convert.ToInt32(s)`; `None` where .NET throws FormatException or OverflowException. */
  function ParseInt32(s: string): Option<Int32> {
    match ParseInteger(s)
    case Some(v) => if Int32Min <= v <= Int32Max then Some(v) else None
    case None => None
  }

  lemma FormatDDigits(n: nat, minDigits: nat)
    ensures |PadLeft(Digits(n), minDigits, '0')| >= 1
    ensures AllDigits(PadLeft(Digits(n), minDigits, '0'))
    ensures ParseDigits(PadLeft(Digits(n), minDigits, '0')) == n
  {
    var d := Digits(n);
    if |d| < minDigits {
      ParseDigitsZeroPrefix(minDigits - |d|, d);
    }
  }

  /** A digit string reads as its value, and with a leading minus as its negation. */
  lemma ParseSigned(p: string, v: nat)
    requires p != [] && AllDigits(p) && ParseDigits(p) == v
    ensures ParseInteger(p) == Some(v as int)
    ensures ParseInteger("-" + p) == Some(-(v as int))
  {
    assert IsDigit(p[0]);
    assert ("-" + p)[1..] == p;
  }

  /** `n.ToString("D" + minDigits)`: a minus sign exactly for negatives, then the digits of the
      magnitude, zero-padded to at least `minDigits`. Reading the text back gives `n`. */
  function FormatD(n: int, minDigits: nat): (r: string)
    ensures (n < 0) <==> (|r| > 0 && r[0] == '-')
    ensures var m := if n < 0 then -n else n;
            var body := if n < 0 then r[1..] else r;
            AllDigits(body) && |body| == (if |Digits(m)| < minDigits then minDigits else |Digits(m)|)
    ensures ParseInteger(r) == Some(n)
  {
    FormatDReadable(n, minDigits);
    if n < 0 then "-" + PadLeft(Digits(-n), minDigits, '0') else PadLeft(Digits(n), minDigits, '0')
  }

  lemma FormatDReadable(n: int, minDigits: nat)
    ensures n < 0 ==> ParseInteger("-" + PadLeft(Digits(-n), minDigits, '0')) == Some(n)
    ensures n >= 0 ==> ParseInteger(PadLeft(Digits(n), minDigits, '0')) == Some(n)
  {
    var m: nat := if n < 0 then -n else n;
    FormatDDigits(m, minDigits);
    ParseSigned(PadLeft(Digits(m), minDigits, '0'), m);
  }

  /** A short code is padded with zeros: 6 formats as "006", and -7 as "-007". */
  lemma FormatDPadsShort()
    ensures FormatD(6, 3) == "006"
    ensures FormatD(-7, 3) == "-007"
  {
    assert Digits(6) == "6" && Digits(7) == "7";
    assert Repeat('0', 2) == "00" by {
      assert Repeat('0', 1) == "0";
    }
  }

  /** A code wider than the minimum keeps its digits: 1000 formats as "1000". */
  lemma FormatDKeepsLong()
    ensures FormatD(1000, 3) == "1000"
  {
    assert Digits(1000) == "1000" by {
      assert Digits(1) == "1";
      assert Digits(10) == "10";
      assert Digits(100) == "100";
    }
  }

  /** What `Convert.ToInt32` reads back from `n.ToString("D…")`: `n` itself whenever it fits an `int`. */
  lemma FormatDReadsBack(n: int, minDigits: nat)
    ensures ParseInt32(FormatD(n, minDigits)) == if Int32Min <= n <= Int32Max then Some(n) else None
  {
  }

  /** Distinct numbers format to distinct strings. */
  lemma FormatDInjective(a: int, b: int, minDigits: nat)
    requires FormatD(a, minDigits) == FormatD(b, minDigits)
    ensures a == b
  {
  }

  // ---------------------------------------------------------------- searching

  predicate MatchAt(s: string, pattern: string, k: int) {
    0 <= k && k + |pattern| <= |s| && s[k..k + |pattern|] == pattern
  }

  /** `s.IndexOf(pattern)` (ordinal): the first position where `pattern` occurs, or -1. */
  function IndexOf(s: string, pattern: string): (r: int)
    ensures r == -1 || MatchAt(s, pattern, r)
    ensures forall k :: 0 <= k < (if r == -1 then |s| + 1 else r) ==> !MatchAt(s, pattern, k)
  {
    IndexFrom(s, pattern, 0)
  }

  function IndexFrom(s: string, pattern: string, from: nat): (r: int)
    ensures r == -1 || (from <= r && MatchAt(s, pattern, r))
    ensures forall k :: from <= k < (if r == -1 then |s| + 1 else r) ==> !MatchAt(s, pattern, k)
    decreases |s| - from
  {
    if from + |pattern| > |s| then -1
    else if s[from..from + |pattern|] == pattern then from
    else IndexFrom(s, pattern, from + 1)
  }
}
