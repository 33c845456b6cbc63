/**
 * The Kotlin standard-library string operations that the core relies on,
 * stated over `seq<char>`: `trim`, `File.readLines`, `split`, `startsWith`,
 * `endsWith`, `removePrefix`, `toIntOrNull` and `toLongOrNull`.
 */
module Text {
  import opened Wrappers

  // ---------------------------------------------------------------------
  // Whitespace and trim
  // ---------------------------------------------------------------------

  /**
   * Kotlin's `Char.isWhitespace()` on the JVM: `Character.isWhitespace(c)`
   * or `Character.isSpaceChar(c)` — the ASCII controls TAB, LF, VT, FF, CR,
   * FS, GS, RS, US and the Unicode space, line and paragraph separators.
   */
  predicate IsWhitespace(c: char) {
    || c == '\t' || c == '\n' || c == '\U{B}' || c == '\U{C}' || c == '\r'
    || ('\U{1C}' <= c <= '\U{1F}')
    || c == ' ' || c == '\U{A0}' || c == '\U{1680}'
    || ('\U{2000}' <= c <= '\U{200A}')
    || c == '\U{2028}' || c == '\U{2029}' || c == '\U{202F}' || c == '\U{205F}' || c == '\U{3000}'
  }

  predicate AllWhitespace(s: string) {
    forall i :: 0 <= i < |s| ==> IsWhitespace(s[i])
  }

  /** True when `s` is empty or neither starts nor ends with whitespace. */
  predicate Clean(s: string) {
    s == [] || (!IsWhitespace(s[0]) && !IsWhitespace(s[|s| - 1]))
  }

  /** `trimStart()`: drops the leading whitespace. */
  function TrimStart(s: string): (r: string)
    ensures |r| <= |s| && r == s[|s| - |r|..]
    ensures r == [] || !IsWhitespace(r[0])
  {
    if |s| > 0 && IsWhitespace(s[0]) then TrimStart(s[1..]) else s
  }

  /** `trimEnd()`: drops the trailing whitespace. */
  function TrimEnd(s: string): (r: string)
    ensures |r| <= |s| && r == s[..|r|]
    ensures r == [] || !IsWhitespace(r[|r| - 1])
  {
    if |s| > 0 && IsWhitespace(s[|s| - 1]) then TrimEnd(s[..|s| - 1]) else s
  }

  /** `trim()`: drops the leading and the trailing whitespace. */
  function Trim(s: string): (r: string)
    ensures Clean(r)
    ensures |r| <= |s|
  {
    TrimEnd(TrimStart(s))
  }

  /** Whatever whitespace surrounds a clean text, `trim` gives back exactly that text. */
  lemma {:induction false} TrimPadded(front: string, m: string, back: string)
    requires AllWhitespace(front) && AllWhitespace(back) && Clean(m)
    ensures Trim(front + m + back) == m
  {
    if m == [] {
      assert front + m + back == front + back;
      assert AllWhitespace(front + back);
      TrimStartAllWhitespace(front + back);
    } else {
      assert (m + back)[0] == m[0];
      assert front + m + back == front + (m + back);
      TrimStartPadded(front, m + back);
      TrimEndPadded(m, back);
    }
  }

  lemma {:induction false} TrimStartPadded(front: string, rest: string)
    requires AllWhitespace(front)
    requires rest == [] || !IsWhitespace(rest[0])
    ensures TrimStart(front + rest) == TrimStart(rest)
  {
    if front != [] {
      assert (front + rest)[1..] == front[1..] + rest;
      TrimStartPadded(front[1..], rest);
    } else {
      assert front + rest == rest;
    }
  }

  lemma {:induction false} TrimStartAllWhitespace(s: string)
    requires AllWhitespace(s)
    ensures TrimStart(s) == []
  {
    if s != [] {
      TrimStartAllWhitespace(s[1..]);
    }
  }

  lemma {:induction false} TrimEndPadded(m: string, back: string)
    requires AllWhitespace(back)
    requires m != [] && !IsWhitespace(m[|m| - 1])
    ensures TrimEnd(m + back) == m
  {
    if back == [] {
      assert m + back == m;
    } else {
      assert (m + back)[..|m + back| - 1] == m + back[..|back| - 1];
      TrimEndPadded(m, back[..|back| - 1]);
    }
  }

  /** Trimming a clean text changes nothing; in particular `trim` is idempotent. */
  lemma TrimClean(s: string)
    requires Clean(s)
    ensures Trim(s) == s
  {
    TrimPadded([], s, []);
    assert [] + s + [] == s;
  }

  // ---------------------------------------------------------------------
  // Lines: `File.readLines()`
  // ---------------------------------------------------------------------

  predicate IsLineTerminator(c: char) {
    c == '\n' || c == '\r'
  }

  predicate NoLineTerminator(s: string) {
    forall i :: 0 <= i < |s| ==> !IsLineTerminator(s[i])
  }

  /** The length of the first line of `s`: the index of its first line terminator, or `|s|`. */
  function LineEnd(s: string): (k: nat)
    ensures k <= |s| && NoLineTerminator(s[..k])
    ensures k < |s| ==> IsLineTerminator(s[k])
  {
    if |s| == 0 || IsLineTerminator(s[0]) then 0
    else
      var k := 1 + LineEnd(s[1..]);
      assert s[..k] == [s[0]] + s[1..][..k - 1];
      k
  }

  /**
   * `File.readLines()`, as `BufferedReader.readLine` splits text: a line ends
   * at "\n", at "\r" or at "\r\n"; a final terminator does not start another
   * (empty) line, and empty text has no lines.
   */
  function Lines(s: string): seq<string>
    decreases |s|
  {
    if |s| == 0 then []
    else
      var k := LineEnd(s);
      var next := if k == |s| then k
                  else if s[k] == '\r' && k + 1 < |s| && s[k + 1] == '\n' then k + 2
                  else k + 1;
      [s[..k]] + Lines(s[next..])
  }

  /** A line and its "\n" terminator come off the front of the text. */
  lemma LinesStep(l: string, tail: string)
    requires NoLineTerminator(l)
    ensures Lines(l + ['\n'] + tail) == [l] + Lines(tail)
  {
    var s := l + ['\n'] + tail;
    LineEndOf(l, ['\n'] + tail);
    assert s == l + (['\n'] + tail);
    assert s[..|l|] == l;
    assert s[|l|] == '\n';
    assert s[|l| + 1..] == tail;
  }

  lemma {:induction false} LineEndOf(l: string, rest: string)
    requires NoLineTerminator(l)
    requires rest != [] && IsLineTerminator(rest[0])
    ensures LineEnd(l + rest) == |l|
  {
    if l != [] {
      assert (l + rest)[1..] == l[1..] + rest;
      LineEndOf(l[1..], rest);
    } else {
      assert l + rest == rest;
    }
  }

  /** A non-empty text without a terminator is one line, with or without a final "\n". */
  lemma SingleLine(l: string)
    requires l != [] && NoLineTerminator(l)
    ensures Lines(l) == [l]
    ensures Lines(l + "\n") == [l]
  {
    LineEndNone(l);
    assert l[..|l|] == l;
    assert l[|l|..] == [];
    LinesStep(l, []);
    assert l + ['\n'] + [] == l + "\n";
  }

  lemma {:induction false} LineEndNone(l: string)
    requires NoLineTerminator(l)
    ensures LineEnd(l) == |l|
  {
    if l != [] {
      LineEndNone(l[1..]);
    }
  }

  // ---------------------------------------------------------------------
  // Splitting and joining at a separator character
  // ---------------------------------------------------------------------

  /** The index of the first `c` in `s`. */
  function IndexOf(s: string, c: char): (k: nat)
    requires c in s
    ensures k < |s| && s[k] == c && c !in s[..k]
  {
    if s[0] == c then 0
    else
      var k := 1 + IndexOf(s[1..], c);
      assert s[..k] == [s[0]] + s[1..][..k - 1];
      k
  }

  /**
   * `split(sep, limit = 2)` seen as its two outcomes: `None` when `sep` does
   * not occur (one part), otherwise the text before the first `sep` and
   * everything after it, which may contain further `sep`s.
   */
  function SplitAtFirst(s: string, sep: char): (r: Option<(string, string)>)
    ensures r.None? <==> sep !in s
    ensures r.Some? ==> s == r.value.0 + [sep] + r.value.1 && sep !in r.value.0
  {
    if sep in s then
      var k := IndexOf(s, sep);
      assert s == s[..k] + [sep] + s[k + 1..];
      Some((s[..k], s[k + 1..]))
    else None
  }

  /** The split at the first separator is the only split whose front part holds no separator. */
  lemma SplitAtFirstOf(front: string, sep: char, back: string)
    requires sep !in front
    ensures SplitAtFirst(front + [sep] + back, sep) == Some((front, back))
  {
    var s := front + [sep] + back;
    assert s[|front|] == sep;
    var r := SplitAtFirst(s, sep);
    var k := |r.value.0|;
    assert k == |front|;
    assert r.value.0 == s[..k] == front;
    assert r.value.1 == s[k + 1..] == back;
  }

  /** `split(sep)` without a limit: every part, including empty ones; never an empty list. */
  function Split(s: string, sep: char): (parts: seq<string>)
    ensures |parts| >= 1
    ensures forall i :: 0 <= i < |parts| ==> sep !in parts[i]
    decreases |s|
  {
    match SplitAtFirst(s, sep)
    case None => [s]
    case Some((front, back)) => [front] + Split(back, sep)
  }

  /** `joinToString(sep)`. */
  function Join(parts: seq<string>, sep: char): string
    requires |parts| >= 1
  {
    if |parts| == 1 then parts[0] else parts[0] + [sep] + Join(parts[1..], sep)
  }

  /** Joining the parts of a split gives back the text. */
  lemma {:induction false} JoinSplit(s: string, sep: char)
    ensures Join(Split(s, sep), sep) == s
    decreases |s|
  {
    match SplitAtFirst(s, sep)
    case None =>
    case Some((front, back)) =>
      JoinSplit(back, sep);
      assert Split(s, sep)[1..] == Split(back, sep);
  }

  /** A separator-free front and a separator come off as the first part. */
  lemma SplitCons(front: string, sep: char, back: string)
    requires sep !in front
    ensures Split(front + [sep] + back, sep) == [front] + Split(back, sep)
  {
    SplitAtFirstOf(front, sep, back);
  }

  /** Splitting a join of separator-free parts gives back the parts. */
  lemma {:induction false} SplitJoin(parts: seq<string>, sep: char)
    requires |parts| >= 1
    requires forall i :: 0 <= i < |parts| ==> sep !in parts[i]
    ensures Split(Join(parts, sep), sep) == parts
  {
    if |parts| == 1 {
      assert SplitAtFirst(parts[0], sep).None?;
    } else {
      var rest := parts[1..];
      assert forall i :: 0 <= i < |rest| ==> rest[i] == parts[i + 1];
      SplitJoin(rest, sep);
      SplitCons(parts[0], sep, Join(rest, sep));
      assert parts == [parts[0]] + rest;
    }
  }

  // ---------------------------------------------------------------------
  // Prefixes and suffixes
  // ---------------------------------------------------------------------

  predicate StartsWith(s: string, prefix: string) {
    |prefix| <= |s| && s[..|prefix|] == prefix
  }

  predicate EndsWith(s: string, suffix: string) {
    |suffix| <= |s| && s[|s| - |suffix|..] == suffix
  }

  /** `removePrefix(prefix)`: drops one copy of `prefix` when `s` starts with it. */
  function RemovePrefix(s: string, prefix: string): (r: string)
    ensures StartsWith(s, prefix) ==> s == prefix + r
    ensures !StartsWith(s, prefix) ==> r == s
  {
    if StartsWith(s, prefix) then s[|prefix|..] else s
  }

  // ---------------------------------------------------------------------
  // Decimal numbers: `toIntOrNull()`, `toLongOrNull()`, `toString()`
  // ---------------------------------------------------------------------

  const INT_MIN: int := -0x8000_0000
  const INT_MAX: int := 0x7FFF_FFFF
  const LONG_MIN: int := -0x8000_0000_0000_0000
  const LONG_MAX: int := 0x7FFF_FFFF_FFFF_FFFF

  predicate IsDigit(c: char) {
    '0' <= c <= '9'
  }

  predicate AllDigits(s: string) {
    forall i :: 0 <= i < |s| ==> IsDigit(s[i])
  }

  function DigitValue(c: char): (d: nat)
    requires IsDigit(c)
    ensures d < 10
  {
    c as int - '0' as int
  }

  function DigitChar(d: nat): (c: char)
    requires d < 10
    ensures IsDigit(c) && DigitValue(c) == d
  {
    ('0' as int + d) as char
  }

  /** The value of a string of decimal digits, most significant first. */
  function DigitsValue(s: string): nat
    requires AllDigits(s)
  {
    if |s| == 0 then 0 else 10 * DigitsValue(s[..|s| - 1]) + DigitValue(s[|s| - 1])
  }

  /**
   * `toIntOrNull()` / `toLongOrNull()` with the range `lo..hi` of the target
   * type: an optional '+' or '-' followed by at least one decimal digit, whose
   * value lies in the range; anything else (empty text, a sign alone, another
   * character, overflow) gives `None`.
   */
  function ParseSigned(s: string, lo: int, hi: int): (r: Option<int>)
    ensures r.Some? ==> lo <= r.value <= hi
  {
    if |s| == 0 then None
    else if s[0] == '-' || s[0] == '+' then
      if |s| == 1 || !AllDigits(s[1..]) then None
      else
        var v: int := if s[0] == '-' then -(DigitsValue(s[1..]) as int) else DigitsValue(s[1..]);
        if lo <= v <= hi then Some(v) else None
    else if AllDigits(s) && lo <= DigitsValue(s) <= hi then
      Some(DigitsValue(s))
    else None
  }

  /** `toIntOrNull()`: a 32-bit signed integer. */
  function ParseInt(s: string): (r: Option<int>)
    ensures r.Some? ==> INT_MIN <= r.value <= INT_MAX
  {
    ParseSigned(s, INT_MIN, INT_MAX)
  }

  /** `toLongOrNull()`: a 64-bit signed integer. */
  function ParseLong(s: string): (r: Option<int>)
    ensures r.Some? ==> LONG_MIN <= r.value <= LONG_MAX
  {
    ParseSigned(s, LONG_MIN, LONG_MAX)
  }

  /** The decimal digits of `n`, no leading zero. */
  function ShowNat(n: nat): (s: string)
    ensures |s| >= 1 && AllDigits(s)
  {
    if n < 10 then [DigitChar(n)] else ShowNat(n / 10) + [DigitChar(n % 10)]
  }

  /** Appending a digit to a positive number appends its character to the text. */
  lemma ShowNatDigit(n: nat, d: nat)
    requires 1 <= n && d < 10
    ensures ShowNat(10 * n + d) == ShowNat(n) + [DigitChar(d)]
  {
    assert (10 * n + d) / 10 == n && (10 * n + d) % 10 == d;
  }

  /** `Int.toString()` / `Long.toString()`. */
  function ShowInt(n: int): string {
    if n < 0 then "-" + ShowNat(-n) else ShowNat(n)
  }

  lemma {:induction false} ShowNatValue(n: nat)
    ensures DigitsValue(ShowNat(n)) == n
  {
    if n >= 10 {
      ShowNatValue(n / 10);
      var s := ShowNat(n);
      assert s[..|s| - 1] == ShowNat(n / 10);
    }
  }

  /** Parsing the decimal text of any in-range number gives the number back. */
  lemma ParseShow(n: int, lo: int, hi: int)
    requires lo <= n <= hi
    ensures ParseSigned(ShowInt(n), lo, hi) == Some(n)
  {
    if n < 0 {
      ParseShowNegative(-n, lo, hi);
    } else {
      ShowNatValue(n);
      var s := ShowNat(n);
      assert IsDigit(s[0]);
    }
  }

  lemma ParseShowNegative(m: nat, lo: int, hi: int)
    requires m > 0
    ensures ParseSigned("-" + ShowNat(m), lo, hi) == if lo <= -(m as int) <= hi then Some(-(m as int)) else None
  {
    ShowNatValue(m);
    var s := "-" + ShowNat(m);
    assert s[1..] == ShowNat(m);
  }

  /** A text with a character that is neither a digit nor a leading sign never parses. */
  lemma ParseRejects(s: string, lo: int, hi: int, k: nat)
    requires k < |s| && !IsDigit(s[k])
    requires k > 0 || (s[0] != '-' && s[0] != '+')
    ensures ParseSigned(s, lo, hi) == None
  {
    if k > 0 && (s[0] == '-' || s[0] == '+') {
      assert !IsDigit(s[1..][k - 1]);
    }
  }

  /** A number outside `lo..hi` is written in a form the parse rejects. */
  lemma ParseShowOutOfRange(n: int, lo: int, hi: int)
    requires n < lo || hi < n
    ensures ParseSigned(ShowInt(n), lo, hi) == None
  {
    if n < 0 {
      ParseShowNegative(-n, lo, hi);
    } else {
      ShowNatValue(n);
      var s := ShowNat(n);
      assert IsDigit(s[0]);
    }
  }
}
