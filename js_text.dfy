/**
 * The JavaScript string built-ins the feed parser is written with
 * (`indexOf`, `split`, `join`, `trim`, `toUpperCase`, `parseInt` and
 * number-to-string), over strings of Unicode characters.
 */
module JsText {
  import opened Wrappers

  /** The WhiteSpace and LineTerminator characters that `trim` and `parseInt` skip. */
  predicate IsWhitespace(c: char) {
    c == '\t' || c == '\n' || c == '\U{B}' || c == '\U{C}' || c == '\r' || c == ' '
    || c == '\U{A0}' || c == '\U{1680}' || ('\U{2000}' <= c <= '\U{200A}')
    || c == '\U{2028}' || c == '\U{2029}' || c == '\U{202F}' || c == '\U{205F}'
    || c == '\U{3000}' || c == '\U{FEFF}'
  }

  /** `s.indexOf(c)`: the first position of `c`, or -1. */
  function IndexOf(s: string, c: char): (i: int)
    ensures -1 <= i < |s|
    ensures i == -1 <==> c !in s
    ensures i >= 0 ==> s[i] == c && c !in s[..i]
  {
    if |s| == 0 then -1
    else if s[0] == c then 0
    else
      var j := IndexOf(s[1..], c);
      assert j >= 0 ==> s[..j + 1] == [s[0]] + s[1..][..j];
      if j == -1 then -1 else j + 1
  }

  lemma IndexOfFirst(a: string, c: char, b: string)
    requires c !in a
    ensures IndexOf(a + [c] + b, c) == |a|
  {
    var s := a + [c] + b;
    assert s[|a|] == c;
    assert s[..|a|] == a;
  }

  /** `parts.join(sep)` for a one-character separator. */
  function Join(parts: seq<string>, sep: char): string
  {
    if |parts| == 0 then ""
    else if |parts| == 1 then parts[0]
    else parts[0] + [sep] + Join(parts[1..], sep)
  }

  /** `s.split(sep)` for a one-character separator: the pieces between separators, at least one. */
  function Split(s: string, sep: char): (parts: seq<string>)
    ensures |parts| >= 1
    ensures forall k :: 0 <= k < |parts| ==> sep !in parts[k]
    ensures Join(parts, sep) == s
    decreases |s|
  {
    var i := IndexOf(s, sep);
    if i == -1 then [s]
    else
      var rest := Split(s[i + 1..], sep);
      SplitAt(s, i, sep, rest);
      [s[..i]] + rest
  }

  /** The piece before the first separator, then the pieces of the rest, join back into `s`. */
  lemma SplitAt(s: string, i: nat, sep: char, rest: seq<string>)
    requires i < |s| && s[i] == sep && sep !in s[..i]
    requires |rest| >= 1 && Join(rest, sep) == s[i + 1..]
    requires forall k :: 0 <= k < |rest| ==> sep !in rest[k]
    ensures forall k :: 0 <= k < |[s[..i]] + rest| ==> sep !in ([s[..i]] + rest)[k]
    ensures Join([s[..i]] + rest, sep) == s
  {
    var parts := [s[..i]] + rest;
    assert parts[1..] == rest;
    assert s == s[..i] + [sep] + s[i + 1..];
    forall k | 0 <= k < |parts| ensures sep !in parts[k] {
      if k > 0 {
        assert parts[k] == rest[k - 1];
      }
    }
  }

  /** Splitting a joined list of separator-free pieces gives the pieces back. */
  lemma {:induction false} SplitJoin(parts: seq<string>, sep: char)
    requires |parts| >= 1
    requires forall k :: 0 <= k < |parts| ==> sep !in parts[k]
    ensures Split(Join(parts, sep), sep) == parts
  {
    if |parts| > 1 {
      var tail := Join(parts[1..], sep);
      var s := parts[0] + [sep] + tail;
      IndexOfFirst(parts[0], sep, tail);
      assert s[..|parts[0]|] == parts[0];
      assert s[|parts[0]| + 1..] == tail;
      SplitJoin(parts[1..], sep);
    }
  }

  /** `s.trimStart()`: a suffix of `s` that does not start with whitespace. */
  function TrimStart(s: string): (r: string)
    ensures |r| <= |s| && r == s[|s| - |r|..]
    ensures r == [] || !IsWhitespace(r[0])
  {
    if |s| > 0 && IsWhitespace(s[0]) then TrimStart(s[1..]) else s
  }

  /** `s.trimEnd()`: a prefix of `s` that does not end with whitespace. */
  function TrimEnd(s: string): (r: string)
    ensures |r| <= |s| && r == s[..|r|]
    ensures r == [] || !IsWhitespace(r[|r| - 1])
  {
    if |s| > 0 && IsWhitespace(s[|s| - 1]) then TrimEnd(s[..|s| - 1]) else s
  }

  /** `trimStart` removes only whitespace. */
  lemma {:induction false} TrimStartDropsWhitespace(s: string, i: nat)
    requires i < |s| - |TrimStart(s)|
    ensures IsWhitespace(s[i])
  {
    if i > 0 {
      TrimStartDropsWhitespace(s[1..], i - 1);
    }
  }

  /** `trimEnd` removes only whitespace. */
  lemma {:induction false} TrimEndDropsWhitespace(s: string, i: nat)
    requires |TrimEnd(s)| <= i < |s|
    ensures IsWhitespace(s[i])
  {
    if i < |s| - 1 {
      TrimEndDropsWhitespace(s[..|s| - 1], i);
    }
  }

  lemma TrimStartCuts(s: string)
    ensures forall n :: 0 <= n < |s| - |TrimStart(s)| ==> IsWhitespace(s[n])
  {
    forall n | 0 <= n < |s| - |TrimStart(s)| ensures IsWhitespace(s[n]) {
      TrimStartDropsWhitespace(s, n);
    }
  }

  lemma TrimEndCuts(t: string)
    ensures forall n :: |TrimEnd(t)| <= n < |t| ==> IsWhitespace(t[n])
  {
    forall n | |TrimEnd(t)| <= n < |t| ensures IsWhitespace(t[n]) {
      TrimEndDropsWhitespace(t, n);
    }
  }

  /** A run of whitespace stays whitespace when read from further left. */
  lemma ShiftedWhitespace(s: string, i: nat, m: nat)
    requires i + m <= |s|
    requires forall n :: m <= n < |s| - i ==> IsWhitespace(s[i..][n])
    ensures forall n :: i + m <= n < |s| ==> IsWhitespace(s[n])
  {
    forall n | i + m <= n < |s| ensures IsWhitespace(s[n]) {
      assert s[n] == s[i..][n - i];
    }
  }

  lemma TrimIsSlice(s: string)
    ensures var i := |s| - |TrimStart(s)|;
            i + |Trim(s)| <= |s| && Trim(s) == s[i..i + |Trim(s)|]
  {
    var t := TrimStart(s);
    var i := |s| - |t|;
    assert t == s[i..];
    assert Trim(s) == t[..|TrimEnd(t)|];
  }

  lemma TrimEndCutsAfterSlice(s: string)
    ensures forall n :: |s| - |TrimStart(s)| + |Trim(s)| <= n < |s| ==> IsWhitespace(s[n])
  {
    var t := TrimStart(s);
    assert t == s[|s| - |t|..];
    TrimEndCuts(t);
    ShiftedWhitespace(s, |s| - |t|, |TrimEnd(t)|);
  }

  /**
   * `trim` cuts `s` down to a slice: everything before the slice and
   * everything after it is whitespace.
   */
  lemma {:induction false} TrimSlice(s: string)
    ensures var i := |s| - |TrimStart(s)|;
            var j := i + |Trim(s)|;
            && i <= j <= |s| && Trim(s) == s[i..j]
            && (forall n :: 0 <= n < i ==> IsWhitespace(s[n]))
            && (forall n :: j <= n < |s| ==> IsWhitespace(s[n]))
  {
    TrimIsSlice(s);
    TrimStartCuts(s);
    TrimEndCutsAfterSlice(s);
  }

  /** Neither end of `s` is whitespace. */
  predicate IsTrimmed(s: string) {
    s == [] || (!IsWhitespace(s[0]) && !IsWhitespace(s[|s| - 1]))
  }

  /** `s.trim()`: a slice of `s` that starts and ends with a non-whitespace character. */
  function Trim(s: string): (r: string)
    ensures IsTrimmed(r)
    ensures forall c :: c in r ==> c in s
    ensures IsTrimmed(s) ==> r == s
  {
    TrimEnd(TrimStart(s))
  }

  /**
   * The ASCII case mapping of one character: a lower-case letter becomes its
   * capital, every other character stays, and no lower-case letter comes out.
   */
  function UpperChar(c: char): (u: char)
    ensures !('a' <= u <= 'z')
    ensures 'a' <= c <= 'z' ==> 'A' <= u <= 'Z' && u as int == c as int - 32
    ensures !('a' <= c <= 'z') ==> u == c
  {
    if 'a' <= c <= 'z' then (c as int - 32) as char else c
  }

  /**
   * `s.toUpperCase()` on the ASCII letters: the case mapping applied at
   * every position, so no lower-case letter is left.
   */
  function ToUpper(s: string): (r: string)
    ensures |r| == |s|
    ensures forall i :: 0 <= i < |s| ==> r[i] == UpperChar(s[i])
  {
    seq(|s|, i requires 0 <= i < |s| => UpperChar(s[i]))
  }

  predicate StartsWith(s: string, prefix: string) {
    |prefix| <= |s| && s[..|prefix|] == prefix
  }

  predicate EndsWith(s: string, c: char) {
    |s| > 0 && s[|s| - 1] == c
  }

  /** The value of `c` as a digit of radix up to 36; 36 when it is no digit at all. */
  function DigitValue(c: char): (v: nat)
    ensures v <= 36
  {
    if '0' <= c <= '9' then c as int - '0' as int
    else if 'a' <= c <= 'z' then c as int - 'a' as int + 10
    else if 'A' <= c <= 'Z' then c as int - 'A' as int + 10
    else 36
  }

  predicate IsDigit(c: char) {
    '0' <= c <= '9'
  }

  predicate AllDigits(s: string, radix: nat) {
    forall i :: 0 <= i < |s| ==> DigitValue(s[i]) < radix
  }

  /** Length of the longest prefix of `s` made of digits of `radix`. */
  function DigitRun(s: string, radix: nat): (n: nat)
    ensures n <= |s| && AllDigits(s[..n], radix)
    ensures n == |s| || DigitValue(s[n]) >= radix
  {
    if |s| == 0 || DigitValue(s[0]) >= radix then 0
    else
      var n := DigitRun(s[1..], radix);
      assert s[..n + 1] == [s[0]] + s[1..][..n];
      n + 1
  }

  /** The two radixes `parseInt` picks by itself: decimal, and hexadecimal after `0x`. */
  type Radix = r: nat | r == 10 || r == 16 witness 10

  /** The number a string of digits denotes in `radix`, most significant first. */
  function NumeralValue(d: string, radix: Radix): nat
    requires AllDigits(d, radix)
  {
    if d == [] then 0
    else
      var high := NumeralValue(d[..|d| - 1], radix);
      (if radix == 10 then high * 10 else high * 16) + DigitValue(d[|d| - 1])
  }

  /**
   * `parseInt(s)` without a radix: leading whitespace and one sign are
   * skipped, a `0x`/`0X` prefix selects hexadecimal, and the longest run of
   * digits that follows is read; `None` stands for NaN (no digit at all).
   */
  function ParseInt(s: string): Option<int>
  {
    var t := TrimStart(s);
    var signed := |t| > 0 && (t[0] == '-' || t[0] == '+');
    var magnitude := ParseUnsigned(if signed then t[1..] else t);
    if magnitude.Some? && signed && t[0] == '-' then Some(-magnitude.value) else magnitude
  }

  function ParseUnsigned(u: string): Option<int>
  {
    var hex := |u| >= 2 && u[0] == '0' && (u[1] == 'x' || u[1] == 'X');
    LeadingNumeral(if hex then u[2..] else u, if hex then 16 else 10)
  }

  /** The value of the longest prefix of digits of `radix`, if there is one. */
  function LeadingNumeral(w: string, radix: Radix): Option<int>
  {
    var n := DigitRun(w, radix);
    if n == 0 then None else Some(NumeralValue(w[..n], radix))
  }

  function DigitChar(d: nat): (c: char)
    requires d < 10
    ensures IsDigit(c) && DigitValue(c) == d
  {
    ('0' as int + d) as char
  }

  /** `String(n)` for a non-negative integer: its decimal digits, with no leading zero. */
  function NatToString(n: nat): (s: string)
    ensures |s| >= 1 && AllDigits(s, 10)
    ensures NumeralValue(s, 10) == n
    ensures |s| > 1 ==> s[0] != '0'
  {
    if n < 10 then [DigitChar(n)]
    else
      var p := NatToString(n / 10);
      var s := p + [DigitChar(n % 10)];
      assert s[..|s| - 1] == p;
      s
  }

  /** On a non-empty string of decimal digits `parseInt` is the plain decimal value. */
  lemma ParseIntOfDigits(s: string)
    requires |s| > 0 && AllDigits(s, 10)
    ensures ParseInt(s) == Some(NumeralValue(s, 10))
  {
    assert DigitValue(s[0]) < 10;
    UnsignedStart(s);
    if |s| >= 2 {
      assert DigitValue(s[1]) < 10;
    }
    DecimalStart(s);
    DigitRunOfDigits(s, 10);
    WholeNumeral(s, 10);
  }

  /** A text that starts with a decimal digit has no whitespace or sign for `parseInt` to skip. */
  lemma UnsignedStart(s: string)
    requires |s| > 0 && DigitValue(s[0]) < 10
    ensures ParseInt(s) == ParseUnsigned(s)
  {
    DecimalDigit(s[0]);
    assert TrimStart(s) == s;
  }

  /** Without `0x` or `0X` in front the digits are read in decimal. */
  lemma DecimalStart(s: string)
    requires |s| >= 2 ==> DigitValue(s[1]) < 10
    ensures ParseUnsigned(s) == LeadingNumeral(s, 10)
  {
    if |s| >= 2 {
      DecimalDigit(s[1]);
    }
  }

  lemma WholeNumeral(s: string, radix: Radix)
    requires |s| > 0 && AllDigits(s, radix) && DigitRun(s, radix) == |s|
    ensures LeadingNumeral(s, radix) == Some(NumeralValue(s, radix))
  {
    assert s[..|s|] == s;
  }

  lemma DecimalDigit(c: char)
    requires DigitValue(c) < 10
    ensures '0' <= c <= '9' && !IsWhitespace(c)
  {
  }

  lemma {:induction false} DigitRunOfDigits(s: string, radix: nat)
    requires AllDigits(s, radix)
    ensures DigitRun(s, radix) == |s|
  {
    if |s| > 0 {
      assert DigitValue(s[0]) < radix;
      assert AllDigits(s[1..], radix) by {
        forall i | 0 <= i < |s[1..]| ensures DigitValue(s[1..][i]) < radix {
          assert s[1..][i] == s[i + 1];
        }
      }
      DigitRunOfDigits(s[1..], radix);
    }
  }

  /** `parseInt` reads back every number that `String` writes. */
  lemma NatToStringParses(n: nat)
    ensures ParseInt(NatToString(n)) == Some(n)
  {
    ParseIntOfDigits(NatToString(n));
  }
}
