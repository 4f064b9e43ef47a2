/**
 * The handful of java.lang.String and java.nio.file behaviours the version
 * store depends on, stated over `string` (a `seq<char>`):
 * splitting at line feeds, literal replacement, `trim`, the first line that
 * `Files.readAllLines` returns, `Integer.parseInt` and `Integer.toString`.
 */
module Text {
  import opened Wrappers

  // ---------------------------------------------------------------------
  // Decimal numbers
  // ---------------------------------------------------------------------

  predicate IsDigit(c: char) {
    '0' <= c <= '9'
  }

  predicate AllDigits(s: string) {
    forall i :: 0 <= i < |s| ==> IsDigit(s[i])
  }

  function DigitChar(d: nat): (c: char)
    requires d < 10
    ensures IsDigit(c)
  {
    (48 + d) as char
  }

  function DigitValue(c: char): (d: nat)
    requires IsDigit(c)
    ensures d < 10 && DigitChar(d) == c
  {
    c as int - 48
  }

  /** `Integer.toString` (or `String.valueOf`) of a non-negative number. */
  function DecimalString(n: nat): (s: string)
    ensures 0 < |s| && AllDigits(s)
    ensures s[0] == '0' <==> n == 0
    ensures 1 < |s| ==> s[0] != '0'
    decreases n
  {
    if n < 10 then [DigitChar(n)] else DecimalString(n / 10) + [DigitChar(n % 10)]
  }

  /** The value of a run of decimal digits, leading zeros allowed. */
  function DigitsValue(s: string): nat
    requires AllDigits(s)
  {
    if |s| == 0 then 0 else 10 * DigitsValue(s[..|s| - 1]) + DigitValue(s[|s| - 1])
  }

  /** The range of a Java `int`. */
  const IntMin: int := -0x8000_0000
  const IntMax: int := 0x7FFF_FFFF

  predicate InIntRange(x: int) {
    IntMin <= x <= IntMax
  }

  /**
   * Java `int` arithmetic: the exact value taken modulo 2^32 into the `int`
   * range (section 15.18.2 of the Java Language Specification).
   */
  function Wrap32(x: int): (r: int)
    ensures InIntRange(r) && (x - r) % 0x1_0000_0000 == 0
    ensures InIntRange(x) ==> r == x
  {
    (x - IntMin) % 0x1_0000_0000 + IntMin
  }

  /** An optional '+' or '-' followed by at least one digit, read as an unbounded integer. */
  function SignedValue(s: string): Option<int> {
    if 0 < |s| && (s[0] == '+' || s[0] == '-') then
      if 1 < |s| && AllDigits(s[1..]) then
        Some(if s[0] == '-' then -(DigitsValue(s[1..]) as int) else DigitsValue(s[1..]) as int)
      else
        None
    else if 0 < |s| && AllDigits(s) then
      Some(DigitsValue(s) as int)
    else
      None
  }

  /**
   * `Integer.parseInt`: a signed run of digits whose value fits in an `int`;
   * anything else is a NumberFormatException, here `None`.
   */
  function ParseInt(s: string): (r: Option<int>)
    ensures r.Some? ==> InIntRange(r.value) && SignedValue(s) == r
    ensures SignedValue(s).Some? && InIntRange(SignedValue(s).value) ==> r.Some?
  {
    var v := SignedValue(s);
    if v.Some? && InIntRange(v.value) then v else None
  }

  /** The text `Integer.toString` produces: digits only, no redundant leading zero. */
  predicate IsCanonicalDecimal(s: string) {
    0 < |s| && AllDigits(s) && (1 < |s| ==> s[0] != '0')
  }

  lemma {:induction false} DigitsOfDecimal(n: nat)
    ensures DigitsValue(DecimalString(n)) == n
    decreases n
  {
    var s := DecimalString(n);
    if n >= 10 {
      DigitsOfDecimal(n / 10);
      assert s[..|s| - 1] == DecimalString(n / 10);
    }
  }

  /**
   * Parsing the decimal text of a number gives the number back exactly when
   * it fits in an `int`; a larger one is refused.
   */
  lemma ParseDecimalString(n: nat)
    ensures n <= IntMax ==> ParseInt(DecimalString(n)) == Some(n)
    ensures n > IntMax ==> ParseInt(DecimalString(n)) == None
  {
    DigitsOfDecimal(n);
  }

  /** Different numbers have different decimal texts (so a directory name names one version). */
  lemma DecimalStringInjective(m: nat, n: nat)
    requires DecimalString(m) == DecimalString(n)
    ensures m == n
  {
    DigitsOfDecimal(m);
    DigitsOfDecimal(n);
  }

  lemma {:induction false} NonZeroLeadingDigit(s: string)
    requires AllDigits(s) && 0 < |s| && s[0] != '0'
    ensures 0 < DigitsValue(s)
    decreases |s|
  {
    if 1 < |s| {
      NonZeroLeadingDigit(s[..|s| - 1]);
    }
  }

  /**
   * Every canonical decimal text is the decimal text of its own value, so
   * `DecimalString` is onto the canonical texts.
   */
  lemma {:induction false} CanonicalIsDecimalString(s: string)
    requires IsCanonicalDecimal(s)
    ensures DecimalString(DigitsValue(s)) == s
    decreases |s|
  {
    if 1 < |s| {
      var p := s[..|s| - 1];
      NonZeroLeadingDigit(p);
      CanonicalIsDecimalString(p);
      var v := DigitsValue(s);
      assert v / 10 == DigitsValue(p) && v % 10 == DigitValue(s[|s| - 1]);
      assert s == p + [s[|s| - 1]];
    }
  }

  // ---------------------------------------------------------------------
  // String.trim and the first line of a file
  // ---------------------------------------------------------------------

  /** `String.trim` treats every character up to U+0020 as white space. */
  predicate IsTrimmable(c: char) {
    c <= ' '
  }

  /** The first index from `i` on that holds a non-blank character, or `|s|`. */
  function SkipBlanks(s: string, i: nat): (k: nat)
    requires i <= |s|
    ensures i <= k <= |s|
    ensures forall j :: i <= j < k ==> IsTrimmable(s[j])
    ensures k < |s| ==> !IsTrimmable(s[k])
    decreases |s| - i
  {
    if i < |s| && IsTrimmable(s[i]) then SkipBlanks(s, i + 1) else i
  }

  /** Moving `end` down past blank characters, but never below `start`. */
  function SkipBlanksBack(s: string, start: nat, end: nat): (k: nat)
    requires start <= end <= |s|
    ensures start <= k <= end
    ensures forall j :: k <= j < end ==> IsTrimmable(s[j])
    ensures start < k ==> !IsTrimmable(s[k - 1])
    decreases end
  {
    if start < end && IsTrimmable(s[end - 1]) then SkipBlanksBack(s, start, end - 1) else end
  }

  /** `String.trim`: the text between the first and the last non-blank character. */
  function Trim(s: string): (r: string)
    ensures |r| <= |s|
    ensures r != [] ==> !IsTrimmable(r[0]) && !IsTrimmable(r[|r| - 1])
  {
    var start := SkipBlanks(s, 0);
    s[start..SkipBlanksBack(s, start, |s|)]
  }

  /** Trim cuts a slice `[a..]` out of `s`, and everything cut away on either side is blank. */
  lemma TrimRemovesOnlyBlanks(s: string) returns (a: nat)
    ensures a + |Trim(s)| <= |s| && Trim(s) == s[a..a + |Trim(s)|]
    ensures forall j :: 0 <= j < a ==> IsTrimmable(s[j])
    ensures forall j :: a + |Trim(s)| <= j < |s| ==> IsTrimmable(s[j])
  {
    a := SkipBlanks(s, 0);
    var b := SkipBlanksBack(s, a, |s|);
    assert Trim(s) == s[a..b];
  }

  /** Text that already starts and ends with non-blank characters is its own trim. */
  lemma TrimOfTrimmed(s: string)
    requires s != [] ==> !IsTrimmable(s[0]) && !IsTrimmable(s[|s| - 1])
    ensures Trim(s) == s
  {
    if s != [] {
      assert SkipBlanks(s, 0) == 0;
    }
  }

  /** Trimming only removes characters, so a character absent from `s` is absent from its trim. */
  lemma TrimKeepsOut(s: string, c: char)
    requires c !in s
    ensures c !in Trim(s)
  {
    var start := SkipBlanks(s, 0);
    var r := Trim(s);
    assert forall i :: 0 <= i < |r| ==> r[i] == s[start + i];
  }

  /** Scanning forward gives the same answer on a longer text once it stops inside the shorter one. */
  lemma {:induction false} SkipBlanksExtended(s: string, t: string, i: nat)
    requires i <= |s| <= |t| && t[..|s|] == s
    ensures SkipBlanks(s, i) < |s| ==> SkipBlanks(t, i) == SkipBlanks(s, i)
    ensures SkipBlanks(s, i) == |s| ==> SkipBlanks(t, i) == SkipBlanks(t, |s|)
    decreases |s| - i
  {
    if i < |s| {
      assert t[i] == s[i];
      SkipBlanksExtended(s, t, i + 1);
    }
  }

  /** Scanning backward below `end` only looks at characters before `end`. */
  lemma {:induction false} SkipBlanksBackExtended(s: string, t: string, start: nat, end: nat)
    requires start <= end <= |s| <= |t| && t[..|s|] == s
    ensures SkipBlanksBack(t, start, end) == SkipBlanksBack(s, start, end)
    decreases end
  {
    if start < end {
      assert t[end - 1] == s[end - 1];
      SkipBlanksBackExtended(s, t, start, end - 1);
    }
  }

  /** A blank character appended to a message (as add and commit do) disappears under trim. */
  lemma TrimIgnoresTrailingBlank(s: string, c: char)
    requires IsTrimmable(c)
    ensures Trim(s + [c]) == Trim(s)
  {
    var t := s + [c];
    assert t[..|s|] == s;
    SkipBlanksExtended(s, t, 0);
    var a := SkipBlanks(s, 0);
    if a == |s| {
      assert SkipBlanks(t, |s|) == |t|;
    } else {
      SkipBlanksBackExtended(s, t, a, |s|);
      assert SkipBlanksBack(t, a, |t|) == SkipBlanksBack(t, a, |s|);
      assert t[a..SkipBlanksBack(s, a, |s|)] == s[a..SkipBlanksBack(s, a, |s|)];
    }
  }

  /** `BufferedReader.readLine` ends a line at a line feed or a carriage return. */
  predicate IsLineBreak(c: char) {
    c == '\n' || c == '\r'
  }

  /** The first index from `i` on that holds a line break, or `|s|`. */
  function LineEnd(s: string, i: nat): (k: nat)
    requires i <= |s|
    ensures i <= k <= |s|
    ensures forall j :: i <= j < k ==> !IsLineBreak(s[j])
    ensures k < |s| ==> IsLineBreak(s[k])
    decreases |s| - i
  {
    if i < |s| && !IsLineBreak(s[i]) then LineEnd(s, i + 1) else i
  }

  /** The first element of `Files.readAllLines` for a non-empty file. */
  function FirstLine(s: string): (r: string)
    ensures |r| <= |s| && r == s[..|r|]
    ensures forall i :: 0 <= i < |r| ==> !IsLineBreak(r[i])
    ensures |r| < |s| ==> IsLineBreak(s[|r|])
  {
    s[..LineEnd(s, 0)]
  }

  /** A single line ended by a line feed reads back as that line. */
  lemma FirstLineOfTerminated(s: string)
    requires forall i :: 0 <= i < |s| ==> !IsLineBreak(s[i])
    ensures FirstLine(s + "\n") == s
  {
    var t := s + "\n";
    LineEndOfTerminated(s, 0);
    assert t[..|s|] == s;
  }

  lemma {:induction false} LineEndOfTerminated(s: string, i: nat)
    requires i <= |s|
    requires forall j :: 0 <= j < |s| ==> !IsLineBreak(s[j])
    ensures LineEnd(s + "\n", i) == |s|
    decreases |s| - i
  {
    var t := s + "\n";
    if i < |s| {
      assert t[i] == s[i];
      LineEndOfTerminated(s, i + 1);
    } else {
      assert t[i] == '\n';
    }
  }

  // ---------------------------------------------------------------------
  // String.replace(target, "")
  // ---------------------------------------------------------------------

  /**
   * `s.replace(target, "")`: one left-to-right scan that deletes every
   * non-overlapping occurrence of a non-empty `target`.
   */
  function RemoveAll(s: string, target: string): (r: string)
    requires target != []
    ensures |r| <= |s|
    ensures |s| < |target| ==> r == s
    decreases |s|
  {
    if |s| < |target| then s
    else if s[..|target|] == target then RemoveAll(s[|target|..], target)
    else [s[0]] + RemoveAll(s[1..], target)
  }
}
