// Strings, optional values and the small text operations of the JavaScript
// library that several parts of the repository rely on.
module Text {
  datatype Option<+T> = None | Some(value: T)

  // The first value, if any, moved n places to the right.
  function Shift(o: Option<nat>, n: nat): Option<nat> {
    match o
    case None => None
    case Some(i) => Some(i + n)
  }

  // The text t stands in s at position i.
  predicate At(s: string, i: nat, t: string) {
    i + |t| <= |s| && s[i..i + |t|] == t
  }

  predicate Is(s: string, i: nat, c: char) { i < |s| && s[i] == c }

  lemma AtChars(s: string, i: nat, t: string)
    requires At(s, i, t)
    ensures i + |t| <= |s| && forall k :: 0 <= k < |t| ==> s[i + k] == t[k]
  {
    assert forall k :: 0 <= k < |t| ==> s[i..i + |t|][k] == t[k];
  }

  lemma AtIs(s: string, i: nat, t: string)
    requires At(s, i, t)
    ensures i + |t| <= |s| && s[i..i + |t|] == t
  {}

  lemma AtWhole(t: string)
    ensures At(t, 0, t)
  {
    assert t[0..|t|] == t;
  }

  lemma AtConcat(s: string, i: nat, a: string, b: string)
    ensures At(s, i, a + b) <==> At(s, i, a) && At(s, i + |a|, b)
  {
    if i + |a + b| <= |s| {
      var t := s[i..i + |a + b|];
      assert t[..|a|] == s[i..i + |a|] && t[|a|..] == s[i + |a|..i + |a| + |b|];
      assert (a + b)[..|a|] == a && (a + b)[|a|..] == b;
      assert t == t[..|a|] + t[|a|..];
    }
  }

  lemma AtIndex(s: string, i: nat, t: string, k: nat)
    requires At(s, i, t) && k < |t|
    ensures i + k < |s| && s[i + k] == t[k]
  {
    assert s[i..i + |t|][k] == t[k];
  }

  predicate IsDigit(c: char) { '0' <= c <= '9' }

  predicate IsLetter(c: char) { 'a' <= c <= 'z' || 'A' <= c <= 'Z' }

  // The class \w of a regular expression.
  predicate IsWord(c: char) { IsLetter(c) || IsDigit(c) || c == '_' }

  // White space and line terminators of ECMA-262, sections 12.2 and 12.3:
  // what trim() removes and \s matches.
  predicate IsSpace(c: char) {
    var n := c as int;
    || 9 <= n <= 13 || n == 32 || n == 0xA0 || n == 0x1680 || 0x2000 <= n <= 0x200A
    || n == 0x2028 || n == 0x2029 || n == 0x202F || n == 0x205F || n == 0x3000 || n == 0xFEFF
  }

  // First position at or after i that holds no white space.
  function SkipSpace(s: string, i: nat): (j: nat)
    requires i <= |s|
    ensures i <= j <= |s|
    decreases |s| - i
  {
    if i < |s| && IsSpace(s[i]) then SkipSpace(s, i + 1) else i
  }

  // End of s[i..j] without its trailing white space.
  function DropSpace(s: string, i: nat, j: nat): (k: nat)
    requires i <= j <= |s|
    ensures i <= k <= j
  {
    if i < j && IsSpace(s[j - 1]) then DropSpace(s, i, j - 1) else j
  }

  function Trim(s: string): string {
    var i := SkipSpace(s, 0);
    s[i..DropSpace(s, i, |s|)]
  }

  // ----- white space -----

  predicate Blank(s: string) { forall c <- s :: IsSpace(c) }

  predicate Solid(s: string) { s == "" || (!IsSpace(s[0]) && !IsSpace(s[|s| - 1])) }

  lemma {:induction false} SkipBlank(s: string, i: nat, j: nat)
    requires i <= j <= |s| && forall k :: i <= k < j ==> IsSpace(s[k])
    requires j < |s| ==> !IsSpace(s[j])
    ensures SkipSpace(s, i) == j
    decreases j - i
  {
    if i < j { SkipBlank(s, i + 1, j); }
  }

  lemma {:induction false} DropBlank(s: string, i: nat, j: nat, k: nat)
    requires i <= j <= k <= |s| && forall m :: j <= m < k ==> IsSpace(s[m])
    requires i < j ==> !IsSpace(s[j - 1])
    ensures DropSpace(s, i, k) == j
    decreases k - j
  {
    if j < k { DropBlank(s, i, j, k - 1); }
  }

  lemma TrimIs(a: string, t: string, b: string)
    requires Blank(a) && Solid(t) && Blank(b)
    ensures Trim(a + t + b) == t
  {
    hide IsSpace;
    var s := a + t + b;
    forall k | 0 <= k < |a| ensures IsSpace(s[k]) { assert s[k] == a[k]; }
    forall k | |a| + |t| <= k < |s| ensures IsSpace(s[k]) { assert s[k] == b[k - |a| - |t|]; }
    if t == "" {
      SkipBlank(s, 0, |s|);
    } else {
      assert s[|a|] == t[0] && s[|a| + |t| - 1] == t[|t| - 1];
      SkipBlank(s, 0, |a|);
      DropBlank(s, |a|, |a| + |t|, |s|);
      assert s[|a|..|a| + |t|] == t;
    }
  }

  // White space at i is skipped.
  lemma BlankSkips(s: string, i: nat, t: string)
    requires At(s, i, t) && Blank(t) && i + |t| < |s| && !IsSpace(s[i + |t|])
    ensures SkipSpace(s, i) == i + |t|
  {
    hide IsSpace;
    forall k | i <= k < i + |t| ensures IsSpace(s[k]) { AtIndex(s, i, t, k - i); assert t[k - i] in t; }
    SkipBlank(s, i, i + |t|);
  }

  // ----- replacing -----

  // replace(pattern, replacement) with a string pattern: the first occurrence only.
  function ReplaceFirst(s: string, pattern: string, replacement: string): string {
    if pattern <= s then replacement + s[|pattern|..]
    else if s == [] then s
    else [s[0]] + ReplaceFirst(s[1..], pattern, replacement)
  }

  // replace with a global pattern: the matches from left to right that do not overlap.
  function ReplaceEach(s: string, pattern: string, replacement: string): string
    requires pattern != ""
  {
    if s == "" then ""
    else if pattern <= s then replacement + ReplaceEach(s[|pattern|..], pattern, replacement)
    else [s[0]] + ReplaceEach(s[1..], pattern, replacement)
  }

  lemma Passes(c: char, s: string, p: string, r: string)
    requires p != "" && (p[0] != c || (|p| > 1 && (s == "" || s[0] != p[1])))
    ensures ReplaceEach([c] + s, p, r) == [c] + ReplaceEach(s, p, r)
  {
    assert ([c] + s)[1..] == s;
  }

  lemma Hits(s: string, p: string, r: string)
    requires p != ""
    ensures ReplaceEach(p + s, p, r) == r + ReplaceEach(s, p, r)
  {
    assert (p + s)[|p|..] == s;
  }

  lemma ReplaceNothing(p: string, r: string)
    requires p != ""
    ensures ReplaceEach("", p, r) == ""
  {}

  // The decimal numeral of n.
  function Decimal(n: nat): (s: string)
    ensures |s| > 0 && forall c <- s :: IsDigit(c)
  {
    if n < 10 then [Digit(n)] else Decimal(n / 10) + [Digit(n % 10)]
  }

  function Digit(d: nat): (c: char)
    requires d < 10
    ensures IsDigit(c) && DigitValue(c) == d
  {
    ('0' as int + d) as char
  }

  function DigitValue(c: char): nat
    requires IsDigit(c)
  {
    c as int - '0' as int
  }

  // BigInt(s) on a string of digits.
  function DecimalValue(s: string): nat
    requires forall c <- s :: IsDigit(c)
  {
    if s == [] then 0 else DecimalValue(s[..|s| - 1]) * 10 + DigitValue(s[|s| - 1])
  }

  lemma {:induction false} DecimalRoundTrip(n: nat)
    ensures DecimalValue(Decimal(n)) == n
  {
    if n < 10 {
      assert Decimal(n)[..0] == [];
    } else {
      var s := Decimal(n / 10);
      assert Decimal(n)[..|Decimal(n)| - 1] == s;
      DecimalRoundTrip(n / 10);
    }
  }
}
