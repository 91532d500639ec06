// Strings written into Lua source (packages/gateway-nginx/src/lua/common.ts).
module LuaEscape {
  import opened Text

  const NUL := 0 as char

  // The replacements of the source, in its order.
  function Escape(s: string): string {
    var a := ReplaceEach(s, "\\", "\\\\");
    var b := ReplaceEach(a, [NUL], "\\0");
    var c := ReplaceEach(b, "\n", "\\n");
    var d := ReplaceEach(c, "\r", "\\r");
    var e := ReplaceEach(d, "\t", "\\t");
    var f := ReplaceEach(e, "\"", "\\\"");
    ReplaceEach(f, "'", "\\'")
  }

  // ----- string literals of Lua 5.1 (section 2.1 of its manual) -----

  // How many of the first n characters are digits, up to the first that is not.
  function Digits(t: string, n: nat): (k: nat)
    ensures k <= n && k <= |t| && forall i :: 0 <= i < k ==> IsDigit(t[i])
  {
    if n > 0 && t != "" && IsDigit(t[0]) then 1 + Digits(t[1..], n - 1) else 0
  }

  function SimpleEscape(c: char): Option<char> {
    match c
    case 'a' => Some(7 as char)
    case 'b' => Some(8 as char)
    case 'f' => Some(12 as char)
    case 'n' => Some('\n')
    case 'r' => Some('\r')
    case 't' => Some('\t')
    case 'v' => Some(11 as char)
    case '\\' => Some('\\')
    case '"' => Some('"')
    case '\'' => Some('\'')
    case '\n' => Some('\n')
    case _ => None
  }

  // The value of the text between two delimiters; None where the manual gives
  // none, as for a bare line end or a bare delimiter.
  function Lex(delimiter: char, t: string): Option<string>
    decreases |t|
  {
    if t == "" then Some("")
    else if t[0] == delimiter || t[0] == '\n' || t[0] == '\r' then None
    else if t[0] != '\\' then First(t[0], Lex(delimiter, t[1..]))
    else
      var k := Digits(t[1..], 3);
      if k > 0 then
        var v := DecimalValue(t[1..][..k]);
        if v > 255 then None else First(v as char, Lex(delimiter, t[1..][k..]))
      else if |t| == 1 || SimpleEscape(t[1]).None? then None
      else First(SimpleEscape(t[1]).value, Lex(delimiter, t[2..]))
  }

  function First(c: char, rest: Option<string>): Option<string> {
    if rest.None? then None else Some([c] + rest.value)
  }

  // ----- one pass -----

  // What is put in the place of c; only the first n replacements are done.
  function EscapeChar(c: char, n: nat): string {
    if c == '\\' && n > 0 then "\\\\"
    else if c == NUL && n > 1 then "\\0"
    else if c == '\n' && n > 2 then "\\n"
    else if c == '\r' && n > 3 then "\\r"
    else if c == '\t' && n > 4 then "\\t"
    else if c == '"' && n > 5 then "\\\""
    else if c == '\'' && n > 6 then "\\'"
    else [c]
  }

  function EscapeEach(s: string, n: nat): string {
    if s == "" then "" else EscapeChar(s[0], n) + EscapeEach(s[1..], n)
  }

  lemma {:induction false} EscapeNone(s: string)
    ensures EscapeEach(s, 0) == s
  {
    if s != "" { EscapeNone(s[1..]); }
  }

  // The character of replacement n; none of the earlier ones puts it in.
  function Target(n: nat): char
    requires n < 7
  {
    if n == 0 then '\\' else if n == 1 then NUL else if n == 2 then '\n' else if n == 3 then '\r'
    else if n == 4 then '\t' else if n == 5 then '"' else '\''
  }

  function Written(n: nat): string
    requires n < 7
  {
    if n == 0 then "\\\\" else if n == 1 then "\\0" else if n == 2 then "\\n" else if n == 3 then "\\r"
    else if n == 4 then "\\t" else if n == 5 then "\\\"" else "\\'"
  }

  lemma OneChar(c: char, n: nat)
    requires n < 7
    ensures c == Target(n) ==> EscapeChar(c, n) == [Target(n)] && EscapeChar(c, n + 1) == Written(n)
    ensures c != Target(n) ==> EscapeChar(c, n + 1) == EscapeChar(c, n)
    ensures c != Target(n) ==> forall d <- EscapeChar(c, n) :: d != Target(n)
    ensures 0 < |EscapeChar(c, n)| <= 2
  {}

  lemma PassAll(e: string, s: string, c: char, r: string)
    requires 0 < |e| <= 2 && forall d <- e :: d != c
    ensures ReplaceEach(e + s, [c], r) == e + ReplaceEach(s, [c], r)
  {
    hide ReplaceEach;
    if |e| == 1 {
      assert e == [e[0]] && e[0] in e;
      Passes(e[0], s, [c], r);
    } else {
      assert e == [e[0]] + [e[1]] && e[0] in e && e[1] in e;
      assert e + s == [e[0]] + ([e[1]] + s);
      Passes(e[0], [e[1]] + s, [c], r);
      Passes(e[1], s, [c], r);
    }
  }

  // One more replacement.
  lemma {:induction false} Replace(s: string, n: nat)
    requires n < 7
    ensures ReplaceEach(EscapeEach(s, n), [Target(n)], Written(n)) == EscapeEach(s, n + 1)
  {
    hide ReplaceEach, EscapeChar, Target, Written;
    if s == "" {
      ReplaceNothing([Target(n)], Written(n));
    } else {
      Replace(s[1..], n);
      OneChar(s[0], n);
      if s[0] == Target(n) {
        Hits(EscapeEach(s[1..], n), [Target(n)], Written(n));
      } else {
        PassAll(EscapeChar(s[0], n), EscapeEach(s[1..], n), Target(n), Written(n));
      }
    }
  }

  // The successive replacements do not touch each other's results.
  lemma EscapeIsEach(s: string)
    ensures Escape(s) == EscapeEach(s, 7)
  {
    hide ReplaceEach, EscapeEach;
    EscapeNone(s);
    Replace(s, 0);
    Replace(s, 1);
    Replace(s, 2);
    Replace(s, 3);
    Replace(s, 4);
    Replace(s, 5);
    Replace(s, 6);
  }

  // ----- reading what was written -----

  // A NUL is directly followed by a digit.
  predicate NulDigit(s: string) { exists i :: 0 <= i < |s| - 1 && s[i] == NUL && IsDigit(s[i + 1]) }

  lemma NulDigitTail(s: string)
    requires s != ""
    ensures NulDigit(s) <==> NulDigit(s[1..]) || (|s| > 1 && s[0] == NUL && IsDigit(s[1]))
  {
    if NulDigit(s[1..]) {
      var i :| 0 <= i < |s[1..]| - 1 && s[1..][i] == NUL && IsDigit(s[1..][i + 1]);
      assert s[i + 1] == NUL && IsDigit(s[i + 1 + 1]);
    }
    if NulDigit(s) {
      var i :| 0 <= i < |s| - 1 && s[i] == NUL && IsDigit(s[i + 1]);
      if i > 0 { assert s[1..][i - 1] == NUL && IsDigit(s[1..][i - 1 + 1]); }
    }
  }

  lemma LexPlain(q: char, c: char, rest: string)
    requires c != q && c != '\n' && c != '\r' && c != '\\'
    ensures Lex(q, [c] + rest) == First(c, Lex(q, rest))
  {
    assert ([c] + rest)[1..] == rest;
  }

  lemma LexPair(q: char, x: char, rest: string)
    requires q != '\\' && !IsDigit(x) && SimpleEscape(x).Some?
    ensures Lex(q, ['\\', x] + rest) == First(SimpleEscape(x).value, Lex(q, rest))
  {
    hide SimpleEscape;
    var t := ['\\', x] + rest;
    assert t[2..] == rest && t[1..][0] == x;
    assert Digits(t[1..], 3) == 0;
  }

  lemma LexOne(q: char, c: char, rest: string)
    requires (q == '"' || q == '\'') && c != NUL
    ensures Lex(q, EscapeChar(c, 7) + rest) == First(c, Lex(q, rest))
  {
    hide Lex;
    var e := EscapeChar(c, 7);
    if |e| == 1 { LexPlain(q, c, rest); } else {
      assert e == ['\\', e[1]];
      LexPair(q, e[1], rest);
    }
  }

  lemma LexNul(q: char, rest: string)
    requires q == '"' || q == '\''
    ensures var k := Digits(rest, 2);
      && DecimalValue("0" + rest[..k]) < 100
      && Lex(q, EscapeChar(NUL, 7) + rest) == First(DecimalValue("0" + rest[..k]) as char, Lex(q, rest[k..]))
  {
    var t := EscapeChar(NUL, 7) + rest;
    var k := Digits(rest, 2);
    assert t[0] == '\\' && t[1..] == "0" + rest;
    assert ("0" + rest)[1..] == rest;
    assert Digits(t[1..], 3) == 1 + k;
    var d := "0" + rest[..k];
    assert t[1..][..1 + k] == d && t[1..][1 + k..] == rest[k..];
    SmallValue(rest[..k]);
  }

  lemma SmallValue(d: string)
    requires |d| <= 2 && forall c <- d :: IsDigit(c)
    ensures DecimalValue("0" + d) < 100 && (d == "" ==> DecimalValue("0" + d) == 0)
  {
    hide DecimalValue;
    DecimalLast("", '0');
    assert "" + ['0'] == "0";
    if |d| > 0 {
      DecimalLast("0", d[0]);
      assert "0" + d[..1] == "0" + [d[0]];
    }
    if |d| == 1 { assert d == [d[0]]; }
    if |d| == 2 {
      DecimalLast("0" + [d[0]], d[1]);
      assert "0" + [d[0]] + [d[1]] == "0" + d;
    }
    if |d| == 0 { assert "0" + d == "0"; }
  }

  lemma DecimalLast(s: string, c: char)
    requires IsDigit(c) && forall d <- s :: IsDigit(d)
    ensures DecimalValue(s + [c]) == DecimalValue(s) * 10 + DigitValue(c)
    ensures DecimalValue("") == 0 && DigitValue(c) < 10 && DigitValue('0') == 0
  {
    assert (s + [c])[..|s|] == s;
  }

  lemma DigitChar(c: char)
    ensures var e := EscapeChar(c, 7);
      e != "" && (if IsDigit(c) then e == [c] else !IsDigit(e[0]))
  {}

  // The first character of an escaped text is a digit just when that of the
  // text is.
  lemma {:induction false} DigitsKept(s: string, n: nat)
    ensures Digits(EscapeEach(s, 7), n) == Digits(s, n)
    ensures EscapeEach(s, 7)[Digits(s, n)..] == EscapeEach(s[Digits(s, n)..], 7)
  {
    if n > 0 && s != "" {
      var e := EscapeChar(s[0], 7);
      DigitChar(s[0]);
      hide EscapeChar, IsDigit;
      if IsDigit(s[0]) {
        assert EscapeEach(s, 7)[1..] == EscapeEach(s[1..], 7);
        DigitsKept(s[1..], n - 1);
        var k := Digits(s[1..], n - 1);
        assert EscapeEach(s, 7)[1 + k..] == EscapeEach(s, 7)[1..][k..];
        assert s[1 + k..] == s[1..][k..];
      } else {
        assert !IsDigit(e[0]);
      }
    }
  }

  // A text is always read, as one of at most its length; digits that follow a
  // NUL are lost in it.
  lemma {:induction false} LexEscaped(q: char, s: string)
    requires q == '"' || q == '\''
    ensures Lex(q, EscapeEach(s, 7)).Some?
    ensures var r := Lex(q, EscapeEach(s, 7)).value;
      if NulDigit(s) then |r| < |s| else r == s
    decreases |s|
  {
    hide Lex, EscapeChar, Digits, DecimalValue, NulDigit, IsDigit;
    if s == "" {
      LexNothing(q);
    } else {
      var rest := EscapeEach(s[1..], 7);
      LexEscaped(q, s[1..]);
      NulDigitTail(s);
      if s[0] != NUL {
        LexOne(q, s[0], rest);
      } else {
        LexNul(q, rest);
        DigitsKept(s[1..], 2);
        DigitsStart(s[1..]);
        var k := Digits(s[1..], 2);
        var d := EscapeEach(s[1..], 7)[..k];
        LexEscaped(q, s[1..][k..]);
        if k == 0 {
          assert d == "" && "0" + d == "0";
          SmallValue("");
          assert s[1..][0..] == s[1..];
        }
      }
    }
  }

  lemma LexNothing(q: char)
    ensures Lex(q, "") == Some("") && !NulDigit("")
  {}

  lemma DigitsStart(s: string)
    ensures Digits(s, 2) > 0 <==> s != "" && IsDigit(s[0])
  {}

  // Lua reads back the text that was escaped, under either delimiter, exactly
  // when no NUL in it is directly followed by a digit.
  lemma LuaRoundTrip(delimiter: char, s: string)
    requires delimiter == '"' || delimiter == '\''
    ensures Lex(delimiter, Escape(s)) == Some(s) <==> !NulDigit(s)
  {
    hide Escape, Lex, EscapeEach, NulDigit;
    EscapeIsEach(s);
    LexEscaped(delimiter, s);
  }
}
