// The order of the keys of an object: by UTF-16 code units, as sort() has it, and
// as the rebuilt object enumerates them.
module KeyOrder {
  import opened Text

  predicate IsNumeral(s: string) { forall c <- s :: IsDigit(c) }

  // An array index of ECMA-262, section 6.1.7.
  predicate IsIndex(k: string) {
    && k != "" && (k[0] == '0' ==> k == "0") && |k| <= 10
    && IsNumeral(k) && DecimalValue(k) < 0xFFFF_FFFF
  }

  // The UTF-16 code units of a string.
  function CharUnits(c: char): seq<nat> {
    var n := c as int;
    if n < 0x1_0000 then [n] else [0xD800 + (n - 0x1_0000) / 0x400, 0xDC00 + (n - 0x1_0000) % 0x400]
  }

  function Units(s: string): seq<nat> {
    if s == "" then [] else CharUnits(s[0]) + Units(s[1..])
  }

  // The order in which a rebuilt object enumerates: array indices come first, by
  // value, and then the other keys in the order of insertion, which is that of
  // their code units.
  function Rank(k: string): seq<nat> { if IsIndex(k) then [0, DecimalValue(k)] else [1] + Units(k) }

  predicate Less(a: seq<nat>, b: seq<nat>) {
    b != [] && (a == [] || a[0] < b[0] || (a[0] == b[0] && Less(a[1..], b[1..])))
  }

  predicate Before(k: string, l: string) { Less(Rank(k), Rank(l)) }

  lemma {:induction false} LessTotal(a: seq<nat>, b: seq<nat>)
    ensures Less(a, b) || Less(b, a) || a == b
    ensures !(Less(a, b) && Less(b, a)) && (a == b ==> !Less(a, b))
  {
    if a != [] && b != [] {
      LessTotal(a[1..], b[1..]);
      assert a == [a[0]] + a[1..] && b == [b[0]] + b[1..];
    }
  }

  lemma {:induction false} LessTransitive(a: seq<nat>, b: seq<nat>, c: seq<nat>)
    requires Less(a, b) && Less(b, c)
    ensures Less(a, c)
  {
    if a != [] && a[0] == b[0] == c[0] { LessTransitive(a[1..], b[1..], c[1..]); }
  }

  lemma CharUnitsInjective(c: char, d: char)
    requires CharUnits(c)[0] == CharUnits(d)[0] && (|CharUnits(c)| > 1 ==> CharUnits(c) == CharUnits(d))
    ensures c == d
  {}

  lemma {:induction false} UnitsInjective(s: string, t: string)
    requires Units(s) == Units(t)
    ensures s == t
  {
    if s != "" && t != "" {
      var a, b := CharUnits(s[0]), CharUnits(t[0]);
      var u := Units(s);
      assert u[0] == a[0] && u[0] == b[0];
      if |a| > 1 {
        assert u[1] == a[1] && |b| > 1 && u[1] == b[1];
        assert a == [u[0], u[1]] == b;
      }
      CharUnitsInjective(s[0], t[0]);
      assert u[|a|..] == Units(s[1..]) && u[|b|..] == Units(t[1..]);
      UnitsInjective(s[1..], t[1..]);
      assert s == [s[0]] + s[1..] && t == [t[0]] + t[1..];
    }
  }

  // ----- numerals -----

  function Ten(n: nat): (p: nat)
    ensures p > 0
  {
    if n == 0 then 1 else 10 * Ten(n - 1)
  }

  lemma {:induction false} ValueFront(s: string)
    requires IsNumeral(s) && s != ""
    ensures DecimalValue(s) == DigitValue(s[0]) * Ten(|s| - 1) + DecimalValue(s[1..])
    decreases |s|
  {
    var n := |s| - 1;
    if n == 0 {
      assert s[..0] == "" && s[1..] == "";
    } else {
      var init := s[..n];
      ValueFront(init);
      assert init[1..] == s[1..][..n - 1];
      assert DecimalValue(s[1..]) == DecimalValue(init[1..]) * 10 + DigitValue(s[n]);
      TenTimes(DigitValue(s[0]), n, DecimalValue(init[1..]), DigitValue(s[n]));
    }
  }

  lemma TenTimes(d: nat, n: nat, x: nat, y: nat)
    requires n > 0
    ensures (d * Ten(n - 1) + x) * 10 + y == d * Ten(n) + (x * 10 + y)
  {}

  lemma {:induction false} ValueBound(s: string)
    requires IsNumeral(s)
    ensures DecimalValue(s) < Ten(|s|)
    decreases |s|
  {
    if s != "" {
      ValueBound(s[..|s| - 1]);
      assert IsDigit(s[|s| - 1]) && DigitValue(s[|s| - 1]) < 10;
    }
  }

  // Numerals of one length compare as their values do.
  lemma {:induction false} ByDigits(s: string, t: string)
    requires IsNumeral(s) && IsNumeral(t) && |s| == |t|
    ensures Less(Units(s), Units(t)) <==> DecimalValue(s) < DecimalValue(t)
    ensures DecimalValue(s) == DecimalValue(t) ==> s == t
    decreases |s|
  {
    hide DecimalValue;
    if s != "" {
      ByDigits(s[1..], t[1..]);
      ValueFront(s);
      ValueFront(t);
      ValueBound(s[1..]);
      ValueBound(t[1..]);
      DigitUnits(s);
      DigitUnits(t);
      assert s == [s[0]] + s[1..] && t == [t[0]] + t[1..];
      FirstDigit(DigitValue(s[0]), DigitValue(t[0]), Ten(|s| - 1), DecimalValue(s[1..]), DecimalValue(t[1..]));
    }
  }

  lemma FirstDigit(a: nat, b: nat, p: nat, x: nat, y: nat)
    requires x < p && y < p
    ensures a < b ==> a * p + x < b * p + y
    ensures b < a ==> b * p + y < a * p + x
  {
    if a < b { assert (a + 1) * p <= b * p; }
    if b < a { assert (b + 1) * p <= a * p; }
  }

  lemma DigitUnits(s: string)
    requires IsNumeral(s) && s != ""
    ensures Units(s) == [s[0] as int] + Units(s[1..]) && Units(s)[1..] == Units(s[1..])
    ensures s[0] as int == '0' as int + DigitValue(s[0])
  {
    assert IsDigit(s[0]);
    assert CharUnits(s[0]) == [s[0] as int];
  }

  // Without leading zeros the longer numeral is the greater.
  lemma LongerIsGreater(k: string, l: string)
    requires IsIndex(k) && IsIndex(l) && |k| < |l|
    ensures DecimalValue(k) < DecimalValue(l)
  {
    hide DecimalValue, Ten;
    ValueBound(k);
    ValueFront(l);
    TenGrows(|k|, |l| - 1);
    AtLeast(DigitValue(l[0]), Ten(|l| - 1));
  }

  lemma AtLeast(d: nat, p: nat)
    requires d > 0
    ensures d * p >= p
  {
    assert (d - 1) * p >= 0;
  }

  lemma {:induction false} TenGrows(m: nat, n: nat)
    requires m <= n
    ensures Ten(m) <= Ten(n)
    decreases n - m
  {
    if m < n { TenGrows(m, n - 1); }
  }

  lemma OneNumeral(k: string, l: string)
    requires IsIndex(k) && IsIndex(l) && DecimalValue(k) == DecimalValue(l)
    ensures k == l
  {
    if |k| < |l| { LongerIsGreater(k, l); }
    else if |l| < |k| { LongerIsGreater(l, k); }
    else { ByDigits(k, l); }
  }

  // Every two different keys are ordered, one way only.
  lemma BeforeTotal(k: string, l: string)
    ensures k != l ==> Before(k, l) || Before(l, k)
    ensures !(Before(k, l) && Before(l, k)) && !Before(k, k)
  {
    hide IsIndex, Less;
    LessTotal(Rank(k), Rank(l));
    LessTotal(Rank(k), Rank(k));
    if Rank(k) == Rank(l) {
      assert Rank(k)[0] == Rank(l)[0];
      if IsIndex(k) {
        assert Rank(k)[1] == Rank(l)[1];
        OneNumeral(k, l);
      } else {
        assert Rank(k)[1..] == Units(k) && Rank(l)[1..] == Units(l);
        UnitsInjective(k, l);
      }
    }
  }

  // What Before means, case by case.
  lemma BeforeIs(k: string, l: string)
    ensures Before(k, l) <==>
      if IsIndex(k) && IsIndex(l) then DecimalValue(k) < DecimalValue(l)
      else if IsIndex(k) || IsIndex(l) then IsIndex(k) else Less(Units(k), Units(l))
  {
    hide DecimalValue;
    var a, b := Rank(k), Rank(l);
    if IsIndex(k) && IsIndex(l) {
      OneLess(DecimalValue(k), DecimalValue(l));
      assert a[1..] == [DecimalValue(k)] && b[1..] == [DecimalValue(l)];
    } else if !IsIndex(k) && !IsIndex(l) {
      assert a[1..] == Units(k) && b[1..] == Units(l);
    }
  }

  lemma OneLess(x: nat, y: nat)
    ensures Less([x], [y]) <==> x < y
  {
    assert [x][1..] == [] && [y][1..] == [];
  }

  // ----- where the two orders agree -----

  // The shorter of two numerals is at most the beginning of the other; an array
  // index and another key are ordered by their units as it happens.
  predicate Agree(k: string, l: string) {
    if IsIndex(k) && IsIndex(l) then
      || |k| == |l|
      || (if |k| < |l| then DecimalValue(k) <= DecimalValue(l[..|k|]) else DecimalValue(l) <= DecimalValue(k[..|l|]))
    else if IsIndex(k) then Less(Units(k), Units(l))
    else IsIndex(l) ==> Less(Units(l), Units(k))
  }

  // For any two keys the enumeration has the order of UTF-16 code units, which
  // section 3.2.3 of RFC 8785 asks for, exactly when they agree.
  lemma OrdersAgreeIff(k: string, l: string)
    requires k != l
    ensures (Before(k, l) <==> Less(Units(k), Units(l))) <==> Agree(k, l)
  {
    hide IsIndex, DecimalValue, Less, Before;
    BeforeIs(k, l);
    LessTotal(Units(k), Units(l));
    if Units(k) == Units(l) { UnitsInjective(k, l); }
    if IsIndex(k) && IsIndex(l) {
      IsNumeralIndex(k);
      IsNumeralIndex(l);
      if |k| == |l| { ByDigits(k, l); }
      else if |k| < |l| { ShorterFirst(k, l); }
      else { ShorterFirst(l, k); }
    }
  }

  lemma IsNumeralIndex(k: string)
    requires IsIndex(k)
    ensures IsNumeral(k)
  {}

  lemma ShorterFirst(k: string, l: string)
    requires IsIndex(k) && IsIndex(l) && |k| < |l|
    ensures DecimalValue(k) < DecimalValue(l)
    ensures Less(Units(k), Units(l)) <==> DecimalValue(k) <= DecimalValue(l[..|k|])
  {
    hide IsIndex, DecimalValue;
    LongerIsGreater(k, l);
    IsNumeralIndex(k);
    IsNumeralIndex(l);
    ByDigits(k, l[..|k|]);
    BeginningDecides(k, l);
  }

  lemma {:induction false} BeginningDecides(k: string, l: string)
    requires IsNumeral(k) && IsNumeral(l) && |k| < |l|
    ensures Less(Units(k), Units(l)) <==> k == l[..|k|] || Less(Units(k), Units(l[..|k|]))
    decreases |k|
  {
    DigitUnits(l);
    if k != "" {
      BeginningDecides(k[1..], l[1..]);
      var b := l[..|k|];
      DigitUnits(k);
      DigitUnits(b);
      assert b[1..] == l[1..][..|k[1..]|];
      assert k == [k[0]] + k[1..] && b == [b[0]] + b[1..];
    }
  }

  // The units of a character: itself, or a high and a low surrogate that stand for it.
  lemma UnitsStandFor(c: char)
    ensures var us := CharUnits(c);
      || us == [c as int]
      || (|us| == 2 && 0xD800 <= us[0] < 0xDC00 <= us[1] < 0xE000
          && 0x1_0000 + (us[0] - 0xD800) * 0x400 + (us[1] - 0xDC00) == c as int)
    ensures c as int >= 0x1_0000 ==> |CharUnits(c)| == 2
  {}
}
