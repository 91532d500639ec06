// base64url without padding (RFC 4648, section 5), as encodeBase64URL and
// decodeBase64URL make it from btoa and atob (packages/types/src/mpp/encoding.ts).
module Base64Url {
  import opened Text

  type Byte = b: int | 0 <= b < 256

  // ----- the alphabet -----

  function Digit64(v: nat): char
    requires v < 64
  {
    if v < 26 then ('A' as int + v) as char
    else if v < 52 then ('a' as int + (v - 26)) as char
    else if v < 62 then ('0' as int + (v - 52)) as char
    else if v == 62 then '+' else '/'
  }

  function Value64(c: char): Option<nat> {
    if 'A' <= c <= 'Z' then Some(c as int - 'A' as int)
    else if 'a' <= c <= 'z' then Some(c as int - 'a' as int + 26)
    else if '0' <= c <= '9' then Some(c as int - '0' as int + 52)
    else if c == '+' then Some(62)
    else if c == '/' then Some(63) else None
  }

  // ----- btoa and atob -----

  function Btoa(bs: seq<Byte>): string {
    if bs == [] then ""
    else if |bs| == 1 then [Digit64(bs[0] / 4), Digit64(bs[0] % 4 * 16), '=', '=']
    else if |bs| == 2 then
      [Digit64(bs[0] / 4), Digit64(bs[0] % 4 * 16 + bs[1] / 16), Digit64(bs[1] % 16 * 4), '=']
    else
      [Digit64(bs[0] / 4), Digit64(bs[0] % 4 * 16 + bs[1] / 16),
       Digit64(bs[1] % 16 * 4 + bs[2] / 64), Digit64(bs[2] % 64)] + Btoa(bs[3..])
  }

  predicate IsAsciiSpace(c: char) { c == '\t' || c == '\n' || c as int == 12 || c == '\r' || c == ' ' }

  function WithoutSpace(s: string): string {
    if s == "" then "" else (if IsAsciiSpace(s[0]) then "" else [s[0]]) + WithoutSpace(s[1..])
  }

  // At most two trailing "=" of a text whose length is a multiple of four.
  function WithoutPadding(s: string): string {
    if |s| % 4 != 0 || s == "" || s[|s| - 1] != '=' then s
    else if s[|s| - 2] != '=' then s[..|s| - 1] else s[..|s| - 2]
  }

  predicate AllDigits(s: string) { forall i :: 0 <= i < |s| ==> Value64(s[i]).Some? }

  function Bytes(s: string): seq<Byte>
    requires |s| % 4 != 1 && AllDigits(s)
  {
    if s == "" then []
    else
      var v, w := Value64(s[0]).value, Value64(s[1]).value;
      if |s| == 2 then [v * 4 + w / 16]
      else
        var x := Value64(s[2]).value;
        if |s| == 3 then [v * 4 + w / 16, w % 16 * 16 + x / 4]
        else
          [v * 4 + w / 16, w % 16 * 16 + x / 4, x % 4 * 64 + Value64(s[3]).value] + Bytes(s[4..])
  }

  // The forgiving decoder of the WHATWG Infra standard; None: it throws.
  function Atob(s: string): Option<seq<Byte>> {
    var t := WithoutPadding(WithoutSpace(s));
    if |t| % 4 == 1 || !AllDigits(t) then None else Some(Bytes(t))
  }

  // ----- base64url -----

  function ToUrl(c: char): char { if c == '+' then '-' else if c == '/' then '_' else c }

  function FromUrl(c: char): char { if c == '-' then '+' else if c == '_' then '/' else c }

  function Each(s: string, f: char -> char): (t: string)
    ensures |t| == |s| && forall i :: 0 <= i < |s| ==> t[i] == f(s[i])
  {
    if s == "" then "" else [f(s[0])] + Each(s[1..], f)
  }

  // replace(/=+$/, "")
  function StripEquals(s: string): string {
    if s != "" && s[|s| - 1] == '=' then StripEquals(s[..|s| - 1]) else s
  }

  function EncodeBytes(bs: seq<Byte>): string { StripEquals(Each(Btoa(bs), ToUrl)) }

  function Equals(n: nat): (s: string)
    ensures |s| == n && forall i :: 0 <= i < n ==> s[i] == '='
  {
    if n == 0 then "" else "=" + Equals(n - 1)
  }

  function DecodeBytes(s: string): Option<seq<Byte>> {
    var padded := Each(s, FromUrl);
    Atob(padded + Equals((4 - |padded| % 4) % 4))
  }

  // ----- the round trip -----

  lemma DigitValue64(v: nat)
    requires v < 64
    ensures Value64(Digit64(v)) == Some(v)
  {}

  // The digits of the bytes, and how many "=" btoa puts after them.
  function Digits(bs: seq<Byte>): string {
    if bs == [] then ""
    else if |bs| == 1 then [Digit64(bs[0] / 4), Digit64(bs[0] % 4 * 16)]
    else if |bs| == 2 then
      [Digit64(bs[0] / 4), Digit64(bs[0] % 4 * 16 + bs[1] / 16), Digit64(bs[1] % 16 * 4)]
    else
      [Digit64(bs[0] / 4), Digit64(bs[0] % 4 * 16 + bs[1] / 16),
       Digit64(bs[1] % 16 * 4 + bs[2] / 64), Digit64(bs[2] % 64)] + Digits(bs[3..])
  }

  function Padding(n: nat): nat { (3 - n % 3) % 3 }

  lemma EqualsFew()
    ensures Equals(0) == "" && Equals(1) == ['='] && Equals(2) == ['=', '=']
    ensures Padding(0) == 0 && Padding(1) == 2 && Padding(2) == 1
  {}

  lemma FewBtoa(bs: seq<Byte>)
    requires |bs| < 3
    ensures Btoa(bs) == Digits(bs) + Equals(Padding(|bs|))
  {
    EqualsFew();
    hide Digit64, Equals, Padding;
    if |bs| == 1 { assert Btoa(bs) == Digits(bs) + ['=', '=']; }
    else if |bs| == 2 { assert Btoa(bs) == Digits(bs) + ['=']; }
  }

  lemma PaddingStep(n: nat)
    requires n >= 3
    ensures Padding(n) == Padding(n - 3)
  {}

  lemma {:induction false} BtoaIsDigits(bs: seq<Byte>)
    ensures Btoa(bs) == Digits(bs) + Equals(Padding(|bs|))
    decreases |bs|
  {
    hide Digit64, Equals, Padding;
    if |bs| < 3 {
      FewBtoa(bs);
    } else {
      BtoaIsDigits(bs[3..]);
      PaddingStep(|bs|);
      var p, four := Equals(Padding(|bs|)), Digits(bs)[..4];
      assert Digits(bs) == four + Digits(bs[3..]) && Btoa(bs) == four + Btoa(bs[3..]);
      assert (four + Digits(bs[3..])) + p == four + (Digits(bs[3..]) + p);
    }
  }

  lemma {:induction false} DigitsModFour(bs: seq<Byte>)
    ensures |Digits(bs)| % 4 != 1 && |Digits(bs)| % 4 == (4 - Padding(|bs|)) % 4
    decreases |bs|
  {
    hide Digit64;
    if |bs| >= 3 {
      DigitsModFour(bs[3..]);
      assert Padding(|bs|) == Padding(|bs[3..]|);
      assert |Digits(bs)| == 4 + |Digits(bs[3..])|;
    }
  }

  lemma {:induction false} DigitsValid(bs: seq<Byte>)
    ensures AllDigits(Digits(bs))
    decreases |bs|
  {
    hide Digit64, Value64;
    forall v: nat | v < 64 ensures Value64(Digit64(v)) == Some(v) { DigitValue64(v); }
    if |bs| >= 3 { DigitsValid(bs[3..]); }
  }

  lemma DigitsAreDigits(bs: seq<Byte>)
    ensures |Digits(bs)| % 4 != 1
    ensures AllDigits(Digits(bs))
    ensures |Digits(bs)| % 4 == (4 - Padding(|bs|)) % 4
  {
    hide Digits, Value64, Padding;
    DigitsModFour(bs);
    DigitsValid(bs);
  }

  lemma JoinsBack(a: Byte, b: Byte, c: Byte)
    ensures var v, w, x, y := a / 4, a % 4 * 16 + b / 16, b % 16 * 4 + c / 64, c % 64;
      && v < 64 && w < 64 && x < 64 && y < 64
      && v * 4 + w / 16 == a && w % 16 * 16 + x / 4 == b && x % 4 * 64 + y == c
  {}

  function Three(v: nat, w: nat, x: nat, y: nat): seq<Byte>
    requires v < 64 && w < 64 && x < 64 && y < 64
  {
    [v * 4 + w / 16, w % 16 * 16 + x / 4, x % 4 * 64 + y]
  }

  lemma DigitsTail(four: string, rest: string)
    requires |four| == 4 && AllDigits(four) && AllDigits(rest) && |rest| % 4 != 1
    ensures AllDigits(four + rest) && |four + rest| % 4 != 1 && (four + rest)[4..] == rest
    ensures forall i :: 0 <= i < 4 ==> (four + rest)[i] == four[i]
  {
    hide Value64;
    var s := four + rest;
    forall i | 0 <= i < |s| ensures Value64(s[i]).Some? { assert i < 4 ==> s[i] == four[i]; }
  }

  lemma FirstBytes(s: string, v: nat, w: nat, x: nat, y: nat)
    requires |s| >= 4 && |s| % 4 != 1 && AllDigits(s) && v < 64 && w < 64 && x < 64 && y < 64
    requires Value64(s[0]) == Some(v) && Value64(s[1]) == Some(w) && Value64(s[2]) == Some(x) && Value64(s[3]) == Some(y)
    ensures |s[4..]| % 4 != 1 && AllDigits(s[4..]) && Bytes(s) == Three(v, w, x, y) + Bytes(s[4..])
  {
    hide Value64;
  }

  lemma FourValues(v: nat, w: nat, x: nat, y: nat, rest: string)
    requires v < 64 && w < 64 && x < 64 && y < 64 && |rest| % 4 != 1 && AllDigits(rest)
    ensures var s := [Digit64(v), Digit64(w), Digit64(x), Digit64(y)] + rest;
      |s| % 4 != 1 && AllDigits(s) && Bytes(s) == Three(v, w, x, y) + Bytes(rest)
  {
    hide Digit64, Value64, Bytes, Three;
    DigitValue64(v);
    DigitValue64(w);
    DigitValue64(x);
    DigitValue64(y);
    var four := [Digit64(v), Digit64(w), Digit64(x), Digit64(y)];
    DigitsTail(four, rest);
    FirstBytes(four + rest, v, w, x, y);
  }

  // Four digits are three bytes.
  lemma FourDigits(a: Byte, b: Byte, c: Byte, rest: string)
    requires |rest| % 4 != 1 && AllDigits(rest)
    ensures var four := [Digit64(a / 4), Digit64(a % 4 * 16 + b / 16), Digit64(b % 16 * 4 + c / 64), Digit64(c % 64)];
      && |four + rest| % 4 != 1 && AllDigits(four + rest)
      && Bytes(four + rest) == [a, b, c] + Bytes(rest)
  {
    hide Digit64, Value64, Bytes;
    var v, w, x, y := a / 4, a % 4 * 16 + b / 16, b % 16 * 4 + c / 64, c % 64;
    JoinsBack(a, b, c);
    FourValues(v, w, x, y, rest);
  }

  lemma FewDigits(bs: seq<Byte>)
    requires |bs| < 3
    ensures |Digits(bs)| % 4 != 1 && AllDigits(Digits(bs))
    ensures Bytes(Digits(bs)) == bs
  {
    hide Digit64, Value64;
    forall v: nat | v < 64 ensures Value64(Digit64(v)) == Some(v) { DigitValue64(v); }
  }

  lemma {:induction false} BytesOfDigits(bs: seq<Byte>)
    ensures |Digits(bs)| % 4 != 1 && AllDigits(Digits(bs))
    ensures Bytes(Digits(bs)) == bs
    decreases |bs|
  {
    hide Digit64, Value64, Bytes;
    if |bs| < 3 {
      FewDigits(bs);
    } else {
      BytesOfDigits(bs[3..]);
      FourDigits(bs[0], bs[1], bs[2], Digits(bs[3..]));
      assert bs == [bs[0], bs[1], bs[2]] + bs[3..];
    }
  }

  predicate IsUrlChar(c: char) { IsWord(c) || c == '-' }

  lemma UrlDigit(c: char)
    requires Value64(c).Some?
    ensures FromUrl(ToUrl(c)) == c && IsUrlChar(ToUrl(c)) && c != '=' && ToUrl(c) != '=' && !IsAsciiSpace(c)
  {}

  lemma {:induction false} StripIs(s: string, n: nat)
    requires s == "" || s[|s| - 1] != '='
    ensures StripEquals(s + Equals(n)) == s
    decreases n
  {
    var t := s + Equals(n);
    if n == 0 {
      assert t == s;
    } else {
      assert t[|t| - 1] == Equals(n)[n - 1] == '=';
      assert t[..|t| - 1] == s + Equals(n - 1);
      StripIs(s, n - 1);
    }
  }

  lemma UrlChars(d: string)
    requires AllDigits(d)
    ensures forall c <- Each(d, ToUrl) :: IsUrlChar(c)
    ensures d != "" ==> Each(d, ToUrl)[|d| - 1] != '='
  {
    hide ToUrl, Value64, IsUrlChar;
    var e := Each(d, ToUrl);
    forall i | 0 <= i < |e| ensures IsUrlChar(e[i]) { UrlDigit(d[i]); }
    if d != "" { UrlDigit(d[|d| - 1]); }
  }

  // The encoding is the digits with two of them exchanged.
  lemma EncodedIs(bs: seq<Byte>)
    ensures EncodeBytes(bs) == Each(Digits(bs), ToUrl)
    ensures forall c <- EncodeBytes(bs) :: IsUrlChar(c)
  {
    hide Digits, Btoa, ToUrl, Value64, IsUrlChar, Each, Padding, AllDigits;
    var d, n := Digits(bs), Padding(|bs|);
    BtoaIsDigits(bs);
    DigitsValid(bs);
    EqualsKept();
    var e := Each(d, ToUrl);
    assert Each(d + Equals(n), ToUrl) == e + Equals(n);
    UrlChars(d);
    StripIs(e, n);
  }

  lemma EqualsKept()
    ensures ToUrl('=') == '='
  {}

  lemma {:induction false} NoSpace(s: string)
    requires forall c <- s :: !IsAsciiSpace(c)
    ensures WithoutSpace(s) == s
  {
    if s != "" {
      assert s[0] in s && forall c <- s[1..] :: c in s;
      NoSpace(s[1..]);
    }
  }

  lemma UrlAndBack(d: string)
    requires AllDigits(d)
    ensures Each(Each(d, ToUrl), FromUrl) == d
  {
    hide ToUrl, FromUrl, Value64;
    var t := Each(Each(d, ToUrl), FromUrl);
    forall i | 0 <= i < |d| ensures t[i] == d[i] { UrlDigit(d[i]); }
  }

  // The padding that the decoder computes is the padding that was stripped.
  lemma PaddingRestored(bs: seq<Byte>)
    ensures var padded := Each(EncodeBytes(bs), FromUrl);
      padded == Digits(bs) && padded + Equals((4 - |padded| % 4) % 4) == Btoa(bs)
  {
    hide Digits, Btoa, ToUrl, FromUrl, Value64, EncodeBytes, Each, AllDigits, Padding;
    EncodedIs(bs);
    BtoaIsDigits(bs);
    DigitsAreDigits(bs);
    DigitsValid(bs);
    UrlAndBack(Digits(bs));
    PaddingOf(|Digits(bs)|, |bs|);
  }

  lemma PaddingOf(length: nat, n: nat)
    requires length % 4 == (4 - Padding(n)) % 4
    ensures (4 - length % 4) % 4 == Padding(n) && Padding(n) <= 2 && (length + Padding(n)) % 4 == 0
  {}

  lemma NoSpaceIn(d: string, n: nat)
    requires AllDigits(d)
    ensures forall c <- d + Equals(n) :: !IsAsciiSpace(c)
    ensures d != "" ==> d[|d| - 1] != '='
  {
    hide Value64;
    var s := d + Equals(n);
    forall i | 0 <= i < |s| ensures !IsAsciiSpace(s[i]) { if i < |d| { UrlDigit(d[i]); } }
    if d != "" { UrlDigit(d[|d| - 1]); }
  }

  lemma BytesRoundTrip(bs: seq<Byte>)
    ensures DecodeBytes(EncodeBytes(bs)) == Some(bs)
  {
    hide Digits, Btoa, Value64, EncodeBytes, Bytes, AllDigits, Each, Padding, WithoutSpace, WithoutPadding;
    var d, n := Digits(bs), Padding(|bs|);
    PaddingRestored(bs);
    BtoaIsDigits(bs);
    DigitsAreDigits(bs);
    BytesOfDigits(bs);
    DigitsValid(bs);
    PaddingOf(|d|, |bs|);
    NoSpaceIn(d, n);
    NoSpace(d + Equals(n));
    DigitsLength(bs);
    Unpadded(d, n);
  }

  lemma DigitsLength(bs: seq<Byte>)
    ensures Digits(bs) == "" <==> bs == []
    ensures bs != [] ==> |Digits(bs)| >= 2
    ensures bs == [] ==> Padding(|bs|) == 0
  {
    hide Digit64;
  }

  lemma Unpadded(d: string, n: nat)
    requires n <= 2 && (|d| + n) % 4 == 0 && (d == "" ==> n == 0) && (d != "" ==> d[|d| - 1] != '=')
    requires d != "" ==> |d| >= 2
    ensures WithoutPadding(d + Equals(n)) == d
  {
    assert Equals(0) == "" && Equals(1) == "=" && Equals(2) == "==";
    var s := d + Equals(n);
    if n > 0 { assert s[..|s| - n] == d; }
  }

  // ----- what the digits say -----

  // The value of a character in the URL alphabet (RFC 4648, section 5, table 2).
  function UrlValue(c: char): nat {
    if 'A' <= c <= 'Z' then c as int - 65 else if 'a' <= c <= 'z' then c as int - 71
    else if '0' <= c <= '9' then c as int + 4 else if c == '-' then 62 else 63
  }

  // The number that bytes or digits write behind n.
  function ByBytes(n: nat, bs: seq<Byte>): nat
    decreases |bs|
  {
    if bs == [] then n else ByBytes(n * 256 + bs[0], bs[1..])
  }

  function ByDigits(n: nat, s: string): nat
    decreases |s|
  {
    if s == "" then n else ByDigits(n * 64 + UrlValue(s[0]), s[1..])
  }

  lemma UrlValueOf(v: nat)
    requires v < 64
    ensures UrlValue(ToUrl(Digit64(v))) == v
  {}

  lemma ThreeBytes(n: nat, bs: seq<Byte>)
    requires |bs| >= 3
    ensures ByBytes(n, bs) == ByBytes(((n * 256 + bs[0]) * 256 + bs[1]) * 256 + bs[2], bs[3..])
  {
    hide ByBytes;
    OneByte(n, bs);
    OneByte(n * 256 + bs[0], bs[1..]);
    OneByte((n * 256 + bs[0]) * 256 + bs[1], bs[2..]);
    assert bs[1..][1..] == bs[2..] && bs[2..][1..] == bs[3..];
  }

  lemma OneByte(n: nat, bs: seq<Byte>)
    requires bs != []
    ensures ByBytes(n, bs) == ByBytes(n * 256 + bs[0], bs[1..])
  {}

  lemma OneDigit(n: nat, s: string)
    requires s != ""
    ensures ByDigits(n, s) == ByDigits(n * 64 + UrlValue(s[0]), s[1..])
  {
    hide UrlValue;
  }

  lemma FourValuesRead(n: nat, s: string)
    requires |s| >= 4
    ensures ByDigits(n, s) ==
      ByDigits((((n * 64 + UrlValue(s[0])) * 64 + UrlValue(s[1])) * 64 + UrlValue(s[2])) * 64 + UrlValue(s[3]), s[4..])
  {
    hide UrlValue, ByDigits;
    assert s[1..][1..] == s[2..] && s[2..][1..] == s[3..] && s[3..][1..] == s[4..];
    var a := n * 64 + UrlValue(s[0]);
    var b := a * 64 + UrlValue(s[1]);
    OneDigit(n, s);
    OneDigit(a, s[1..]);
    OneDigit(b, s[2..]);
    OneDigit(b * 64 + UrlValue(s[2]), s[3..]);
  }

  lemma SameNumber(n: nat, a: Byte, b: Byte, c: Byte)
    ensures ((n * 256 + a) * 256 + b) * 256 + c
      == (((n * 64 + a / 4) * 64 + (a % 4 * 16 + b / 16)) * 64 + (b % 16 * 4 + c / 64)) * 64 + c % 64
  {}

  // What the last digit has beyond the last byte: nothing, two bits or four.
  function Rest(n: nat): nat { if n % 3 == 0 then 1 else if n % 3 == 1 then 16 else 4 }

  lemma {:induction false} DigitsSay(n: nat, bs: seq<Byte>)
    ensures ByDigits(n, Each(Digits(bs), ToUrl)) == ByBytes(n, bs) * Rest(|bs|)
    decreases |bs|
  {
    hide Digit64, ToUrl, UrlValue;
    forall v: nat | v < 64 ensures UrlValue(ToUrl(Digit64(v))) == v { UrlValueOf(v); }
    var s := Each(Digits(bs), ToUrl);
    if |bs| >= 3 {
      hide ByBytes, ByDigits, Rest;
      ThreeBytes(n, bs);
      FourValuesRead(n, s);
      EachTail(Digits(bs));
      SameNumber(n, bs[0], bs[1], bs[2]);
      RestStep(|bs|);
      DigitsSay(((n * 256 + bs[0]) * 256 + bs[1]) * 256 + bs[2], bs[3..]);
    } else {
      FewSay(n, bs);
    }
  }

  lemma RestStep(n: nat)
    requires n >= 3
    ensures Rest(n - 3) == Rest(n)
  {}

  lemma EachTail(d: string)
    requires |d| >= 4
    ensures Each(d, ToUrl)[4..] == Each(d[4..], ToUrl)
  {}

  lemma FewSay(n: nat, bs: seq<Byte>)
    requires |bs| < 3
    ensures ByDigits(n, Each(Digits(bs), ToUrl)) == ByBytes(n, bs) * Rest(|bs|)
  {
    hide Digit64, ToUrl, UrlValue, ByBytes, ByDigits;
    NothingRead(n);
    if |bs| == 1 { OneSays(n, bs); } else if |bs| == 2 { TwoSay(n, bs); }
  }

  lemma OneSays(n: nat, bs: seq<Byte>)
    requires |bs| == 1
    ensures ByDigits(n, Each(Digits(bs), ToUrl)) == ByBytes(n, bs) * 16
  {
    hide Digit64, ToUrl, UrlValue, ByBytes, ByDigits;
    var v, w := bs[0] / 4, bs[0] % 4 * 16;
    var s := Each(Digits(bs), ToUrl);
    UrlValueOf(v);
    UrlValueOf(w);
    OneByte(n, bs);
    OneDigit(n, s);
    OneDigit(n * 64 + v, s[1..]);
    NothingRead(n * 256 + bs[0]);
    NothingRead((n * 64 + v) * 64 + w);
    assert s[1..][1..] == "" && bs[1..] == [];
    FewNumbers(n, bs[0], 0);
  }

  lemma TwoSay(n: nat, bs: seq<Byte>)
    requires |bs| == 2
    ensures ByDigits(n, Each(Digits(bs), ToUrl)) == ByBytes(n, bs) * 4
  {
    hide Digit64, ToUrl, UrlValue, ByBytes, ByDigits;
    var v, w, x := bs[0] / 4, bs[0] % 4 * 16 + bs[1] / 16, bs[1] % 16 * 4;
    var s := Each(Digits(bs), ToUrl);
    UrlValueOf(v);
    UrlValueOf(w);
    UrlValueOf(x);
    OneByte(n, bs);
    OneByte(n * 256 + bs[0], bs[1..]);
    OneDigit(n, s);
    OneDigit(n * 64 + v, s[1..]);
    OneDigit((n * 64 + v) * 64 + w, s[2..]);
    NothingRead((n * 256 + bs[0]) * 256 + bs[1]);
    NothingRead(((n * 64 + v) * 64 + w) * 64 + x);
    assert bs[1..][1..] == [] && s[1..][1..] == s[2..] && s[2..][1..] == "";
    FewNumbers(n, bs[0], bs[1]);
  }

  lemma FewNumbers(n: nat, a: Byte, b: Byte)
    ensures (n * 64 + a / 4) * 64 + a % 4 * 16 == (n * 256 + a) * 16
    ensures ((n * 64 + a / 4) * 64 + (a % 4 * 16 + b / 16)) * 64 + b % 16 * 4 == ((n * 256 + a) * 256 + b) * 4
  {}

  lemma NothingRead(n: nat)
    ensures ByBytes(n, []) == n == ByDigits(n, "")
  {}

  // As numbers the encoding is the bytes, with zero bits up to the last digit.
  lemma EncodedSays(bs: seq<Byte>)
    ensures ByDigits(0, EncodeBytes(bs)) == ByBytes(0, bs) * Rest(|bs|)
    ensures |EncodeBytes(bs)| == (4 * |bs| + 2) / 3
  {
    hide Digits, ToUrl, UrlValue, Each, EncodeBytes;
    EncodedIs(bs);
    DigitsSay(0, bs);
    DigitsCount(bs);
  }

  lemma {:induction false} DigitsCount(bs: seq<Byte>)
    ensures |Digits(bs)| == (4 * |bs| + 2) / 3
    decreases |bs|
  {
    hide Digit64;
    if |bs| >= 3 { DigitsCount(bs[3..]); }
  }

  // A padded text reads the same.
  lemma PaddedReads(bs: seq<Byte>)
    ensures DecodeBytes(EncodeBytes(bs) + Equals(Padding(|bs|))) == Some(bs)
  {
    hide Digits, Btoa, Value64, EncodeBytes, Bytes, AllDigits, Each, Padding, WithoutSpace, WithoutPadding, FromUrl;
    var d, n := Digits(bs), Padding(|bs|);
    PaddingRestored(bs);
    DigitsAreDigits(bs);
    BytesOfDigits(bs);
    DigitsValid(bs);
    PaddingOf(|d|, |bs|);
    NoSpaceIn(d, n);
    NoSpace(d + Equals(n));
    DigitsLength(bs);
    Unpadded(d, n);
    EqualsAreEquals(EncodeBytes(bs), n);
    assert (d + Equals(n)) + Equals(0) == d + Equals(n) by { assert Equals(0) == ""; }
  }

  lemma EqualsAreEquals(s: string, n: nat)
    ensures Each(s + Equals(n), FromUrl) == Each(s, FromUrl) + Equals(n)
  {
    assert FromUrl('=') == '=';
    hide FromUrl;
  }

  // A text with a character that is none of the alphabet, no padding and no white
  // space cannot be decoded.
  lemma StrangeThrows(s: string, i: nat)
    requires i < |s| && !IsUrlChar(s[i]) && s[i] !in {'+', '/', '='} && !IsAsciiSpace(s[i])
    ensures DecodeBytes(s) == None
  {
    hide Equals, Bytes, WithoutSpace, WithoutPadding, AllDigits;
    var t := Each(s, FromUrl) + Equals((4 - |s| % 4) % 4);
    assert t[i] == s[i];
    SpacelessHas(t, i);
    var u := WithoutSpace(t);
    var k :| 0 <= k < |u| && u[k] == s[i];
    assert Value64(s[i]).None?;
    UnpaddedHas(u, k);
  }

  lemma UnpaddedHas(u: string, k: nat)
    requires k < |u| && u[k] != '=' && Value64(u[k]).None?
    ensures !AllDigits(WithoutPadding(u))
  {
    hide Value64;
    var w := WithoutPadding(u);
    assert k < |w| && w[k] == u[k];
  }

  lemma {:induction false} SpacelessHas(s: string, i: nat)
    requires i < |s| && !IsAsciiSpace(s[i])
    ensures exists k :: 0 <= k < |WithoutSpace(s)| && WithoutSpace(s)[k] == s[i]
  {
    if i == 0 {
      assert WithoutSpace(s)[0] == s[0];
    } else {
      SpacelessHas(s[1..], i - 1);
      var t := WithoutSpace(s[1..]);
      var k :| 0 <= k < |t| && t[k] == s[i];
      assert WithoutSpace(s) == (if IsAsciiSpace(s[0]) then "" else [s[0]]) + t;
      if IsAsciiSpace(s[0]) { assert WithoutSpace(s)[k] == s[i]; } else { assert WithoutSpace(s)[k + 1] == s[i]; }
    }
  }
}
