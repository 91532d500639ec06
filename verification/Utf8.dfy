// TextEncoder and TextDecoder: UTF-8 as the WHATWG Encoding standard reads it.
module Utf8 {
  import opened Text
  import opened Base64Url

  const REPLACEMENT: char := '\U{FFFD}'
  const BOM: char := '\U{FEFF}'

  function EncodeChar(c: char): (bs: seq<Byte>)
    ensures |bs| > 0
  {
    var n := c as int;
    if n < 0x80 then [n]
    else if n < 0x800 then [0xC0 + n / 64, 0x80 + n % 64]
    else if n < 0x1_0000 then [0xE0 + n / 4096, 0x80 + n / 64 % 64, 0x80 + n % 64]
    else [0xF0 + n / 262144, 0x80 + n / 4096 % 64, 0x80 + n / 64 % 64, 0x80 + n % 64]
  }

  function Encode(s: string): seq<Byte> {
    if s == "" then [] else EncodeChar(s[0]) + Encode(s[1..])
  }

  // The decoder between two bytes: continuation bytes still needed, the code
  // point so far, and the range the next byte must be in.
  datatype State = State(needed: nat, cp: nat, low: Tail, high: Tail)

  type Tail = b: int | 0x80 <= b <= 0xBF witness 0x80

  const START := State(0, 0, 0x80, 0xBF)

  function Lead(b: Byte): Option<State> {
    if 0xC2 <= b <= 0xDF then Some(State(1, b - 0xC0, 0x80, 0xBF))
    else if 0xE0 <= b <= 0xEF then
      Some(State(2, b - 0xE0, if b == 0xE0 then 0xA0 else 0x80, if b == 0xED then 0x9F else 0xBF))
    else if 0xF0 <= b <= 0xF4 then
      Some(State(3, b - 0xF0, if b == 0xF0 then 0x90 else 0x80, if b == 0xF4 then 0x8F else 0xBF))
    else None
  }

  function ToChar(cp: nat): char {
    if cp < 0xD800 || 0xE000 <= cp < 0x11_0000 then cp as char else REPLACEMENT
  }

  // What the decoder emits from position i on; ill-formed bytes are replaced.
  function DecodeFrom(bs: seq<Byte>, i: nat, st: State): string
    requires i <= |bs|
    decreases |bs| - i, st.needed
  {
    if i == |bs| then (if st.needed > 0 then [REPLACEMENT] else "")
    else
      var b := bs[i];
      if st.needed == 0 then
        if b < 0x80 then [b as char] + DecodeFrom(bs, i + 1, START)
        else if Lead(b).Some? then DecodeFrom(bs, i + 1, Lead(b).value)
        else [REPLACEMENT] + DecodeFrom(bs, i + 1, START)
      else if !(st.low <= b <= st.high) then [REPLACEMENT] + DecodeFrom(bs, i, START)
      else
        var cp := st.cp * 64 + (b - 0x80);
        if st.needed == 1 then [ToChar(cp)] + DecodeFrom(bs, i + 1, START)
        else DecodeFrom(bs, i + 1, State(st.needed - 1, cp, 0x80, 0xBF))
  }

  // A byte order mark at the start is dropped.
  function Decode(bs: seq<Byte>): string {
    if [0xEF, 0xBB, 0xBF] <= bs then DecodeFrom(bs, 3, START) else DecodeFrom(bs, 0, START)
  }

  // ----- the round trip -----

  predicate BytesAt(bs: seq<Byte>, i: nat, e: seq<Byte>) {
    i + |e| <= |bs| && bs[i..i + |e|] == e
  }

  lemma ByteAt(bs: seq<Byte>, i: nat, e: seq<Byte>, k: nat)
    requires BytesAt(bs, i, e) && k < |e|
    ensures bs[i + k] == e[k]
  {
    assert bs[i..i + |e|][k] == e[k];
  }

  // One continuation byte that is not the last.
  lemma Continues(bs: seq<Byte>, i: nat, st: State, cp: nat)
    requires i < |bs| && st.needed > 1 && st.low <= bs[i] <= st.high && cp == st.cp * 64 + (bs[i] - 0x80)
    ensures DecodeFrom(bs, i, st) == DecodeFrom(bs, i + 1, State(st.needed - 1, cp, 0x80, 0xBF))
  {}

  lemma Completes(bs: seq<Byte>, i: nat, st: State, c: char)
    requires i < |bs| && st.needed == 1 && st.low <= bs[i] <= st.high
    requires c as int == st.cp * 64 + (bs[i] - 0x80)
    ensures DecodeFrom(bs, i, st) == [c] + DecodeFrom(bs, i + 1, START)
  {}

  lemma Starts(bs: seq<Byte>, i: nat)
    requires i < |bs| && Lead(bs[i]).Some?
    ensures DecodeFrom(bs, i, START) == DecodeFrom(bs, i + 1, Lead(bs[i]).value)
  {}

  lemma TwoBytes(bs: seq<Byte>, i: nat, c: char)
    requires 0x80 <= c as int < 0x800 && i + 2 <= |bs|
    requires bs[i] == 0xC0 + c as int / 64 && bs[i + 1] == 0x80 + c as int % 64
    ensures DecodeFrom(bs, i, START) == [c] + DecodeFrom(bs, i + 2, START)
  {
    hide DecodeFrom;
    Starts(bs, i);
    Completes(bs, i + 1, Lead(bs[i]).value, c);
  }

  lemma ThreeBytes(bs: seq<Byte>, i: nat, c: char)
    requires 0x800 <= c as int < 0x1_0000 && i + 3 <= |bs|
    requires bs[i] == 0xE0 + c as int / 4096 && bs[i + 1] == 0x80 + c as int / 64 % 64 && bs[i + 2] == 0x80 + c as int % 64
    ensures DecodeFrom(bs, i, START) == [c] + DecodeFrom(bs, i + 3, START)
  {
    hide DecodeFrom;
    Starts(bs, i);
    Continues(bs, i + 1, Lead(bs[i]).value, c as int / 64);
    Completes(bs, i + 2, State(1, c as int / 64, 0x80, 0xBF), c);
  }

  lemma FourBytes(bs: seq<Byte>, i: nat, c: char)
    requires 0x1_0000 <= c as int && i + 4 <= |bs|
    requires bs[i] == 0xF0 + c as int / 262144 && bs[i + 1] == 0x80 + c as int / 4096 % 64
    requires bs[i + 2] == 0x80 + c as int / 64 % 64 && bs[i + 3] == 0x80 + c as int % 64
    ensures DecodeFrom(bs, i, START) == [c] + DecodeFrom(bs, i + 4, START)
  {
    hide DecodeFrom;
    Starts(bs, i);
    Continues(bs, i + 1, Lead(bs[i]).value, c as int / 4096);
    Continues(bs, i + 2, State(2, c as int / 4096, 0x80, 0xBF), c as int / 64);
    Completes(bs, i + 3, State(1, c as int / 64, 0x80, 0xBF), c);
  }

  lemma OneByte(bs: seq<Byte>, i: nat, c: char)
    requires c as int < 0x80 && i < |bs| && bs[i] == c as int
    ensures DecodeFrom(bs, i, START) == [c] + DecodeFrom(bs, i + 1, START)
  {}

  lemma CharDecodes(bs: seq<Byte>, i: nat, c: char)
    requires BytesAt(bs, i, EncodeChar(c))
    ensures i + |EncodeChar(c)| <= |bs|
    ensures DecodeFrom(bs, i, START) == [c] + DecodeFrom(bs, i + |EncodeChar(c)|, START)
  {
    hide BytesAt, DecodeFrom;
    var e := EncodeChar(c);
    var n := c as int;
    BytesFit(bs, i, e);
    ByteAt(bs, i, e, 0);
    if |e| > 1 { ByteAt(bs, i, e, 1); }
    if |e| > 2 { ByteAt(bs, i, e, 2); }
    if |e| > 3 { ByteAt(bs, i, e, 3); }
    if n < 0x80 { OneByte(bs, i, c); }
    else if n < 0x800 { TwoBytes(bs, i, c); }
    else if n < 0x1_0000 { ThreeBytes(bs, i, c); }
    else { FourBytes(bs, i, c); }
  }

  lemma BytesFit(bs: seq<Byte>, i: nat, e: seq<Byte>)
    requires BytesAt(bs, i, e)
    ensures i + |e| <= |bs|
  {}

  lemma {:induction false} DecodesFrom(bs: seq<Byte>, i: nat, s: string)
    requires i <= |bs| && bs[i..] == Encode(s)
    ensures DecodeFrom(bs, i, START) == s
    decreases |s|
  {
    hide EncodeChar;
    if s == "" {
      assert i == |bs|;
    } else {
      var n := |EncodeChar(s[0])|;
      assert BytesAt(bs, i, EncodeChar(s[0])) by { assert bs[i..i + n] == bs[i..][..n] == EncodeChar(s[0]); }
      assert bs[i + n..] == bs[i..][n..] == Encode(s[1..]);
      CharDecodes(bs, i, s[0]);
      DecodesFrom(bs, i + n, s[1..]);
    }
  }

  lemma MarkIffMarked(s: string)
    ensures [0xEF, 0xBB, 0xBF] <= Encode(s) <==> s != "" && s[0] == BOM
  {
    hide EncodeChar, DecodeFrom;
    MarkBytes();
    if [0xEF, 0xBB, 0xBF] <= Encode(s) {
      var bs := Encode(s);
      assert bs[0..3] == [0xEF, 0xBB, 0xBF];
      CharDecodes(bs, 0, BOM);
      assert bs[0..] == bs;
      DecodesFrom(bs, 0, s);
    }
  }

  lemma MarkBytes()
    ensures EncodeChar(BOM) == [0xEF, 0xBB, 0xBF]
  {}

  // Decoding undoes encoding, except that a leading U+FEFF is dropped.
  lemma DecodeEncode(s: string)
    ensures Decode(Encode(s)) == if s != "" && s[0] == BOM then s[1..] else s
  {
    hide EncodeChar, DecodeFrom;
    MarkIffMarked(s);
    MarkBytes();
    var bs := Encode(s);
    assert bs[0..] == bs;
    DecodesFrom(bs, 0, s);
    if s != "" && s[0] == BOM {
      assert bs[3..] == Encode(s[1..]);
      DecodesFrom(bs, 3, s[1..]);
    }
  }

  // ----- encodeBase64URL and decodeBase64URL -----

  // The loop that builds the binary string is the identity on bytes, and so is
  // the one that takes it apart.
  method EncodeBase64URL(input: string) returns (r: string)
    ensures r == EncodeBytes(Encode(input))
  {
    hide EncodeBytes, EncodeChar;
    var bytes := Encode(input);
    var binary: seq<Byte> := [];
    for i := 0 to |bytes|
      invariant binary == bytes[..i]
    {
      binary := binary + [bytes[i]];
    }
    assert binary == bytes;
    r := EncodeBytes(binary);
  }

  // None: atob throws.
  method DecodeBase64URL(encoded: string) returns (r: Option<string>)
    ensures r == DecodeText(encoded)
  {
    hide DecodeBytes, Decode;
    var binary := DecodeBytes(encoded);
    if binary.None? { return None; }
    var bytes := new Byte[|binary.value|](_ => 0);
    for i := 0 to |binary.value|
      invariant bytes[..i] == binary.value[..i]
    {
      bytes[i] := binary.value[i];
    }
    assert bytes[..] == binary.value;
    r := Some(Decode(bytes[..]));
  }

  function EncodeText(s: string): string { EncodeBytes(Encode(s)) }

  function DecodeText(s: string): Option<string> {
    var bs := DecodeBytes(s);
    if bs.None? then None else Some(Decode(bs.value))
  }

  // The text comes back exactly when it does not begin with a byte order mark.
  lemma TextRoundTrip(s: string)
    ensures DecodeText(EncodeText(s)) == Some(s) <==> s == "" || s[0] != BOM
    ensures s != "" && s[0] == BOM ==> DecodeText(EncodeText(s)) == Some(s[1..])
  {
    hide EncodeBytes, DecodeBytes, Decode;
    BytesRoundTrip(Encode(s));
    DecodeEncode(s);
  }
}
