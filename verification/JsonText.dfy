// JSON values, the text JSON.stringify writes for them, and JSON.parse
// (RFC 8259, as ECMA-262 sections 25.5.1 and 25.5.2 fix it).
module JsonText {
  import opened Text

  // A number is the text that Number::toString gives for it; NotFinite stands
  // for NaN and the infinities. Members are in the order of enumeration.
  datatype Json =
    | Null | Bool(b: bool) | Num(text: string) | NotFinite | Str(s: string)
    | Arr(items: Items) | Obj(members: Members)
  datatype Items = NoItems | Item(head: Json, tail: Items)
  datatype Members = NoMembers | Member(key: string, value: Json, tail: Members)

  // ----- writing -----

  function Hex(d: nat): char
    requires d < 16
  {
    if d < 10 then ('0' as int + d) as char else ('a' as int + (d - 10)) as char
  }

  function EscapeChar(c: char): string {
    var n := c as int;
    if c == '"' then "\\\"" else if c == '\\' then "\\\\"
    else if n == 8 then "\\b" else if n == 9 then "\\t" else if n == 10 then "\\n"
    else if n == 12 then "\\f" else if n == 13 then "\\r"
    else if n < 32 then "\\u00" + [Hex(n / 16), Hex(n % 16)]
    else [c]
  }

  function Escape(s: string): string {
    if s == "" then "" else EscapeChar(s[0]) + Escape(s[1..])
  }

  function Quote(s: string): string { "\"" + Escape(s) + "\"" }

  function Print(v: Json): string {
    match v
    case Null => "null"
    case Bool(b) => if b then "true" else "false"
    case Num(t) => t
    case NotFinite => "null"
    case Str(s) => Quote(s)
    case Arr(items) => "[" + PrintItems(items) + "]"
    case Obj(ms) => "{" + PrintMembers(ms) + "}"
  }

  function PrintItems(items: Items): string {
    match items
    case NoItems => ""
    case Item(v, tail) => Print(v) + (if tail == NoItems then "" else "," + PrintItems(tail))
  }

  function PrintMembers(ms: Members): string {
    match ms
    case NoMembers => ""
    case Member(k, v, tail) =>
      Quote(k) + ":" + Print(v) + (if tail == NoMembers then "" else "," + PrintMembers(tail))
  }

  // ----- reading -----

  function SkipWs(s: string, i: nat): (j: nat)
    requires i <= |s|
    ensures i <= j <= |s|
    decreases |s| - i
  {
    if i < |s| && (s[i] == ' ' || s[i] == '\t' || s[i] == '\n' || s[i] == '\r') then SkipWs(s, i + 1) else i
  }

  function DigitsEnd(s: string, i: nat): (j: nat)
    requires i <= |s|
    ensures i <= j <= |s|
    decreases |s| - i
  {
    if i < |s| && IsDigit(s[i]) then DigitsEnd(s, i + 1) else i
  }

  function FractionEnd(s: string, i: nat): (j: nat)
    requires i <= |s|
    ensures i <= j <= |s|
  {
    if Is(s, i, '.') && DigitsEnd(s, i + 1) > i + 1 then DigitsEnd(s, i + 1) else i
  }

  function ExponentEnd(s: string, i: nat): (j: nat)
    requires i <= |s|
    ensures i <= j <= |s|
  {
    if Is(s, i, 'e') || Is(s, i, 'E') then
      var k := if Is(s, i + 1, '+') || Is(s, i + 1, '-') then i + 2 else i + 1;
      if DigitsEnd(s, k) > k then DigitsEnd(s, k) else i
    else i
  }

  // End of the number that starts at i; i if none does.
  function NumberEnd(s: string, i: nat): (j: nat)
    requires i <= |s|
    ensures i <= j <= |s|
  {
    var k := if Is(s, i, '-') then i + 1 else i;
    if k == |s| || !IsDigit(s[k]) then i
    else ExponentEnd(s, FractionEnd(s, if s[k] == '0' then k + 1 else DigitsEnd(s, k)))
  }

  function HexValue(c: char): Option<nat> {
    if IsDigit(c) then Some(c as int - '0' as int)
    else if 'a' <= c <= 'f' then Some(c as int - 'a' as int + 10)
    else if 'A' <= c <= 'F' then Some(c as int - 'A' as int + 10) else None
  }

  // The code unit of the four hexadecimal digits at i.
  function Unit(s: string, i: nat): Option<nat> {
    if i + 4 > |s| then None
    else
      var (a, b, c, d) := (HexValue(s[i]), HexValue(s[i + 1]), HexValue(s[i + 2]), HexValue(s[i + 3]));
      if a.None? || b.None? || c.None? || d.None? then None
      else Some(a.value * 4096 + b.value * 256 + c.value * 16 + d.value)
  }

  // The character of the escape whose letter is at i, and where it ends. An
  // escaped surrogate is no character of this model.
  function ParseEscape(s: string, i: nat): (r: Option<(char, nat)>)
    requires i <= |s|
    ensures r.Some? ==> i < r.value.1 <= |s|
  {
    if i == |s| then None
    else
      match s[i]
      case '"' => Some(('"', i + 1))
      case '\\' => Some(('\\', i + 1))
      case '/' => Some(('/', i + 1))
      case 'b' => Some((8 as char, i + 1))
      case 't' => Some((9 as char, i + 1))
      case 'n' => Some((10 as char, i + 1))
      case 'f' => Some((12 as char, i + 1))
      case 'r' => Some((13 as char, i + 1))
      case 'u' =>
        var u := Unit(s, i + 1);
        if u.Some? && (u.value < 0xD800 || 0xE000 <= u.value < 0x1_0000) then Some((u.value as char, i + 5)) else None
      case _ => None
  }

  // The string whose text starts at i, after the opening quote.
  function ParseString(s: string, i: nat): (r: Option<(string, nat)>)
    requires i <= |s|
    ensures r.Some? ==> i < r.value.1 <= |s|
    decreases |s| - i
  {
    if i == |s| || s[i] as int < 32 then None
    else if s[i] == '"' then Some(("", i + 1))
    else
      var c := if s[i] == '\\' then ParseEscape(s, i + 1) else Some((s[i], i + 1));
      if c.None? then None
      else
        var rest := ParseString(s, c.value.1);
        if rest.None? then None else Some(([c.value.0] + rest.value.0, rest.value.1))
  }

  // Defining a property: an existing one keeps its place.
  function Put(ms: Members, k: string, v: Json): Members {
    match ms
    case NoMembers => Member(k, v, NoMembers)
    case Member(k', v', tail) => if k' == k then Member(k, v, tail) else Member(k', v', Put(tail, k, v))
  }

  function ParseWord(s: string, i: nat, word: string, v: Json): (r: Option<(Json, nat)>)
    requires word != ""
    ensures r.Some? ==> i < r.value.1 <= |s|
  {
    if At(s, i, word) then Some((v, i + |word|)) else None
  }

  function ParseValue(s: string, i: nat): (r: Option<(Json, nat)>)
    requires i <= |s|
    ensures r.Some? ==> i < r.value.1 <= |s|
    decreases |s| - i, 1
  {
    var j := SkipWs(s, i);
    if j == |s| then None
    else
      match s[j]
      case '"' =>
        var t := ParseString(s, j + 1);
        if t.None? then None else Some((Str(t.value.0), t.value.1))
      case '[' =>
        var k := SkipWs(s, j + 1);
        if Is(s, k, ']') then Some((Arr(NoItems), k + 1))
        else
          var t := ParseItems(s, j + 1);
          if t.None? then None else Some((Arr(t.value.0), t.value.1))
      case '{' =>
        var k := SkipWs(s, j + 1);
        if Is(s, k, '}') then Some((Obj(NoMembers), k + 1))
        else
          var t := ParseMembers(s, j + 1, NoMembers);
          if t.None? then None else Some((Obj(t.value.0), t.value.1))
      case 'n' => ParseWord(s, j, "null", Null)
      case 't' => ParseWord(s, j, "true", Bool(true))
      case 'f' => ParseWord(s, j, "false", Bool(false))
      case _ =>
        var e := NumberEnd(s, j);
        if e > j then Some((Num(s[j..e]), e)) else None
  }

  function ParseItems(s: string, i: nat): (r: Option<(Items, nat)>)
    requires i <= |s|
    ensures r.Some? ==> i < r.value.1 <= |s|
    decreases |s| - i, 2
  {
    var v := ParseValue(s, i);
    if v.None? then None
    else
      var j := SkipWs(s, v.value.1);
      if Is(s, j, ']') then Some((Item(v.value.0, NoItems), j + 1))
      else if !Is(s, j, ',') then None
      else
        var t := ParseItems(s, j + 1);
        if t.None? then None else Some((Item(v.value.0, t.value.0), t.value.1))
  }

  function ParseMembers(s: string, i: nat, ms: Members): (r: Option<(Members, nat)>)
    requires i <= |s|
    ensures r.Some? ==> i < r.value.1 <= |s|
    decreases |s| - i, 2
  {
    var q := SkipWs(s, i);
    if !Is(s, q, '"') then None
    else
      var k := ParseString(s, q + 1);
      if k.None? then None
      else
        var c := SkipWs(s, k.value.1);
        if !Is(s, c, ':') then None
        else
          var v := ParseValue(s, c + 1);
          if v.None? then None
          else
            var j := SkipWs(s, v.value.1);
            var ms' := Put(ms, k.value.0, v.value.0);
            if Is(s, j, '}') then Some((ms', j + 1))
            else if !Is(s, j, ',') then None
            else ParseMembers(s, j + 1, ms')
  }

  // JSON.parse; None: it throws.
  function Parse(s: string): Option<Json> {
    var v := ParseValue(s, 0);
    if v.None? || SkipWs(s, v.value.1) != |s| then None else Some(v.value.0)
  }

  // ----- reading what was written -----

  // Member keys are distinct, at every depth; numbers are finite and written as
  // JSON numbers.
  predicate WellFormed(v: Json) {
    match v
    case Num(t) => t != "" && NumberEnd(t, 0) == |t|
    case NotFinite => false
    case Arr(items) => WellFormedItems(items)
    case Obj(ms) => WellFormedMembers(ms)
    case _ => true
  }

  predicate WellFormedItems(items: Items) {
    match items
    case NoItems => true
    case Item(v, tail) => WellFormed(v) && WellFormedItems(tail)
  }

  predicate WellFormedMembers(ms: Members) {
    match ms
    case NoMembers => true
    case Member(k, v, tail) => !HasKey(tail, k) && WellFormed(v) && WellFormedMembers(tail)
  }

  predicate HasKey(ms: Members, k: string) {
    match ms
    case NoMembers => false
    case Member(k', _, tail) => k' == k || HasKey(tail, k)
  }

  // What may stand after a value: the end, or a character that continues none.
  predicate Stops(s: string, j: nat) {
    j == |s| || (j < |s| && (s[j] == ',' || s[j] == ']' || s[j] == '}'))
  }

  lemma {:induction false} DigitsEndAt(s: string, i: nat, t: string, j: nat)
    requires At(s, i, t) && j <= |t| && Stops(s, i + |t|)
    ensures DigitsEnd(s, i + j) == i + DigitsEnd(t, j)
    decreases |t| - j
  {
    if j < |t| {
      AtIndex(s, i, t, j);
      if IsDigit(t[j]) { DigitsEndAt(s, i, t, j + 1); }
    }
  }

  lemma IsAt(s: string, i: nat, t: string, j: nat, c: char)
    requires At(s, i, t) && j <= |t| && Stops(s, i + |t|) && c != ',' && c != ']' && c != '}'
    ensures Is(s, i + j, c) <==> Is(t, j, c)
  {
    if j < |t| { AtIndex(s, i, t, j); }
  }

  lemma FractionEndAt(s: string, i: nat, t: string, j: nat)
    requires At(s, i, t) && j <= |t| && Stops(s, i + |t|)
    ensures FractionEnd(s, i + j) == i + FractionEnd(t, j)
  {
    hide At, Stops;
    IsAt(s, i, t, j, '.');
    if Is(t, j, '.') { DigitsEndAt(s, i, t, j + 1); }
  }

  lemma ExponentEndAt(s: string, i: nat, t: string, j: nat)
    requires At(s, i, t) && j <= |t| && Stops(s, i + |t|)
    ensures ExponentEnd(s, i + j) == i + ExponentEnd(t, j)
  {
    hide At, Stops;
    IsAt(s, i, t, j, 'e');
    IsAt(s, i, t, j, 'E');
    if Is(t, j, 'e') || Is(t, j, 'E') {
      IsAt(s, i, t, j + 1, '+');
      IsAt(s, i, t, j + 1, '-');
      DigitsEndAt(s, i, t, if Is(t, j + 1, '+') || Is(t, j + 1, '-') then j + 2 else j + 1);
    }
  }

  lemma NumberAt(s: string, i: nat, t: string)
    requires At(s, i, t) && t != "" && NumberEnd(t, 0) == |t| && Stops(s, i + |t|)
    ensures NumberEnd(s, i) == i + |t| && s[i..i + |t|] == t
    ensures i < |s| && (s[i] == '-' || IsDigit(s[i]))
  {
    hide FractionEnd, ExponentEnd, Stops, DigitsEnd;
    IsAt(s, i, t, 0, '-');
    AtIndex(s, i, t, 0);
    var k := if Is(t, 0, '-') then 1 else 0;
    assert k < |t| && IsDigit(t[k]);
    AtIndex(s, i, t, k);
    DigitsEndAt(s, i, t, k);
    var d := if t[k] == '0' then k + 1 else DigitsEnd(t, k);
    FractionEndAt(s, i, t, d);
    ExponentEndAt(s, i, t, FractionEnd(t, d));
  }

  lemma EscapeReads(s: string, i: nat, c: char)
    requires At(s, i, EscapeChar(c))
    ensures var n := |EscapeChar(c)|;
      && n > 0 && i + n <= |s| && s[i] as int >= 32 && s[i] != '"'
      && (if s[i] == '\\' then ParseEscape(s, i + 1) == Some((c, i + n)) else c == s[i] && n == 1)
  {
    var e := EscapeChar(c);
    AtChars(s, i, e);
    hide At;
    assert s[i] == e[0];
    if s[i] == '\\' {
      assert s[i + 1] == e[1];
      if |e| > 2 {
        assert s[i + 2] == e[2] && s[i + 3] == e[3] && s[i + 4] == e[4] && s[i + 5] == e[5];
        HexReads(c as int / 16);
        HexReads(c as int % 16);
      }
    }
  }

  lemma HexReads(d: nat)
    requires d < 16
    ensures HexValue(Hex(d)) == Some(d)
  {}

  lemma {:induction false} StringReads(s: string, i: nat, t: string)
    requires At(s, i, Escape(t) + "\"")
    ensures i + |Escape(t)| + 1 <= |s|
    ensures ParseString(s, i) == Some((t, i + |Escape(t)| + 1))
    decreases |t|
  {
    hide EscapeChar, ParseEscape;
    if t == "" {
      assert Escape(t) + "\"" == "\"";
      AtIndex(s, i, "\"", 0);
    } else {
      var e := EscapeChar(t[0]);
      assert Escape(t) + "\"" == e + (Escape(t[1..]) + "\"");
      AtConcat(s, i, e, Escape(t[1..]) + "\"");
      EscapeReads(s, i, t[0]);
      StringReads(s, i + |e|, t[1..]);
      assert [t[0]] + t[1..] == t;
    }
  }

  predicate Starts(c: char) {
    c != ' ' && c != '\t' && c != '\n' && c != '\r' && c != ']' && c != '}' && c != ','
  }

  lemma PrintStarts(v: Json)
    requires WellFormed(v)
    ensures Print(v) != "" && Starts(Print(v)[0])
  {
    if v.Num? {
      assert v.text[0..|v.text|] == v.text;
      NumberAt(v.text, 0, v.text);
    }
  }

  lemma NoWs(s: string, i: nat)
    requires i < |s| ==> Starts(s[i]) || s[i] == ']' || s[i] == '}' || s[i] == ','
    requires i <= |s|
    ensures SkipWs(s, i) == i
  {}

  lemma WordReads(s: string, i: nat, word: string, v: Json)
    requires At(s, i, word)
    requires (word == "null" && v == Null) || (word == "true" && v == Bool(true)) || (word == "false" && v == Bool(false))
    ensures i + |word| <= |s| && ParseValue(s, i) == Some((v, i + |word|))
  {
    AtIndex(s, i, word, 0);
    NoWs(s, i);
    hide At;
  }

  // v is read back from its text at i.
  ghost predicate Reads(s: string, i: nat, v: Json) {
    i + |Print(v)| <= |s| && ParseValue(s, i) == Some((v, i + |Print(v)|))
  }

  lemma {:induction false} ValueReads(s: string, i: nat, v: Json)
    requires At(s, i, Print(v)) && WellFormed(v) && Stops(s, i + |Print(v)|)
    ensures Reads(s, i, v)
    decreases v, 1
  {
    hide At, ParseString, Escape, ParseWord, NumberEnd, Stops;
    match v
    case Null => WordReads(s, i, "null", v);
    case Bool(b) => WordReads(s, i, if b then "true" else "false", v);
    case Num(t) => NumberReads(s, i, t);
    case Str(t) => QuotedReads(s, i, t);
    case Arr(items) => ArrayReads(s, i, items);
    case Obj(ms) => ObjectReads(s, i, ms);
  }

  lemma NumberParses(s: string, i: nat)
    requires i < |s| && (s[i] == '-' || IsDigit(s[i])) && SkipWs(s, i) == i && NumberEnd(s, i) > i
    ensures ParseValue(s, i) == Some((Num(s[i..NumberEnd(s, i)]), NumberEnd(s, i)))
  {
    hide NumberEnd, ParseString, ParseItems, ParseMembers, ParseWord, Is, SkipWs;
  }

  lemma NumberReads(s: string, i: nat, t: string)
    requires At(s, i, t) && t != "" && NumberEnd(t, 0) == |t| && Stops(s, i + |t|)
    ensures Reads(s, i, Num(t))
  {
    hide NumberEnd, At, Stops, ParseValue, SkipWs;
    NumberAt(s, i, t);
    NoWs(s, i);
    NumberParses(s, i);
  }

  lemma QuotedReads(s: string, i: nat, t: string)
    requires At(s, i, Quote(t))
    ensures Reads(s, i, Str(t)) && Is(s, i, '"')
    ensures ParseString(s, i + 1) == Some((t, i + |Quote(t)|))
  {
    hide At, ParseString, Escape;
    assert Quote(t) == "\"" + (Escape(t) + "\"");
    AtConcat(s, i, "\"", Escape(t) + "\"");
    AtIndex(s, i, "\"", 0);
    StringReads(s, i + 1, t);
    NoWs(s, i);
  }

  lemma BracketsAt(s: string, i: nat, open: char, text: string, close: char)
    requires At(s, i, [open] + text + [close])
    ensures Is(s, i, open) && At(s, i + 1, text + [close]) && At(s, i + 1, text) && Is(s, i + 1 + |text|, close)
  {
    hide At;
    assert [open] + text + [close] == [open] + (text + [close]);
    AtConcat(s, i, [open], text + [close]);
    AtConcat(s, i + 1, text, [close]);
    AtIndex(s, i, [open], 0);
    AtIndex(s, i + 1 + |text|, [close], 0);
  }

  lemma ArrayReads(s: string, i: nat, items: Items)
    requires At(s, i, Print(Arr(items))) && WellFormedItems(items)
    ensures Reads(s, i, Arr(items))
    decreases items, 3
  {
    hide At, ParseItems, PrintItems;
    BracketsAt(s, i, '[', PrintItems(items), ']');
    NoWs(s, i);
    if items == NoItems {
      NoItemsText();
      NoWs(s, i + 1);
    } else {
      ItemsRead(s, i + 1, items);
      ItemsStart(s, i + 1, items);
      NoWs(s, i + 1);
    }
  }

  lemma NoItemsText()
    ensures PrintItems(NoItems) == "" && PrintMembers(NoMembers) == ""
  {}

  lemma ItemsStart(s: string, i: nat, items: Items)
    requires items != NoItems && WellFormedItems(items) && At(s, i, PrintItems(items))
    ensures i < |s| && Starts(s[i])
  {
    hide At, Print, WellFormed;
    PrintStarts(items.head);
    AtIndex(s, i, PrintItems(items), 0);
  }

  lemma {:induction false} ItemsRead(s: string, i: nat, items: Items)
    requires items != NoItems && WellFormedItems(items) && At(s, i, PrintItems(items) + "]")
    ensures i + |PrintItems(items)| + 1 <= |s|
    ensures ParseItems(s, i) == Some((items, i + |PrintItems(items)| + 1))
    decreases items, 2
  {
    hide At, Print, WellFormed, ParseValue;
    var v, tail := items.head, items.tail;
    var j := i + |Print(v)|;
    if tail == NoItems {
      assert PrintItems(items) == Print(v);
      AtConcat(s, i, Print(v), "]");
      AtIndex(s, j, "]", 0);
      ValueReads(s, i, v);
      NoWs(s, j);
    } else {
      var rest := PrintItems(tail) + "]";
      assert PrintItems(items) + "]" == Print(v) + ("," + rest);
      AtConcat(s, i, Print(v), "," + rest);
      AtConcat(s, j, ",", rest);
      AtIndex(s, j, ",", 0);
      ValueReads(s, i, v);
      NoWs(s, j);
      ItemsRead(s, j + 1, tail);
    }
  }

  function Append(a: Members, b: Members): Members {
    match a
    case NoMembers => b
    case Member(k, v, tail) => Member(k, v, Append(tail, b))
  }

  predicate Disjoint(a: Members, b: Members) {
    match b
    case NoMembers => true
    case Member(k, _, tail) => !HasKey(a, k) && Disjoint(a, tail)
  }

  lemma {:induction false} PutFresh(a: Members, k: string, v: Json, b: Members)
    requires !HasKey(a, k)
    ensures Append(Put(a, k, v), b) == Append(a, Member(k, v, b))
    ensures forall k' :: HasKey(Put(a, k, v), k') <==> HasKey(a, k') || k' == k
  {
    if a != NoMembers { PutFresh(a.tail, k, v, b); }
  }

  lemma {:induction false} StillDisjoint(a: Members, a': Members, k: string, b: Members)
    requires Disjoint(a, b) && !HasKey(b, k) && forall k' :: HasKey(a', k') <==> HasKey(a, k') || k' == k
    ensures Disjoint(a', b)
  {
    if b != NoMembers { StillDisjoint(a, a', k, b.tail); }
  }

  lemma {:induction false} NothingDisjoint(b: Members)
    ensures Disjoint(NoMembers, b) && Append(NoMembers, b) == b
  {
    if b != NoMembers { NothingDisjoint(b.tail); }
  }

  lemma {:induction false} AppendNothing(a: Members)
    ensures Append(a, NoMembers) == a
  {
    if a != NoMembers { AppendNothing(a.tail); }
  }

  lemma ObjectReads(s: string, i: nat, ms: Members)
    requires At(s, i, Print(Obj(ms))) && WellFormedMembers(ms)
    ensures Reads(s, i, Obj(ms))
    decreases ms, 3
  {
    hide At, ParseMembers, PrintMembers;
    BracketsAt(s, i, '{', PrintMembers(ms), '}');
    NoWs(s, i);
    NoItemsText();
    NothingDisjoint(ms);
    if ms == NoMembers {
      NoWs(s, i + 1);
    } else {
      MembersRead(s, i + 1, ms, NoMembers);
      MembersStart(s, i + 1, ms);
      NoWs(s, i + 1);
    }
  }

  lemma MembersStart(s: string, i: nat, ms: Members)
    requires ms != NoMembers && At(s, i, PrintMembers(ms))
    ensures Is(s, i, '"')
  {
    hide At, Print, Escape;
    AtIndex(s, i, PrintMembers(ms), 0);
  }

  lemma MemberText(ms: Members)
    requires ms != NoMembers
    ensures PrintMembers(ms) + "}" ==
      Quote(ms.key) + ":" + Print(ms.value)
        + (if ms.tail == NoMembers then "}" else "," + (PrintMembers(ms.tail) + "}"))
  {
    hide Quote, Print;
  }

  lemma {:induction false} MembersRead(s: string, i: nat, ms: Members, acc: Members)
    requires ms != NoMembers && WellFormedMembers(ms) && Disjoint(acc, ms) && At(s, i, PrintMembers(ms) + "}")
    ensures i + |PrintMembers(ms)| + 1 <= |s|
    ensures ParseMembers(s, i, acc) == Some((Append(acc, ms), i + |PrintMembers(ms)| + 1))
    decreases ms, 2
  {
    hide At, Print, WellFormed, ParseValue, ParseString, Quote, Put, Append, PrintMembers, ParseMembers;
    var k, v, tail := ms.key, ms.value, ms.tail;
    var q, p := Quote(k), Print(v);
    var c := i + |q|;
    var j := c + 1 + |p|;
    var acc' := Put(acc, k, v);
    PutFresh(acc, k, v, tail);
    MemberText(ms);
    if tail == NoMembers {
      MemberAt(s, i, q, p, "}");
      QuotedReads(s, i, k);
      ValueReads(s, c + 1, v);
      OneMember(s, i, k, v, acc, '}');
      PutFresh(acc, k, v, NoMembers);
      AppendNothing(acc');
    } else {
      var rest := PrintMembers(tail) + "}";
      MemberAt(s, i, q, p, "," + rest);
      AtConcat(s, j, ",", rest);
      QuotedReads(s, i, k);
      ValueReads(s, c + 1, v);
      OneMember(s, i, k, v, acc, ',');
      StillDisjoint(acc, acc', k, tail);
      MembersRead(s, j + 1, tail, acc');
    }
  }

  lemma MemberAt(s: string, i: nat, q: string, p: string, rest: string)
    requires At(s, i, q + ":" + p + rest) && rest != "" && (rest[0] == ',' || rest[0] == '}')
    ensures var c := i + |q|; var j := c + 1 + |p|;
      At(s, i, q) && Is(s, c, ':') && At(s, c + 1, p) && At(s, j, rest) && Is(s, j, rest[0]) && Stops(s, j)
  {
    hide At;
    assert q + ":" + p + rest == q + (":" + (p + rest));
    AtConcat(s, i, q, ":" + (p + rest));
    AtConcat(s, i + |q|, ":", p + rest);
    AtConcat(s, i + |q| + 1, p, rest);
    AtIndex(s, i + |q|, ":", 0);
    AtIndex(s, i + |q| + 1 + |p|, rest, 0);
  }

  // What ParseMembers does with one member.
  lemma OneMember(s: string, i: nat, k: string, v: Json, acc: Members, next: char)
    requires Is(s, i, '"') && i + |Quote(k)| <= |s| && ParseString(s, i + 1) == Some((k, i + |Quote(k)|))
    requires Is(s, i + |Quote(k)|, ':') && Reads(s, i + |Quote(k)| + 1, v)
    requires Is(s, i + |Quote(k)| + 1 + |Print(v)|, next) && (next == ',' || next == '}')
    ensures var j := i + |Quote(k)| + 1 + |Print(v)|;
      ParseMembers(s, i, acc) ==
        if next == '}' then Some((Put(acc, k, v), j + 1)) else ParseMembers(s, j + 1, Put(acc, k, v))
  {
    hide ParseValue, ParseString, Quote, Print, Put;
    NoWs(s, i);
    NoWs(s, i + |Quote(k)|);
    NoWs(s, i + |Quote(k)| + 1 + |Print(v)|);
  }

  // JSON.parse undoes JSON.stringify.
  lemma ParsePrint(v: Json)
    requires WellFormed(v)
    ensures Parse(Print(v)) == Some(v)
  {
    hide Print, ParseValue, WellFormed;
    assert Print(v)[0..|Print(v)|] == Print(v);
    ValueReads(Print(v), 0, v);
  }

  // Equal texts are written only for equal values.
  lemma PrintInjective(v: Json, w: Json)
    requires WellFormed(v) && WellFormed(w) && Print(v) == Print(w)
    ensures v == w
  {
    hide Print, WellFormed, Parse;
    ParsePrint(v);
    ParsePrint(w);
  }

  // ----- no text is shorter -----

  lemma EscapeIsShortest(s: string, i: nat)
    requires i <= |s| && ParseEscape(s, i).Some?
    ensures |EscapeChar(ParseEscape(s, i).value.0)| <= ParseEscape(s, i).value.1 - i + 1
  {}

  lemma {:induction false} StringIsShortest(s: string, i: nat)
    requires i <= |s| && ParseString(s, i).Some?
    ensures |Escape(ParseString(s, i).value.0)| + 1 <= ParseString(s, i).value.1 - i
    decreases |s| - i
  {
    hide ParseEscape, EscapeChar;
    if s[i] != '"' {
      var c := if s[i] == '\\' then ParseEscape(s, i + 1) else Some((s[i], i + 1));
      if s[i] == '\\' { EscapeIsShortest(s, i + 1); } else { PlainChar(s[i]); }
      StringIsShortest(s, c.value.1);
      var rest := ParseString(s, c.value.1).value.0;
      assert ([c.value.0] + rest)[1..] == rest;
    }
  }

  lemma PlainChar(c: char)
    requires c as int >= 32 && c != '"' && c != '\\'
    ensures EscapeChar(c) == [c]
  {}

  lemma {:induction false} ValueIsShortest(s: string, i: nat)
    requires i <= |s| && ParseValue(s, i).Some?
    ensures |Print(ParseValue(s, i).value.0)| <= ParseValue(s, i).value.1 - i
    decreases |s| - i, 1
  {
    hide ParseString, ParseItems, ParseMembers, NumberEnd, Escape, SkipWs;
    var j := SkipWs(s, i);
    match s[j]
    case '"' => StringIsShortest(s, j + 1);
    case '[' => if !Is(s, SkipWs(s, j + 1), ']') { ItemsAreShortest(s, j + 1); }
    case '{' => if !Is(s, SkipWs(s, j + 1), '}') { MembersAreShortest(s, j + 1, NoMembers); }
    case _ =>
  }

  lemma {:induction false} ItemsAreShortest(s: string, i: nat)
    requires i <= |s| && ParseItems(s, i).Some?
    ensures |PrintItems(ParseItems(s, i).value.0)| + 1 <= ParseItems(s, i).value.1 - i
    decreases |s| - i, 2
  {
    hide ParseValue, Print, SkipWs;
    ValueIsShortest(s, i);
    var j := SkipWs(s, ParseValue(s, i).value.1);
    if !Is(s, j, ']') { ItemsAreShortest(s, j + 1); }
  }

  // What the members take, with a comma before those to come.
  function Taken(ms: Members): nat { |PrintMembers(ms)| + (if ms == NoMembers then 0 else 1) }

  lemma {:induction false} PutTakes(ms: Members, k: string, v: Json)
    ensures |PrintMembers(Put(ms, k, v))| <= Taken(ms) + |Quote(k)| + 1 + |Print(v)| && Put(ms, k, v) != NoMembers
  {
    hide Quote, Print;
    if ms.Member? && ms.key != k { PutTakes(ms.tail, k, v); }
  }

  lemma {:induction false} MembersAreShortest(s: string, i: nat, ms: Members)
    requires i <= |s| && ParseMembers(s, i, ms).Some?
    ensures |PrintMembers(ParseMembers(s, i, ms).value.0)| + 1 <= Taken(ms) + (ParseMembers(s, i, ms).value.1 - i)
    decreases |s| - i, 2
  {
    hide ParseValue, ParseString, Print, SkipWs, PrintMembers, Put, Escape;
    var q := SkipWs(s, i);
    var k := ParseString(s, q + 1).value;
    StringIsShortest(s, q + 1);
    var c := SkipWs(s, k.1);
    var v := ParseValue(s, c + 1).value;
    ValueIsShortest(s, c + 1);
    var j := SkipWs(s, v.1);
    PutTakes(ms, k.0, v.0);
    if !Is(s, j, '}') { MembersAreShortest(s, j + 1, Put(ms, k.0, v.0)); }
  }

  // No text of a value is shorter than the one that is printed.
  lemma PrintIsShortest(t: string, v: Json)
    requires Parse(t) == Some(v)
    ensures |Print(v)| <= |t|
  {
    hide ParseValue, Print;
    ValueIsShortest(t, 0);
  }

  // ----- white space -----

  predicate IsWs(c: char) { c == ' ' || c == '\t' || c == '\n' || c == '\r' }

  // White space before a value is no part of it.
  lemma SpacedReads(s: string, i: nat, w: string, v: Json)
    requires At(s, i, w + Print(v)) && (forall c <- w :: IsWs(c)) && WellFormed(v) && Stops(s, i + |w| + |Print(v)|)
    ensures var e := i + |w| + |Print(v)|; e <= |s| && ParseValue(s, i) == Some((v, e))
  {
    hide At, Print, WellFormed, ParseString, ParseItems, ParseMembers, ParseWord, NumberEnd, Stops;
    AtConcat(s, i, w, Print(v));
    ValueReads(s, i + |w|, v);
    PrintStarts(v);
    AtIndex(s, i + |w|, Print(v), 0);
    NoWs(s, i + |w|);
    WsSkips(s, i, w);
  }

  lemma {:induction false} WsSkips(s: string, i: nat, w: string)
    requires At(s, i, w) && (forall c <- w :: IsWs(c)) && i + |w| <= |s| && SkipWs(s, i + |w|) == i + |w|
    ensures SkipWs(s, i) == i + |w|
    decreases |w|
  {
    if w != "" {
      AtIndex(s, i, w, 0);
      assert w[0] in w && w == [w[0]] + w[1..];
      AtConcat(s, i, [w[0]], w[1..]);
      assert forall c <- w[1..] :: c in w;
      WsSkips(s, i + 1, w[1..]);
    }
  }
}
