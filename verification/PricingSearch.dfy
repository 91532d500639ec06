// The search for an innermost coalesce call, on the printed text of a tree.
module PricingSearch {
  import opened Text
  import opened PricingScanner
  import opened PricingTree
  import opened PricingLexing
  import opened PricingTrim
  import opened PricingKeys

  // ----- where calls are found -----

  // A tree cannot complete, with the k characters before it, an opening token
  // that is not a coalesce node of its own.
  lemma {:induction false} NotOpening(s: string, p: nat, k: nat, e: Expr, place: Context)
    requires OpensAt(s, p) && k < OPENING && Stands(s, p + k, e)
    requires WellFormed(e, COALESCE[..k], place) && (k == 0 ==> !e.Coalesce?)
    ensures false
    decreases OPENING - k
  {
    hide Print, After, Stands, RefEnd, RefEndsBefore, IsPlaceholder, Name;
    var i := p + k;
    OpeningChar(s, p, k);
    match e
    case End => EndStands(s, i);
    case Ch(c, rest) =>
      ChStands(s, i, c, rest);
      assert COALESCE[..k] + [c] == COALESCE[..k + 1];
      NotOpening(s, p, k + 1, rest, place);
    case Ref(r, rest) => RefStands(s, i, r, rest); AtIndex(s, i, r, 0); RefBegins(r);
    case Hole(m, rest) => HoleStands(s, i, m, rest); NameChars(m);
    case Group(b, rest) => GroupStands(s, i, b, rest);
    case Coalesce(_, _, _) =>
  }

  lemma OpeningChar(s: string, p: nat, k: nat)
    requires OpensAt(s, p) && k < OPENING
    ensures |COALESCE[..k]| == k && s[p + k] == COALESCE[k] && (k + 1 < OPENING ==> IsLetter(s[p + k]))
    ensures k + 1 < OPENING ==> COALESCE[..k] != "coalesce"
    ensures k + 1 == OPENING ==> COALESCE[..k] == "coalesce" && s[p + k] == '('
  {}

  // Whether the character before e is one of an identifier matters only to an e
  // that begins with such a character.
  predicate Fits(e: Expr, word: string, glued: bool) {
    glued == (word != "") || e.End? || e.Group? || (e.Ch? && !IsIdentChar(e.c))
  }

  lemma NoOpeningHere(s: string, i: nat, e: Expr, word: string, place: Context, glued: bool)
    requires Stands(s, i, e) && WellFormed(e, word, place) && Fits(e, word, glued) && !e.Coalesce?
    ensures OpensAt(s, i) ==> glued
  {
    hide Print, After, Stands, RefEnd, RefEndsBefore, IsPlaceholder, Name;
    if OpensAt(s, i) && !glued {
      OpeningChar(s, i, 0);
      if word == "" {
        assert COALESCE[..0] == "";
        NotOpening(s, i, 0, e, place);
      } else {
        match e
        case End => EndStands(s, i);
        case Ch(c, rest) => ChStands(s, i, c, rest);
        case Group(b, rest) => GroupStands(s, i, b, rest);
        case _ =>
      }
    }
  }

  predicate LastIsIdent(t: string)
    requires t != []
  {
    IsIdentChar(t[|t| - 1])
  }

  lemma SkipRef(s: string, i: nat, r: string, rest: Expr, place: Context, glued: bool)
    requires At(s, i, r) && Stands(s, i + |r|, rest) && WellFormed(Ref(r, rest), "", place) && IsClear(r)
    ensures r != [] && Fits(rest, "", LastIsIdent(r))
    ensures FirstCoalesce(s, i, glued) == FirstCoalesce(s, i + |r|, LastIsIdent(r))
  {
    hide Print, Stands, RefEnd;
    Bounded(s, i + |r|, rest);
    AtChars(s, i, r);
    RefStopsBefore(s, i + |r|, r, rest);
    assert s[i] == r[0] == '$' by { RefBegins(r); }
    forall j | i < j < i + |r| && OpensAt(s, j) ensures IsIdentChar(s[j - 1]) {
      OpeningInRef(s, i, r, rest, place, j);
    }
    SkipPlain(s, i, i + |r|, glued);
    assert s[i + |r| - 1] == r[|r| - 1];
  }

  lemma RefBegins(r: string)
    requires r != [] && RefEnd(r, 0) == |r|
    ensures r[0] == '$'
  {}

  // A token that stands within a reference stands in its text.
  lemma OpensWithin(s: string, i: nat, r: string, j: nat)
    requires At(s, i, r) && i < j && j + OPENING <= i + |r| && OpensAt(s, j)
    ensures OpensAt(r, j - i) && s[j - 1] == r[j - 1 - i]
  {
    AtChars(s, i, r);
    hide At;
    var k := j - i;
    assert s[j] == r[k] && s[j + 1] == r[k + 1] && s[j + 2] == r[k + 2] && s[j + 3] == r[k + 3] && s[j + 4] == r[k + 4];
    assert s[j + 5] == r[k + 5] && s[j + 6] == r[k + 6] && s[j + 7] == r[k + 7] && s[j + 8] == r[k + 8];
    assert s[j - 1] == s[i + (k - 1)];
  }

  // An opening token that begins inside a reference is the tail of an identifier.
  lemma OpeningInRef(s: string, i: nat, r: string, rest: Expr, place: Context, j: nat)
    requires At(s, i, r) && Stands(s, i + |r|, rest) && WellFormed(Ref(r, rest), "", place) && IsClear(r)
    requires i < j < i + |r| && OpensAt(s, j)
    ensures IsIdentChar(s[j - 1])
  {
    hide Print, Stands, RefEnd, After;
    AtChars(s, i, r);
    RefStopsBefore(s, i + |r|, r, rest);
    var last := j + OPENING - 1;
    if last < i + |r| {
      OpensWithin(s, i, r, j);
      assert !FreeAt(r, j - i);
    } else if last > i + |r| {
      OpeningChar(s, j, i + |r| - j);
    } else {
      assert s[i + |r|] == '(';
      assert r[|r| - 8..] == "coalesce";
      match rest
      case End => EndStands(s, i + |r|);
      case Ch(c, rest') => ChStands(s, i + |r|, c, rest');
      case Group(_, _) => assert r[|r| - 9] == s[j - 1];
    }
  }

  lemma SkipHole(s: string, i: nat, k: nat, rest: Expr, place: Context, glued: bool)
    requires At(s, i, Name(k)) && Stands(s, i + |Name(k)|, rest) && WellFormed(Hole(k, rest), "", place)
    ensures Name(k) != [] && Fits(rest, "", LastIsIdent(Name(k)))
    ensures FirstCoalesce(s, i, glued) == FirstCoalesce(s, i + |Name(k)|, LastIsIdent(Name(k)))
  {
    hide Print, Stands, Name;
    var j := i + |Name(k)|;
    Bounded(s, j, rest);
    NameChars(k);
    forall m | i <= m < j ensures s[m] != 'c' {
      AtIndex(s, i, Name(k), m - i);
      assert Name(k)[m - i] in Name(k);
    }
    SkipPlain(s, i, j, glued);
    AtIndex(s, i, Name(k), |Name(k)| - 1);
  }

  // A call of the tree: its offset in the text, its argument and its fallback.
  datatype Call = Call(at: nat, arg: Expr, fallback: Expr) {
    function Later(n: nat): Call { Call(at + n, arg, fallback) }
  }

  // The first call of e in the order of the text.
  function FirstCall(e: Expr): Call
    requires Calls(e) > 0
  {
    match e
    case Ch(_, rest) => FirstCall(rest).Later(1)
    case Ref(r, rest) => FirstCall(rest).Later(|r|)
    case Hole(k, rest) => FirstCall(rest).Later(|Name(k)|)
    case Group(b, rest) =>
      if Calls(b) > 0 then FirstCall(b).Later(1) else FirstCall(rest).Later(|Print(b)| + 2)
    case Coalesce(a, f, _) => Call(0, a, f)
  }

  // No key before the first call of e, or anywhere if it has none, holds a free
  // token.
  predicate Leads(e: Expr) {
    match e
    case End => true
    case Ch(_, rest) => Leads(rest)
    case Ref(r, rest) => IsClear(r) && Leads(rest)
    case Hole(_, rest) => Leads(rest)
    case Group(b, rest) => Leads(b) && (Calls(b) > 0 || Leads(rest))
    case Coalesce(_, _, _) => true
  }

  lemma {:induction false} ClearLeads(e: Expr)
    requires Clear(e)
    ensures Leads(e)
    decreases e
  {
    hide IsClear;
    match e
    case End =>
    case Ch(_, rest) => ClearLeads(rest);
    case Ref(r, rest) => ClearParts([r], [], Refs(rest)); ClearLeads(rest);
    case Hole(_, rest) => ClearLeads(rest);
    case Group(b, rest) => ClearParts(Refs(b), [], Refs(rest)); ClearLeads(b); ClearLeads(rest);
    case Coalesce(_, _, _) =>
  }

  lemma {:induction false} ReadableLeads(e: Expr, place: Context, post: string, last: bool)
    requires Readable(e, place, post, last) && Calls(e) > 0
    ensures Leads(e)
    decreases e
  {
    hide IsClear, Print, Stops;
    match e
    case Ch(_, rest) => ReadableLeads(rest, place, post, last);
    case Ref(_, rest) => ReadableLeads(rest, place, post, last);
    case Hole(_, rest) => ReadableLeads(rest, place, post, last);
    case Group(b, rest) =>
      if Calls(b) > 0 {
        ReadableLeads(b, Nested(place), Behind(place, rest, post), last && Calls(rest) == 0);
      } else {
        ClearBefore(b, Nested(place), Behind(place, rest, post));
        ClearLeads(b);
        ReadableLeads(rest, place, post, last);
      }
    case Coalesce(_, _, _) =>
  }

  // What the search for the first call finds from the start of a tree.
  ghost predicate Finds(s: string, i: nat, e: Expr, found: Option<nat>) {
    if Calls(e) > 0 then found == Some(i + FirstCall(e).at)
    else After(e, i) <= |s| && found == FirstCoalesce(s, After(e, i), false)
  }

  lemma {:induction false} FirstCallIsFound(s: string, i: nat, e: Expr, word: string, place: Context, glued: bool)
    requires Stands(s, i, e) && WellFormed(e, word, place) && Fits(e, word, glued) && Leads(e)
    ensures i <= |s| && Finds(s, i, e, FirstCoalesce(s, i, glued))
    decreases e, 1
  {
    hide At, Print, After, Stands, Closes, IsRefText, RefEndsBefore, IsPlaceholder, Name, OpensAt, FirstCoalesce,
      IsIdentChar, LastIsIdent, IsClear;
    Bounded(s, i, e);
    if !e.Coalesce? { NoOpeningHere(s, i, e, word, place, glued); }
    match e
    case End =>
      EndStands(s, i);
      StopsAt(s, i, glued);
    case Ch(c, rest) =>
      ChStands(s, i, c, rest);
      NextFirst(s, i, glued);
      FirstCallIsFound(s, i + 1, rest, if IsIdentChar(c) then word + [c] else "", place, IsIdentChar(c));
      assert Finds(s, i, e, FirstCoalesce(s, i, glued));
    case Ref(r, rest) =>
      RefStands(s, i, r, rest);
      SkipRef(s, i, r, rest, place, glued);
      FirstCallIsFound(s, i + |r|, rest, "", place, LastIsIdent(r));
      assert Finds(s, i, e, FirstCoalesce(s, i, glued));
    case Hole(k, rest) =>
      HoleStands(s, i, k, rest);
      SkipHole(s, i, k, rest, place, glued);
      FirstCallIsFound(s, i + |Name(k)|, rest, "", place, LastIsIdent(Name(k)));
      assert Finds(s, i, e, FirstCoalesce(s, i, glued));
    case Group(b, rest) => FirstCallInGroup(s, i, b, rest, place, glued);
    case Coalesce(a, f, rest) =>
      CoalesceStands(s, i, a, f, rest);
      FirstHere(s, i);
      assert Finds(s, i, e, FirstCoalesce(s, i, glued));
  }

  lemma FirstCallInGroup(s: string, i: nat, b: Expr, rest: Expr, place: Context, glued: bool)
    requires Stands(s, i, Group(b, rest)) && WellFormed(b, "", Nested(place)) && WellFormed(rest, "", place)
    requires Leads(b) && (Calls(b) > 0 || Leads(rest))
    ensures i <= |s| && Finds(s, i, Group(b, rest), FirstCoalesce(s, i, glued))
    decreases Group(b, rest), 0
  {
    hide At, Print, After, Stands, Closes, WellFormed, OpensAt, FirstCoalesce, Leads, IsIdentChar;
    Bounded(s, i, Group(b, rest));
    GroupStands(s, i, b, rest);
    PastBracket(s, i, glued);
    FitsPlain(b);
    FirstCallIsFound(s, i + 1, b, "", Nested(place), false);
    var j := After(b, i + 1);
    AfterIs(b, i + 1);
    if Calls(b) == 0 {
      PastBracket(s, j, false);
      FitsPlain(rest);
      FirstCallIsFound(s, j + 1, rest, "", place, false);
    }
  }

  lemma AfterIs(e: Expr, i: nat)
    ensures After(e, i) == i + |Print(e)|
  {}

  lemma NextFirst(s: string, i: nat, glued: bool)
    requires i < |s| && (OpensAt(s, i) ==> glued)
    ensures FirstCoalesce(s, i, glued) == FirstCoalesce(s, i + 1, IsIdentChar(s[i]))
  {}

  lemma PastBracket(s: string, j: nat, glued: bool)
    requires j < |s| && (s[j] == '(' || s[j] == ')' || s[j] == ',')
    ensures FirstCoalesce(s, j, glued) == FirstCoalesce(s, j + 1, false)
  {}

  lemma StopsAt(s: string, j: nat, glued: bool)
    requires Closes(s, j)
    ensures FirstCoalesce(s, j, glued) == FirstCoalesce(s, j, false)
  {}

  // ----- innermost calls -----

  // The first call of e, in the order of the text, that has no call inside it.
  function InnerCall(e: Expr): Call
    requires Calls(e) > 0
  {
    match e
    case Ch(_, rest) => InnerCall(rest).Later(1)
    case Ref(r, rest) => InnerCall(rest).Later(|r|)
    case Hole(k, rest) => InnerCall(rest).Later(|Name(k)|)
    case Group(b, rest) =>
      if Calls(b) > 0 then InnerCall(b).Later(1) else InnerCall(rest).Later(|Print(b)| + 2)
    case Coalesce(a, f, _) =>
      if Calls(a) > 0 then InnerCall(a).Later(OPENING)
      else if Calls(f) > 0 then InnerCall(f).Later(OPENING + |Print(a)| + 1)
      else Call(0, a, f)
  }

  function InnerOf(c: Call): Call {
    if Calls(c.arg) > 0 then InnerCall(c.arg).Later(c.at + OPENING)
    else if Calls(c.fallback) > 0 then InnerCall(c.fallback).Later(c.at + OPENING + |Print(c.arg)| + 1)
    else c
  }

  predicate CallWellFormed(c: Call) {
    WellFormed(c.arg, "", Argument) && WellFormed(c.fallback, "", Inside)
  }

  predicate CallReadable(c: Call) {
    Readable(c.arg, Argument, "", Calls(c.fallback) == 0) && Readable(c.fallback, Inside, "", true)
  }

  lemma {:induction false} FirstIsReadable(e: Expr, place: Context, post: string, last: bool)
    requires Calls(e) > 0 && Readable(e, place, post, last)
    ensures CallReadable(FirstCall(e))
    decreases e
  {
    hide IsClear, Print, Name, Stops;
    match e
    case Ch(_, rest) => FirstIsReadable(rest, place, post, last);
    case Ref(_, rest) => FirstIsReadable(rest, place, post, last);
    case Hole(_, rest) => FirstIsReadable(rest, place, post, last);
    case Group(b, rest) =>
      if Calls(b) > 0 { FirstIsReadable(b, Nested(place), Behind(place, rest, post), last && Calls(rest) == 0); }
      else {
        ClearBefore(b, Nested(place), Behind(place, rest, post));
        FirstIsReadable(rest, place, post, last);
      }
    case Coalesce(a, f, rest) => LastReadable(f, Inside, "", last && Calls(rest) == 0);
  }

  lemma {:induction false} InnerIsReadable(e: Expr, word: string, place: Context, post: string, last: bool)
    requires Calls(e) > 0 && WellFormed(e, word, place) && Readable(e, place, post, last)
    ensures CallReadable(InnerCall(e))
    decreases e
  {
    hide WellFormed, Readable;
    InnerOfFirst(e, word, place);
    FirstIsReadable(e, place, post, last);
    var c := FirstCall(e);
    if Calls(c.arg) > 0 { InnerIsReadable(c.arg, "", Argument, "", Calls(c.fallback) == 0); }
    else if Calls(c.fallback) > 0 { InnerIsReadable(c.fallback, "", Inside, "", true); }
  }

  lemma {:induction false} InnerOfFirst(e: Expr, word: string, place: Context)
    requires Calls(e) > 0 && WellFormed(e, word, place)
    ensures var c := FirstCall(e);
      InnerCall(e) == InnerOf(c) && CallWellFormed(c) && c.arg < e && c.fallback < e
    decreases e
  {
    hide Print, Name, IsRefText, IsPlaceholder, RefEndsBefore;
    match e
    case Ch(c, rest) => InnerOfFirst(rest, if IsIdentChar(c) then word + [c] else "", place);
    case Ref(r, rest) => InnerOfFirst(rest, "", place);
    case Hole(k, rest) => InnerOfFirst(rest, "", place);
    case Group(b, rest) =>
      if Calls(b) > 0 { InnerOfFirst(b, "", Nested(place)); } else { InnerOfFirst(rest, "", place); }
    case Coalesce(a, f, _) =>
  }

  lemma {:induction false} InnerIsInner(e: Expr, word: string, place: Context)
    requires Calls(e) > 0 && WellFormed(e, word, place)
    ensures var c := InnerCall(e); CallWellFormed(c) && Calls(c.arg) == 0 && Calls(c.fallback) == 0
    decreases e
  {
    InnerOfFirst(e, word, place);
    var c := FirstCall(e);
    if Calls(c.arg) > 0 { InnerIsInner(c.arg, "", Argument); }
    else if Calls(c.fallback) > 0 { InnerIsInner(c.fallback, "", Inside); }
  }

  lemma {:induction false} FirstCallStands(s: string, i: nat, e: Expr)
    requires Calls(e) > 0 && Stands(s, i, e)
    ensures var c := FirstCall(e); CallStandsAt(s, i + c.at, c.arg, c.fallback)
    decreases e
  {
    hide At, Stands, After, Name, OpensAt, Print, CallStandsAt;
    match e
    case Ch(c, rest) =>
      ChStands(s, i, c, rest);
      FirstCallStands(s, i + 1, rest);
      assert CallStandsAt(s, i + FirstCall(e).at, FirstCall(e).arg, FirstCall(e).fallback);
    case Ref(r, rest) =>
      RefStands(s, i, r, rest);
      FirstCallStands(s, i + |r|, rest);
      assert CallStandsAt(s, i + FirstCall(e).at, FirstCall(e).arg, FirstCall(e).fallback);
    case Hole(k, rest) =>
      HoleStands(s, i, k, rest);
      FirstCallStands(s, i + |Name(k)|, rest);
      assert CallStandsAt(s, i + FirstCall(e).at, FirstCall(e).arg, FirstCall(e).fallback);
    case Group(b, rest) =>
      GroupStands(s, i, b, rest);
      AfterIs(b, i + 1);
      if Calls(b) > 0 {
        FirstCallStands(s, i + 1, b);
      } else {
        FirstCallStands(s, After(b, i + 1) + 1, rest);
      }
      assert CallStandsAt(s, i + FirstCall(e).at, FirstCall(e).arg, FirstCall(e).fallback);
    case Coalesce(a, f, rest) =>
      CoalesceStands(s, i, a, f, rest);
  }

  function CallMatch(c: Call, i: nat): Match {
    Match(Trim(Print(c.arg)), Trim(Print(c.fallback)), i + c.at, CallEnd(i + c.at, c.arg, c.fallback))
  }

  // What extractCoalesce finds from the start of a tree on.
  lemma ExtractFromTree(s: string, i: nat, e: Expr, place: Context)
    requires Stands(s, i, e) && WellFormed(e, "", place) && Leads(e)
    ensures i <= |s| && After(e, i) <= |s|
    ensures ExtractFrom(s, i) ==
            if Calls(e) > 0 then Some(CallMatch(FirstCall(e), i)) else ExtractFrom(s, After(e, i))
  {
    hide Stands, WellFormed, FirstCoalesce, CallAt, After, Trim, Print, FirstCall, CallEnd, At;
    Bounded(s, i, e);
    FitsPlain(e);
    FirstCallIsFound(s, i, e, "", place, false);
    if Calls(e) > 0 {
      var c := FirstCall(e);
      FirstCallStands(s, i, e);
      InnerOfFirst(e, "", place);
      CallFound(s, i + c.at, c.arg, c.fallback);
    }
  }

  lemma FitsPlain(e: Expr)
    ensures Fits(e, "", false)
  {}

  // A search that has come upon a token that begins no call.
  predicate Ends(s: string, found: Option<nat>) { found.Some? && OpensAt(s, found.value) && CallAt(s, found.value).None? }

  lemma TailText(s: string, j: nat, e: Expr, post: string)
    requires Stands(s, j, e) && After(e, j) <= |s| && s[After(e, j)..] == post
    ensures j <= |s| && s[j..] == Print(e) + post
  {
    assert s[j..] == s[j..After(e, j)] + s[After(e, j)..];
  }

  // Without calls, and with a free token in a key, the search ends at the first.
  lemma {:induction false} EndsInKey(s: string, i: nat, e: Expr, word: string, place: Context, glued: bool, post: string, last: bool)
    requires Stands(s, i, e) && WellFormed(e, word, place) && Fits(e, word, glued)
    requires Calls(e) == 0 && !Clear(e) && Readable(e, place, post, last)
    requires place == Outside ==> After(e, i) <= |s| && s[After(e, i)..] == post
    ensures i <= |s| && Ends(s, FirstCoalesce(s, i, glued))
    decreases e, 1
  {
    hide At, Print, After, Stands, Closes, IsRefText, RefEndsBefore, IsPlaceholder, Name, OpensAt, FirstCoalesce,
      IsIdentChar, LastIsIdent, IsClear, Stops, CallAt, RefFits;
    Bounded(s, i, e);
    NoOpeningHere(s, i, e, word, place, glued);
    match e
    case End =>
    case Ch(c, rest) =>
      ChStands(s, i, c, rest);
      NextFirst(s, i, glued);
      EndsInKey(s, i + 1, rest, if IsIdentChar(c) then word + [c] else "", place, IsIdentChar(c), post, last);
    case Ref(r, rest) =>
      RefStands(s, i, r, rest);
      if IsClear(r) {
        SkipRef(s, i, r, rest, place, glued);
        ClearParts([r], [], Refs(rest));
        EndsInKey(s, i + |r|, rest, "", place, LastIsIdent(r), post, last);
      } else {
        if place == Outside { TailText(s, i + |r|, rest, post); }
        EndsAtRef(s, i, r, place, Print(rest) + post, glued);
      }
    case Hole(k, rest) =>
      HoleStands(s, i, k, rest);
      SkipHole(s, i, k, rest, place, glued);
      EndsInKey(s, i + |Name(k)|, rest, "", place, LastIsIdent(Name(k)), post, last);
    case Group(b, rest) => EndsInGroup(s, i, b, rest, place, glued, post, last);
  }

  lemma EndsInGroup(s: string, i: nat, b: Expr, rest: Expr, place: Context, glued: bool, post: string, last: bool)
    requires Stands(s, i, Group(b, rest)) && WellFormed(b, "", Nested(place)) && WellFormed(rest, "", place)
    requires var e := Group(b, rest);
      && Calls(e) == 0 && !Clear(e) && Readable(e, place, post, last)
      && (place == Outside ==> After(e, i) <= |s| && s[After(e, i)..] == post)
    ensures i <= |s| && Ends(s, FirstCoalesce(s, i, glued))
    decreases Group(b, rest), 0
  {
    hide At, Print, After, Stands, Closes, WellFormed, OpensAt, FirstCoalesce, IsClear, CallAt, Behind;
    Bounded(s, i, Group(b, rest));
    GroupStands(s, i, b, rest);
    PastBracket(s, i, glued);
    FitsPlain(b);
    var j := After(b, i + 1);
    if Clear(b) {
      ClearLeads(b);
      FirstCallIsFound(s, i + 1, b, "", Nested(place), false);
      PastBracket(s, j, false);
      FitsPlain(rest);
      ClearParts(Refs(b), [], Refs(rest));
      EndsInKey(s, j + 1, rest, "", place, false, post, last);
    } else {
      BehindGroup(s, j, rest, place, post);
      EndsInKey(s, i + 1, b, "", Nested(place), false, Behind(place, rest, post), last && Calls(rest) == 0);
    }
  }

  lemma BehindGroup(s: string, j: nat, rest: Expr, place: Context, post: string)
    requires Is(s, j, ')') && Stands(s, j + 1, rest)
    requires place == Outside ==> After(rest, j + 1) <= |s| && s[After(rest, j + 1)..] == post
    ensures place == Outside ==> s[j..] == Behind(place, rest, post)
  {
    hide Print, After, Stands;
    if place == Outside {
      TailText(s, j + 1, rest, post);
      assert s[j..] == [s[j]] + s[j + 1..];
    }
  }

  lemma NoneInTree(e: Expr, place: Context, last: bool)
    requires WellFormed(e, "", place) && Readable(e, place, "", last) && Calls(e) == 0
    ensures ExtractCoalesce(Print(e)) == None
  {
    hide Print, WellFormed, FirstCoalesce, CallAt, Stands, After, Readable, Clear;
    StandsAlone(e);
    if Clear(e) {
      ClearLeads(e);
      ExtractFromTree(Print(e), 0, e, place);
    } else {
      FitsPlain(e);
      EndsInKey(Print(e), 0, e, "", place, false, "", last);
    }
  }

  // In an expression without calls the keys are read right exactly when
  // extractCoalesce finds no call.
  lemma ReadableIffNone(e: Expr)
    requires WellFormed(e, "", Outside) && Calls(e) == 0
    ensures Readable(e, Outside, "", true) <==> ExtractCoalesce(Print(e)) == None
  {
    hide Print, WellFormed, FirstCoalesce, CallAt, Stands, After, Readable;
    if Readable(e, Outside, "", true) { NoneInTree(e, Outside, true); }
    if ExtractCoalesce(Print(e)) == None {
      StandsAlone(e);
      FitsPlain(e);
      ReadableIfNone(Print(e), 0, e, "", false, "");
    }
  }

  predicate NoCall(s: string, found: Option<nat>) {
    found.None? || !OpensAt(s, found.value) || CallAt(s, found.value).None?
  }

  lemma {:induction false} ReadableIfNone(s: string, i: nat, e: Expr, word: string, glued: bool, post: string)
    requires Stands(s, i, e) && WellFormed(e, word, Outside) && Fits(e, word, glued) && Calls(e) == 0
    requires i <= After(e, i) <= |s| && s[After(e, i)..] == post && NoCall(s, FirstCoalesce(s, i, glued))
    ensures Readable(e, Outside, post, true)
    decreases e, 1
  {
    hide At, Print, After, Stands, Closes, IsRefText, RefEndsBefore, IsPlaceholder, Name, OpensAt, FirstCoalesce,
      IsIdentChar, LastIsIdent, IsClear, Stops, CallAt, RefFits;
    Bounded(s, i, e);
    NoOpeningHere(s, i, e, word, Outside, glued);
    match e
    case End =>
    case Ch(c, rest) =>
      ChStands(s, i, c, rest);
      NextFirst(s, i, glued);
      Bounded(s, i + 1, rest);
      ReadableIfNone(s, i + 1, rest, if IsIdentChar(c) then word + [c] else "", IsIdentChar(c), post);
    case Ref(r, rest) =>
      RefStands(s, i, r, rest);
      Bounded(s, i + |r|, rest);
      if IsClear(r) {
        SkipRef(s, i, r, rest, Outside, glued);
        ReadableIfNone(s, i + |r|, rest, "", LastIsIdent(r), post);
      } else {
        TailText(s, i + |r|, rest, post);
        StopsIfNone(s, i, r, Print(rest) + post, glued);
      }
    case Hole(k, rest) =>
      HoleStands(s, i, k, rest);
      SkipHole(s, i, k, rest, Outside, glued);
      Bounded(s, i + |Name(k)|, rest);
      ReadableIfNone(s, i + |Name(k)|, rest, "", LastIsIdent(Name(k)), post);
    case Group(b, rest) => ReadableInGroup(s, i, b, rest, glued, post);
  }

  lemma StopsIfNone(s: string, i: nat, r: string, behind: string, glued: bool)
    requires At(s, i, r) && IsRefText(r) && i + |r| <= |s| && s[i + |r|..] == behind
    requires NoCall(s, FirstCoalesce(s, i, glued))
    ensures Stops(r, Outside, behind)
  {
    hide At, OpensAt, FirstCoalesce, RefEnd, CallAt;
    RefHead(r);
    AtIndex(s, i, r, 0);
    Dollar(s, i, glued);
    Dollar(s, i, false);
    SuffixExtract(s, i);
    AtIs(s, i, r);
    assert s[i..] == r + behind;
  }

  lemma ReadableInGroup(s: string, i: nat, b: Expr, rest: Expr, glued: bool, post: string)
    requires Stands(s, i, Group(b, rest)) && WellFormed(b, "", Outside) && WellFormed(rest, "", Outside)
    requires var e := Group(b, rest);
      && Calls(e) == 0 && i <= After(e, i) <= |s| && s[After(e, i)..] == post
      && NoCall(s, FirstCoalesce(s, i, glued))
    ensures Readable(Group(b, rest), Outside, post, true)
    decreases Group(b, rest), 0
  {
    hide At, Print, After, Stands, Closes, WellFormed, OpensAt, FirstCoalesce, IsClear, CallAt, Behind, Clear;
    GroupStands(s, i, b, rest);
    PastBracket(s, i, glued);
    FitsPlain(b);
    var j := After(b, i + 1);
    Bounded(s, i + 1, b);
    Bounded(s, j + 1, rest);
    BehindGroup(s, j, rest, Outside, post);
    ReadableIfNone(s, i + 1, b, "", false, Behind(Outside, rest, post));
    if Clear(b) {
      ClearLeads(b);
      FirstCallIsFound(s, i + 1, b, "", Outside, false);
      PastBracket(s, j, false);
      FitsPlain(rest);
      ReadableIfNone(s, j + 1, rest, "", false, post);
    }
  }

  // extractCoalesce on a trimmed argument or fallback tells whether it holds a call.
  lemma NestedIff(e: Expr, place: Context, last: bool)
    requires WellFormed(e, "", place) && Readable(e, place, "", last) && place != Outside
    ensures ExtractCoalesce(Trim(Print(e))).None? <==> Calls(e) == 0
  {
    hide Trim, Print, WellFormed, FirstCoalesce, CallAt, Calls, TrimTree, Readable;
    var t := TrimTree(e);
    TrimText(e, place);
    TrimKeeps(e, place);
    TrimReadable(e, place, last);
    if Calls(t) == 0 {
      NoneInTree(t, place, last);
    } else {
      StandsAlone(t);
      ReadableLeads(t, place, "", last);
      ExtractFromTree(Print(t), 0, t, place);
    }
  }

  lemma StandsAlone(e: Expr)
    ensures Stands(Print(e), 0, e) && After(e, 0) == |Print(e)|
    ensures ExtractFrom(Print(e), |Print(e)|) == None
  {
    assert Print(e)[0..|Print(e)|] == Print(e);
  }

  lemma SameSearch(s: string, i: nat, j: nat)
    requires i <= |s| && j <= |s| && ExtractFrom(s, i) == ExtractFrom(s, j)
    ensures InnermostFrom(s, i) == InnermostFrom(s, j)
  {
    hide ExtractFrom, IsInnermost;
  }

  lemma SearchStep(s: string, i: nat, m: Match)
    requires i <= |s| && ExtractFrom(s, i) == Some(m)
    ensures m.start + OPENING <= |s|
    ensures InnermostFrom(s, i) == if IsInnermost(m) then Some(m) else InnermostFrom(s, m.start + OPENING)
  {
    hide ExtractFrom, IsInnermost;
  }

  lemma PastComma(s: string, j: nat)
    requires Is(s, j, ',')
    ensures InnermostFrom(s, j) == InnermostFrom(s, j + 1)
  {
    hide CallAt, FirstCoalesce, InnermostFrom;
    PastBracket(s, j, false);
    SameSearch(s, j, j + 1);
  }

  lemma LaterMatch(c: Call, n: nat, i: nat)
    ensures CallMatch(c.Later(n), i) == CallMatch(c, i + n)
  {
    hide Trim, CallEnd;
  }

  lemma {:induction false} InnermostIsFound(s: string, i: nat, e: Expr, place: Context, post: string, last: bool)
    requires Stands(s, i, e) && WellFormed(e, "", place)
    requires if Calls(e) > 0 then Readable(e, place, post, last) else Clear(e)
    ensures i <= |s| && After(e, i) <= |s|
    ensures InnermostFrom(s, i) ==
            if Calls(e) > 0 then Some(CallMatch(InnerCall(e), i)) else InnermostFrom(s, After(e, i))
    decreases e, 1
  {
    hide Stands, WellFormed, ExtractFrom, InnermostFrom, FirstCall, InnerCall, CallMatch, After, Print, CallStandsAt, Readable, Clear;
    Bounded(s, i, e);
    if Calls(e) == 0 {
      ClearLeads(e);
      ExtractFromTree(s, i, e, place);
      SameSearch(s, i, After(e, i));
    } else {
      ReadableLeads(e, place, post, last);
      ExtractFromTree(s, i, e, place);
      InnerOfFirst(e, "", place);
      FirstIsReadable(e, place, post, last);
      FirstCallStands(s, i, e);
      InnermostInCall(s, i, FirstCall(e), e);
    }
  }

  lemma MatchStarts(c: Call, i: nat)
    ensures CallMatch(c, i).start == i + c.at
  {}

  lemma InnermostIff(c: Call, i: nat)
    requires CallWellFormed(c) && CallReadable(c)
    ensures IsInnermost(CallMatch(c, i)) <==> Calls(c.arg) == 0 && Calls(c.fallback) == 0
  {
    hide Trim, Print, WellFormed, ExtractCoalesce, Calls, Readable;
    NestedIff(c.arg, Argument, Calls(c.fallback) == 0);
    NestedIff(c.fallback, Inside, true);
  }

  lemma InnermostInCall(s: string, i: nat, c: Call, e: Expr)
    requires CallStandsAt(s, i + c.at, c.arg, c.fallback) && CallWellFormed(c) && CallReadable(c)
    requires i <= |s| && ExtractFrom(s, i) == Some(CallMatch(c, i))
    requires c.arg < e && c.fallback < e
    ensures InnermostFrom(s, i) == Some(CallMatch(InnerOf(c), i))
    decreases e, 0
  {
    hide Stands, At, OpensAt, WellFormed, ExtractFrom, InnermostFrom, FirstCall, InnerCall, After, CallMatch,
      IsInnermost, Print, Calls, Readable, Clear;
    var p := i + c.at + OPENING;
    var j := After(c.arg, p);
    AfterIs(c.arg, p);
    MatchStarts(c, i);
    SearchStep(s, i, CallMatch(c, i));
    InnermostIff(c, i);
    if Calls(c.arg) > 0 {
      InnermostIsFound(s, p, c.arg, Argument, "", Calls(c.fallback) == 0);
      LaterMatch(InnerCall(c.arg), c.at + OPENING, i);
    } else if Calls(c.fallback) > 0 {
      ClearBefore(c.arg, Argument, "");
      InnermostIsFound(s, p, c.arg, Argument, "", false);
      PastComma(s, j);
      InnermostIsFound(s, j + 1, c.fallback, Inside, "", true);
      LaterMatch(InnerCall(c.fallback), c.at + OPENING + |Print(c.arg)| + 1, i);
    }
  }

  // On the text of any well-formed readable tree the search finds a call with no call
  // inside it, with its exact span, argument and fallback, and finds none
  // exactly when the tree has none.
  lemma FindInnermostOnTree(e: Expr, place: Context)
    requires WellFormed(e, "", place) && Readable(e, place, "", true)
    ensures FindInnermost(Print(e)).None? <==> Calls(e) == 0
    ensures Calls(e) > 0 ==>
      var c := InnerCall(e);
      && FindInnermost(Print(e)) == Some(CallMatch(c, 0))
      && CallWellFormed(c) && Calls(c.arg) == 0 && Calls(c.fallback) == 0
      && CallStandsAt(Print(e), c.at, c.arg, c.fallback)
  {
    hide Print, WellFormed, ExtractFrom, InnermostFrom, InnerCall, CallMatch, CallStandsAt, Readable;
    StandsAlone(e);
    if Calls(e) == 0 {
      NoneInTree(e, place, true);
      EndOfSearch(Print(e));
    } else {
      InnermostIsFound(Print(e), 0, e, place, "", true);
      InnerIsInner(e, "", place);
      InnerCallStands(Print(e), 0, e, place);
    }
  }

  lemma EndOfSearch(s: string)
    requires ExtractFrom(s, 0) == None
    ensures InnermostFrom(s, 0) == None
  {}

  lemma {:induction false} InnerCallStands(s: string, i: nat, e: Expr, place: Context)
    requires Calls(e) > 0 && Stands(s, i, e) && WellFormed(e, "", place)
    ensures var c := InnerCall(e); CallStandsAt(s, i + c.at, c.arg, c.fallback)
    decreases e
  {
    hide Stands, At, OpensAt, WellFormed, After, InnerCall, FirstCall;
    FirstCallStands(s, i, e);
    InnerOfFirst(e, "", place);
    var c := FirstCall(e);
    var p := i + c.at + OPENING;
    AfterIs(c.arg, p);
    if Calls(c.arg) > 0 { InnerCallStands(s, p, c.arg, Argument); }
    else if Calls(c.fallback) > 0 { InnerCallStands(s, After(c.arg, p) + 1, c.fallback, Inside); }
  }
}
