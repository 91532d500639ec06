// Quoted keys that hold opening tokens: when the search for calls finds its way
// in a tree nevertheless.
module PricingKeys {
  import opened Text
  import opened PricingScanner
  import opened PricingTree
  import opened PricingLexing
  import opened PricingTrim

  // ----- clear trees -----

  lemma {:induction false} ClearReadable(e: Expr, place: Context, post: string, last: bool)
    requires Clear(e)
    ensures Readable(e, place, post, last)
    decreases e
  {
    hide IsClear, Stops, Print, Calls;
    match e
    case End =>
    case Ch(_, rest) => ClearReadable(rest, place, post, last);
    case Ref(r, rest) => ClearParts([r], [], Refs(rest)); ClearReadable(rest, place, post, last);
    case Hole(_, rest) => ClearReadable(rest, place, post, last);
    case Group(b, rest) =>
      ClearParts(Refs(b), [], Refs(rest));
      ClearReadable(b, Nested(place), Behind(place, rest, post), last && Calls(rest) == 0);
      ClearReadable(rest, place, post, last);
    case Coalesce(a, f, rest) =>
      ClearParts(Refs(a), Refs(f), Refs(rest));
      ClearReadable(a, Argument, "", Calls(f) == 0);
      ClearReadable(f, Inside, "", last && Calls(rest) == 0);
      ClearReadable(rest, place, post, last);
  }

  predicate AllClear(refs: seq<string>) { forall r <- refs :: IsClear(r) }

  lemma ClearParts(a: seq<string>, b: seq<string>, c: seq<string>)
    ensures AllClear(a + b + c) <==> AllClear(a) && AllClear(b) && AllClear(c)
    ensures AllClear(a + c) <==> AllClear(a) && AllClear(c)
    ensures forall r :: AllClear([r]) <==> IsClear(r)
  {
    hide IsClear;
    forall r ensures AllClear([r]) <==> IsClear(r) { assert r in [r]; }
  }

  // Where calls follow, no key may hold a token.
  lemma {:induction false} ClearBefore(e: Expr, place: Context, post: string)
    requires Readable(e, place, post, false) && Calls(e) == 0
    ensures Clear(e)
    decreases e
  {
    hide IsClear, Stops, Print;
    match e
    case End =>
    case Ch(_, rest) => ClearBefore(rest, place, post);
    case Ref(r, rest) => ClearBefore(rest, place, post); ClearParts([r], [], Refs(rest));
    case Hole(_, rest) => ClearBefore(rest, place, post);
    case Group(b, rest) =>
      ClearBefore(b, Nested(place), Behind(place, rest, post));
      ClearBefore(rest, place, post);
      ClearParts(Refs(b), [], Refs(rest));
  }

  // And where none do it matters less.
  lemma {:induction false} LastReadable(e: Expr, place: Context, post: string, last: bool)
    requires Readable(e, place, post, last)
    ensures Readable(e, place, post, true)
    decreases e
  {
    hide IsClear, Stops, Print;
    match e
    case End =>
    case Ch(_, rest) => LastReadable(rest, place, post, last);
    case Ref(r, rest) => if IsClear(r) { LastReadable(rest, place, post, last); }
    case Hole(_, rest) => LastReadable(rest, place, post, last);
    case Group(b, rest) =>
      LastReadable(b, Nested(place), Behind(place, rest, post), last && Calls(rest) == 0);
      if !(Calls(b) == 0 && !Clear(b)) { LastReadable(rest, place, post, last); }
    case Coalesce(_, f, rest) =>
      LastReadable(f, Inside, "", last && Calls(rest) == 0);
      LastReadable(rest, place, post, last);
  }

  // ----- trimming -----

  lemma {:induction false} LeftReadable(e: Expr, place: Context, last: bool)
    requires Readable(e, place, "", last)
    ensures Readable(TrimLeftTree(e), place, "", last)
  {
    hide IsClear, Stops, Print, IsSpace;
    match e
    case Ch(_, rest) => LeftReadable(rest, place, last);
    case _ =>
  }

  lemma {:induction false} RightReadable(e: Expr, word: string, place: Context, last: bool)
    requires WellFormed(e, word, place) && Readable(e, place, "", last) && place != Outside
    ensures Readable(TrimRightTree(e), place, "", last)
    decreases e
  {
    hide IsClear, Print, IsSpace, IsPlaceholder, IsRefText, RefEndsBefore, IsIdentChar, Kept;
    match e
    case End =>
    case Ch(c, rest) => RightReadable(rest, if IsIdentChar(c) then word + [c] else "", place, last);
    case Ref(r, rest) =>
      RightKeeps(rest, "", place);
      if IsClear(r) { RightReadable(rest, "", place, last); }
    case Hole(_, rest) => RightReadable(rest, "", place, last);
    case Group(b, rest) =>
      RightKeeps(rest, "", place);
      if !(Calls(b) == 0 && !Clear(b)) { RightReadable(rest, "", place, last); }
    case Coalesce(a, f, rest) =>
      RightKeeps(rest, "", place);
      RightReadable(rest, "", place, last);
  }

  lemma TrimReadable(e: Expr, place: Context, last: bool)
    requires WellFormed(e, "", place) && Readable(e, place, "", last) && place != Outside
    ensures Readable(TrimTree(e), place, "", last)
  {
    hide WellFormed, Readable;
    LeftReadable(e, place, last);
    LeftKeeps(e, place);
    RightReadable(TrimLeftTree(e), "", place, last);
  }

  // ----- where the search stops -----

  lemma {:induction false} KeptAt(t: string, i: nat, depth: nat, j: nat) returns (d: nat)
    requires i <= j <= |t| && depth > 0 && Kept(t, i, depth, true)
    ensures d > 0 && Kept(t, j, d, true)
    decreases j - i
  {
    if i < j { d := KeptAt(t, i + 1, Deeper(t[i], depth), j); } else { d := depth; }
  }

  lemma {:induction false} KeptPlain(t: string, i: nat, depth: nat, j: nat)
    requires i <= j <= |t| && depth > 0 && Kept(t, i, depth, true)
    requires forall k :: i <= k < j ==> t[k] != '(' && t[k] != ')'
    ensures Kept(t, j, depth, true)
    decreases j - i
  {
    if i < j { KeptPlain(t, i + 1, depth, j); }
  }

  // A balanced text closes what it opens.
  lemma {:induction false} KeptCloses(t: string, i: nat, depth: nat, outer: nat)
    requires i <= |t| && 0 < outer < depth && Kept(t, i, depth, true)
    ensures CloseParen(t, i, depth - outer).Some?
    decreases |t| - i
  {
    if i < |t| && Deeper(t[i], depth) > outer { KeptCloses(t, i + 1, Deeper(t[i], depth), outer); }
  }

  lemma TokenCloses(r: string, q: nat)
    requires Kept(r, 0, 1, true) && OpensAt(r, q)
    ensures CloseParen(r, q + OPENING, 1).Some?
  {
    hide Kept, CloseParen;
    var d := KeptAt(r, 0, 1, q);
    KeptPlain(r, q, d, q + OPENING - 1);
    assert Kept(r, q + OPENING, d + 1, true) by { KeptOpen(r, q + OPENING - 1, d); }
    KeptCloses(r, q + OPENING, d + 1, d);
  }

  lemma KeptOpen(t: string, i: nat, depth: nat)
    requires Is(t, i, '(') && depth > 0 && Kept(t, i, depth, true)
    ensures Kept(t, i + 1, depth + 1, true)
  {}

  // A scan that ends within r is the same wherever r stands.
  lemma {:induction false} ScanWithin(s: string, i: nat, r: string, j: nat, depth: nat)
    requires At(s, i, r) && j <= |r| && depth > 0 && CloseParen(r, j, depth).Some?
    ensures i + |r| <= |s|
    ensures CloseParen(s, i + j, depth) == Shift(CloseParen(r, j, depth), i)
    ensures TopComma(s, i + j, depth) == Shift(TopComma(r, j, depth), i)
    decreases |r| - j
  {
    AtIndex(s, i, r, j);
    if Deeper(r[j], depth) > 0 { ScanWithin(s, i, r, j + 1, Deeper(r[j], depth)); }
  }

  // The first free token of a text is the first of any text that begins with it.
  lemma FirstOf(s: string, i: nat, r: string, glued: bool)
    requires At(s, i, r) && r != "" && r[0] == '$' && !IsClear(r)
    ensures i + |r| <= |s|
    ensures FirstCoalesce(r, 0, false).Some?
    ensures FirstCoalesce(s, i, glued) == Shift(FirstCoalesce(r, 0, false), i)
  {
    hide At, FirstCoalesce, OpensAt, IsIdentChar;
    AtIs(s, i, r);
    assert r[0] == s[i] by { AtIndex(s, i, r, 0); }
    Dollar(s, i, glued);
    Dollar(r, 0, false);
    FirstIsFree(r, 0, false);
    FirstIsFree(s, i + 1, IsIdentChar(s[i]));
    var q := FirstCoalesce(r, 0, false).value;
    forall p: nat | i < p <= i + q ensures FreeAt(s, p) <==> FreeAt(r, p - i) { FreeSame(s, i, r, q, p - i); }
    OpensFits(r, q);
    assert FreeAt(r, q) && q > 0;
    assert FreeAt(s, i + q);
  }

  lemma Dollar(s: string, i: nat, glued: bool)
    requires Is(s, i, '$')
    ensures !OpensAt(s, i) && FirstCoalesce(s, i, glued) == FirstCoalesce(s, i + 1, IsIdentChar(s[i]))
  {}

  lemma AtPiece(s: string, i: nat, t: string, p: nat, j: nat)
    requires At(s, i, t) && p <= j <= |t|
    ensures At(s, i + p, t[p..j])
  {
    hide At;
    assert t == t[..p] + (t[p..j] + t[j..]);
    AtConcat(s, i, t[..p], t[p..j] + t[j..]);
    AtConcat(s, i + p, t[p..j], t[j..]);
  }

  lemma FreeSame(s: string, i: nat, r: string, q: nat, p: nat)
    requires At(s, i, r) && OpensAt(r, q) && 0 < p <= q
    ensures FreeAt(s, i + p) <==> FreeAt(r, p)
  {
    AtIs(s, i, r);
    OpensFits(r, q);
    var j := p + OPENING;
    AtPiece(s, i, r, p, j);
    AtIs(s, i + p, r[p..j]);
    assert r[p - 1] == s[i + p - 1] by { AtIndex(s, i, r, p - 1); }
    hide OpensAt;
    OpensAtIsAt(s, i + p);
    OpensAtIsAt(r, p);
  }

  // The search ends at a reference at which it stops.
  lemma EndsAtRef(s: string, i: nat, r: string, place: Context, behind: string, glued: bool)
    requires At(s, i, r) && IsRefText(r) && !IsClear(r) && Stops(r, place, behind) && RefFits(r, place)
    requires place == Outside ==> s[i + |r|..] == behind
    ensures i <= |s| && FirstCoalesce(s, i, glued).Some?
    ensures CallAt(s, FirstCoalesce(s, i, glued).value) == None
  {
    hide At, IsClear, OpensAt, FirstCoalesce, RefEnd, Kept, CallAt;
    RefHead(r);
    FirstOf(s, i, r, glued);
    if place == Outside {
      FirstOf(s, i, r, false);
      SuffixExtract(s, i);
      AtIs(s, i, r);
      assert s[i..] == r + behind;
    } else {
      if place == Argument { KeptWider(r, 0, 1); }
      StopsAnywhere(s, i, r, FirstCoalesce(r, 0, false).value);
    }
  }

  lemma RefHead(r: string)
    requires IsRefText(r)
    ensures r != "" && r[0] == '$'
  {}

  lemma StopsAnywhere(s: string, i: nat, r: string, q: nat)
    requires At(s, i, r) && Kept(r, 0, 1, true) && OpensAt(r, q) && OpensAt(s, i + q) && CallAt(r, q) == None
    ensures CallAt(s, i + q) == None
  {
    hide At, Kept, OpensAt, Trim, CloseParen, TopComma;
    OpensFits(r, q);
    TokenCloses(r, q);
    ScanWithin(s, i, r, q + OPENING, 1);
  }

  lemma {:induction false} KeptWider(t: string, i: nat, depth: nat)
    requires i <= |t| && depth > 0 && Kept(t, i, depth, false)
    ensures Kept(t, i, depth, true)
    decreases |t| - i
  {
    if i < |t| { KeptWider(t, i + 1, Deeper(t[i], depth)); }
  }

  // ----- from a call to the outside -----

  // What the scan reads in a call it reads outside, whatever follows.
  lemma {:induction false} OutReadable(e: Expr, word: string, post: string, last: bool)
    requires WellFormed(e, word, Inside) && Readable(e, Inside, "", last)
    ensures Readable(e, Outside, post, last)
    decreases e
  {
    hide IsClear, Print, IsPlaceholder, IsRefText, RefEndsBefore, IsIdentChar, Kept, Stops;
    match e
    case End =>
    case Ch(c, rest) => OutReadable(rest, if IsIdentChar(c) then word + [c] else "", post, last);
    case Ref(r, rest) =>
      if IsClear(r) { OutReadable(rest, "", post, last); } else { StopsOutside(r, Print(rest) + "", Print(rest) + post); }
    case Hole(_, rest) => OutReadable(rest, "", post, last);
    case Group(b, rest) =>
      OutReadable(b, "", Behind(Outside, rest, post), last && Calls(rest) == 0);
      if !(Calls(b) == 0 && !Clear(b)) { OutReadable(rest, "", post, last); }
    case Coalesce(a, f, rest) => OutReadable(rest, "", post, last);
  }

  lemma StopsOutside(r: string, within: string, behind: string)
    requires IsRefText(r) && !IsClear(r) && Kept(r, 0, 1, true) && Stops(r, Inside, within)
    ensures Stops(r, Outside, behind)
  {
    hide At, IsClear, OpensAt, FirstCoalesce, RefEnd, Kept, CallAt;
    AtStart(r, behind);
    EndsAtRef(r + behind, 0, r, Inside, within, false);
  }

  lemma AtStart(r: string, behind: string)
    ensures At(r + behind, 0, r)
  {}
}
