// Surgery on expression trees: replacing the innermost call, and replacing
// references by placeholders.
module PricingPlug {
  import opened Text
  import opened PricingScanner
  import opened PricingTree
  import opened PricingLexing
  import opened PricingTrim
  import opened PricingKeys
  import opened PricingSearch

  // e with its innermost call (InnerCall) replaced by (g).
  function Plug(e: Expr, g: Expr): Expr
    requires Calls(e) > 0
  {
    match e
    case Ch(c, rest) => Ch(c, Plug(rest, g))
    case Ref(r, rest) => Ref(r, Plug(rest, g))
    case Hole(k, rest) => Hole(k, Plug(rest, g))
    case Group(b, rest) => if Calls(b) > 0 then Group(Plug(b, g), rest) else Group(b, Plug(rest, g))
    case Coalesce(a, f, rest) =>
      if Calls(a) > 0 then Coalesce(Plug(a, g), f, rest)
      else if Calls(f) > 0 then Coalesce(a, Plug(f, g), rest)
      else Group(g, rest)
  }

  // e with its references replaced, in order, by placeholders k, k + 1, ...
  function Fill(e: Expr, k: nat): Expr {
    match e
    case End => End
    case Ch(c, rest) => Ch(c, Fill(rest, k))
    case Ref(_, rest) => Hole(k, Fill(rest, k + 1))
    case Hole(m, rest) => Hole(m, Fill(rest, k))
    case Group(b, rest) => Group(Fill(b, k), Fill(rest, k + |Refs(b)|))
    case Coalesce(a, f, rest) =>
      Coalesce(Fill(a, k), Fill(f, k + |Refs(a)|), Fill(rest, k + |Refs(a)| + |Refs(f)|))
  }

  // ----- the text -----

  // t is s with s[i..j] replaced by y.
  predicate Replaced(s: string, i: nat, j: nat, y: string, t: string) {
    i <= j <= |s| && t == s[..i] + y + s[j..]
  }

  lemma ReplacedWithin(pre: string, s: string, post: string, i: nat, j: nat, y: string, t: string)
    requires Replaced(s, i, j, y, t)
    ensures Replaced(pre + s + post, |pre| + i, |pre| + j, y, pre + t + post)
  {
    var u := pre + s + post;
    assert u[..|pre| + i] == pre + s[..i];
    assert u[|pre| + j..] == s[j..] + post;
  }

  function Width(a: Expr, f: Expr): nat { CallEnd(0, a, f) }

  // Plug(e, g) is e with the call c spliced out, as far as the texts go.
  ghost predicate Plugged(e: Expr, g: Expr, c: Call, result: Expr) {
    Replaced(Print(e), c.at, c.at + Width(c.arg, c.fallback), "(" + Print(g) + ")", Print(result))
  }

  lemma {:induction false} PlugText(e: Expr, g: Expr)
    requires Calls(e) > 0
    ensures Plugged(e, g, InnerCall(e), Plug(e, g))
    decreases e, 0
  {
    hide Plugged, Name, Print;
    match e
    case Ch(c, rest) => PlugLeaf([c], rest, e, g);
    case Ref(r, rest) => PlugLeaf(r, rest, e, g);
    case Hole(k, rest) => PlugLeaf(Name(k), rest, e, g);
    case Group(b, rest) =>
      if Calls(b) > 0 { PlugInGroup(b, rest, g); } else { PlugAfterGroup(b, rest, g); }
    case Coalesce(a, f, rest) =>
      if Calls(a) > 0 { PlugInArg(a, f, rest, g); }
      else if Calls(f) > 0 { PlugInFallback(a, f, rest, g); }
      else { PlugHere(a, f, rest, g); }
  }

  lemma PlugLeaf(t: string, rest: Expr, e: Expr, g: Expr)
    requires Calls(rest) > 0 && Calls(e) > 0 && rest < e
    requires (e.Ch? && e.rest == rest && t == [e.c]) || (e.Ref? && e.rest == rest && t == e.ref)
          || (e.Hole? && e.rest == rest && t == Name(e.k))
    ensures Plugged(e, g, InnerCall(e), Plug(e, g))
    decreases rest, 2
  {
    hide Replaced, Name, Width;
    assert Print(e) == t + Print(rest) + "";
    assert Print(Plug(e, g)) == t + Print(Plug(rest, g)) + "";
    PlugIn(t, rest, "", g, Print(e), Print(Plug(e, g)));
  }

  lemma PlugInGroup(b: Expr, rest: Expr, g: Expr)
    requires Calls(b) > 0
    ensures Plugged(Group(b, rest), g, InnerCall(b).Later(1), Group(Plug(b, g), rest))
    decreases b, 2
  {
    hide Replaced, Plug, InnerCall;
    PlugIn("(", b, ")" + Print(rest), g, Print(Group(b, rest)), Print(Group(Plug(b, g), rest)));
  }

  lemma PlugAfterGroup(b: Expr, rest: Expr, g: Expr)
    requires Calls(rest) > 0
    ensures Plugged(Group(b, rest), g, InnerCall(rest).Later(|Print(b)| + 2), Group(b, Plug(rest, g)))
    decreases rest, 2
  {
    hide Replaced, Plug, InnerCall;
    var pre := "(" + Print(b) + ")";
    PlugIn(pre, rest, "", g, Print(Group(b, rest)), Print(Group(b, Plug(rest, g))));
  }

  lemma Reassociate(a: string, b: string, c: string, d: string, e: string, f: string)
    ensures a + b + c + d + e + f == a + b + (c + d + e + f)
    ensures a + b + c + d + e + f == (a + b + c) + d + (e + f)
  {}

  lemma PlugInArg(a: Expr, f: Expr, rest: Expr, g: Expr)
    requires Calls(a) > 0
    ensures Plugged(Coalesce(a, f, rest), g, InnerCall(a).Later(OPENING), Coalesce(Plug(a, g), f, rest))
    decreases a, 2
  {
    hide Replaced, Plug, InnerCall;
    var post := "," + Print(f) + ")" + Print(rest);
    PlugIn(COALESCE, a, post, g, COALESCE + Print(a) + post, COALESCE + Print(Plug(a, g)) + post);
    Reassociate(COALESCE, Print(a), ",", Print(f), ")", Print(rest));
    Reassociate(COALESCE, Print(Plug(a, g)), ",", Print(f), ")", Print(rest));
  }

  lemma PlugInFallback(a: Expr, f: Expr, rest: Expr, g: Expr)
    requires Calls(f) > 0
    ensures Plugged(Coalesce(a, f, rest), g, InnerCall(f).Later(OPENING + |Print(a)| + 1),
                    Coalesce(a, Plug(f, g), rest))
    decreases f, 2
  {
    hide Replaced, Plug, InnerCall;
    var pre := COALESCE + Print(a) + ",";
    var post := ")" + Print(rest);
    PlugIn(pre, f, post, g, pre + Print(f) + post, pre + Print(Plug(f, g)) + post);
    Reassociate(COALESCE, Print(a), ",", Print(f), ")", Print(rest));
    Reassociate(COALESCE, Print(a), ",", Print(Plug(f, g)), ")", Print(rest));
  }

  lemma PlugIn(pre: string, e: Expr, post: string, g: Expr, whole: string, result: string)
    requires Calls(e) > 0
    requires whole == pre + Print(e) + post && result == pre + Print(Plug(e, g)) + post
    ensures var c := InnerCall(e);
      Replaced(whole, |pre| + c.at, |pre| + c.at + Width(c.arg, c.fallback), "(" + Print(g) + ")", result)
    decreases e, 1
  {
    hide Replaced, Width, Print, Plug, InnerCall;
    var c := InnerCall(e);
    PlugText(e, g);
    assert Plugged(e, g, c, Plug(e, g));
    ReplacedWithin(pre, Print(e), post, c.at, c.at + Width(c.arg, c.fallback), "(" + Print(g) + ")", Print(Plug(e, g)));
    assert |pre| + (c.at + Width(c.arg, c.fallback)) == |pre| + c.at + Width(c.arg, c.fallback);
  }

  lemma PlugHere(a: Expr, f: Expr, rest: Expr, g: Expr)
    ensures Plugged(Coalesce(a, f, rest), g, Call(0, a, f), Group(g, rest))
  {
    var call := COALESCE + Print(a) + "," + Print(f) + ")";
    assert |call| == Width(a, f);
    assert Print(Coalesce(a, f, rest)) == call + Print(rest);
    assert Print(Group(g, rest)) == "(" + Print(g) + ")" + Print(rest);
    hide Replaced, Print, Width;
    ReplacedAtStart(call, Print(rest), "(" + Print(g) + ")");
  }

  lemma ReplacedAtStart(call: string, rest: string, y: string)
    ensures Replaced(call + rest, 0, |call|, y, y + rest)
  {
    assert (call + rest)[|call|..] == rest && (call + rest)[..0] + y == y;
  }

  // ----- what the surgery keeps -----

  lemma {:induction false} PlugKeeps(e: Expr, g: Expr, word: string, place: Context)
    requires Calls(e) > 0 && WellFormed(e, word, place) && WellFormed(g, "", Inside) && Calls(g) == 0
    ensures WellFormed(Plug(e, g), word, place) && Calls(Plug(e, g)) == Calls(e) - 1
    decreases e
  {
    hide IsPlaceholder, IsRefText, EndsInCoalesce, MayFollowRef, IsIdentChar;
    match e
    case Ch(c, rest) => PlugKeeps(rest, g, if IsIdentChar(c) then word + [c] else "", place);
    case Ref(r, rest) => PlugKeeps(rest, g, "", place); PlugHead(rest, g);
    case Hole(k, rest) => PlugKeeps(rest, g, "", place); PlugHead(rest, g);
    case Group(b, rest) =>
      if Calls(b) > 0 { PlugKeeps(b, g, "", Nested(place)); } else { PlugKeeps(rest, g, "", place); }
    case Coalesce(a, f, rest) =>
      EmptyWord();
      if Calls(a) > 0 { PlugKeeps(a, g, "", Argument); }
      else if Calls(f) > 0 { PlugKeeps(f, g, "", Inside); }
      else { Wider(g, "", Inside, Nested(place)); }
  }

  // g is readable wherever the fallback of the call is.
  predicate TakesPlace(g: Expr, f: Expr) {
    WellFormed(g, "", Inside) && Calls(g) == 0
    && (Readable(f, Inside, "", true) ==> Readable(g, Inside, "", true))
    && (Readable(f, Inside, "", false) ==> Readable(g, Inside, "", false))
  }

  lemma {:induction false} PlugReadable(e: Expr, g: Expr, word: string, place: Context, post: string, last: bool)
    requires Calls(e) > 0 && WellFormed(e, word, place) && Readable(e, place, post, last)
    requires TakesPlace(g, InnerCall(e).fallback)
    ensures Readable(Plug(e, g), place, post, last)
    decreases e
  {
    PlugParts(e, g, word, place);
    hide IsClear, Print, Name, Stops, TakesPlace, WellFormed, InnerCall, Behind, Clear;
    InnerParts(e);
    FillWell(e, word, place);
    match e
    case Ch(c, rest) => PlugReadable(rest, g, if IsIdentChar(c) then word + [c] else "", place, post, last);
    case Ref(_, rest) => PlugReadable(rest, g, "", place, post, last);
    case Hole(_, rest) => PlugReadable(rest, g, "", place, post, last);
    case Group(b, rest) =>
      if Calls(b) > 0 {
        PlugReadable(b, g, "", Nested(place), Behind(place, rest, post), last && Calls(rest) == 0);
      } else {
        BodyClear(b, rest, place, post, last);
        PlugReadable(rest, g, "", place, post, last);
        ClearReadable(b, Nested(place), Behind(place, Plug(rest, g), post), last && Calls(Plug(rest, g)) == 0);
      }
    case Coalesce(a, f, rest) =>
      if Calls(a) > 0 { PlugReadable(a, g, "", Argument, "", Calls(f) == 0); }
      else if Calls(f) > 0 { PlugReadable(f, g, "", Inside, "", last && Calls(rest) == 0); LastReadable(a, Argument, "", false); }
      else { CallPicked(g, f, rest, place, post, last); }
  }

  // The parts of the tree have as many calls after the surgery as they should.
  lemma PlugParts(e: Expr, g: Expr, word: string, place: Context)
    requires Calls(e) > 0 && WellFormed(e, word, place) && WellFormed(g, "", Inside) && Calls(g) == 0
    ensures e.Group? && Calls(e.body) > 0 ==> Calls(Plug(e.body, g)) == Calls(e.body) - 1
    ensures e.Coalesce? && Calls(e.arg) > 0 ==> Calls(Plug(e.arg, g)) == Calls(e.arg) - 1
  {
    hide WellFormed, Plug;
    FillWell(e, word, place);
    if e.Group? && Calls(e.body) > 0 { PlugKeeps(e.body, g, "", Nested(place)); }
    if e.Coalesce? && Calls(e.arg) > 0 { PlugKeeps(e.arg, g, "", Argument); }
  }

  lemma BodyClear(b: Expr, rest: Expr, place: Context, post: string, last: bool)
    requires Calls(b) == 0 && Calls(rest) > 0 && Readable(Group(b, rest), place, post, last)
    ensures Clear(b) && Readable(rest, place, post, last)
  {
    hide IsClear, Print, Stops, Behind;
    ClearBefore(b, Nested(place), Behind(place, rest, post));
  }

  lemma CallPicked(g: Expr, f: Expr, rest: Expr, place: Context, post: string, last: bool)
    requires TakesPlace(g, f) && Readable(f, Inside, "", last && Calls(rest) == 0) && Readable(rest, place, post, last)
    ensures Readable(Group(g, rest), place, post, last)
  {
    hide WellFormed, Print, Clear;
    if place == Outside { OutReadable(g, "", Behind(place, rest, post), last && Calls(rest) == 0); }
  }

  // What is well formed in one context is so in a wider one.
  predicate Within(place: Context, wider: Context) {
    place == wider || place == Argument || wider == Outside
  }

  lemma {:induction false} Wider(e: Expr, word: string, place: Context, wider: Context)
    requires WellFormed(e, word, place) && Within(place, wider)
    ensures WellFormed(e, word, wider)
    decreases e
  {
    hide IsPlaceholder, IsRefText, RefEndsBefore, IsIdentChar, Kept;
    match e
    case End =>
    case Ch(c, rest) => Wider(rest, if IsIdentChar(c) then word + [c] else "", place, wider);
    case Ref(r, rest) =>
      if place == Argument && wider == Inside { KeptWider(r, 0, 1); }
      Wider(rest, "", place, wider);
    case Hole(_, rest) => Wider(rest, "", place, wider);
    case Group(b, rest) => Wider(b, "", Nested(place), Nested(wider)); Wider(rest, "", place, wider);
    case Coalesce(_, _, rest) => Wider(rest, "", place, wider);
  }

  lemma EmptyWord()
    ensures !IsPlaceholder("")
  {}

  lemma PlugHead(e: Expr, g: Expr)
    requires Calls(e) > 0 && (e.Ch? || e.Group? || e.Coalesce?)
    ensures var t := Plug(e, g);
      (t.Ch? && e.Ch? && t.c == e.c) || (t.Group? && (e.Group? || e.Coalesce?)) || (t.Coalesce? && e.Coalesce?)
  {}

  // The innermost call of a tree is that of the part it is in.
  lemma InnerParts(e: Expr)
    requires Calls(e) > 0
    ensures var c := InnerCall(e);
      var d := match e
        case Ch(_, rest) => InnerCall(rest)
        case Ref(_, rest) => InnerCall(rest)
        case Hole(_, rest) => InnerCall(rest)
        case Group(b, rest) => if Calls(b) > 0 then InnerCall(b) else InnerCall(rest)
        case Coalesce(a, f, _) =>
          if Calls(a) > 0 then InnerCall(a) else if Calls(f) > 0 then InnerCall(f) else Call(0, a, f);
      c.arg == d.arg && c.fallback == d.fallback
  {
    hide Print, Name;
  }

  lemma {:induction false} PlugHoles(e: Expr, g: Expr, n: nat)
    requires Calls(e) > 0
    ensures var c := InnerCall(e);
      Holes(Plug(e, g), n) + Holes(c.arg, n) + Holes(c.fallback, n) == Holes(e, n) + Holes(g, n)
    decreases e
  {
    InnerParts(e);
    hide InnerCall;
    match e
    case Ch(_, rest) => PlugHoles(rest, g, n);
    case Ref(_, rest) => PlugHoles(rest, g, n);
    case Hole(_, rest) => PlugHoles(rest, g, n);
    case Group(b, rest) => if Calls(b) > 0 { PlugHoles(b, g, n); } else { PlugHoles(rest, g, n); }
    case Coalesce(a, f, rest) =>
      if Calls(a) > 0 { PlugHoles(a, g, n); } else if Calls(f) > 0 { PlugHoles(f, g, n); }
  }

  // How often reference r is written in e.
  function Uses(e: Expr, r: string): nat { multiset(Refs(e))[r] }

  lemma {:induction false} PlugRefs(e: Expr, g: Expr, r: string)
    requires Calls(e) > 0
    ensures var c := InnerCall(e);
      Uses(Plug(e, g), r) + Uses(c.arg, r) + Uses(c.fallback, r) == Uses(e, r) + Uses(g, r)
    decreases e
  {
    InnerParts(e);
    hide InnerCall;
    match e
    case Ch(_, rest) => PlugRefs(rest, g, r);
    case Ref(_, rest) => PlugRefs(rest, g, r);
    case Hole(_, rest) => PlugRefs(rest, g, r);
    case Group(b, rest) => if Calls(b) > 0 { PlugRefs(b, g, r); } else { PlugRefs(rest, g, r); }
    case Coalesce(a, f, rest) =>
      if Calls(a) > 0 { PlugRefs(a, g, r); } else if Calls(f) > 0 { PlugRefs(f, g, r); }
  }

  lemma {:induction false} FillKeeps(e: Expr, k: nat, word: string, place: Context)
    requires WellFormed(e, word, place)
    ensures WellFormed(Fill(e, k), word, place) && Calls(Fill(e, k)) == Calls(e) && Refs(Fill(e, k)) == []
    decreases e
  {
    hide IsPlaceholder, IsRefText, EndsInCoalesce, IsIdentChar, WellFormed, Fill;
    match e
    case End => FillEndKeeps(k);
    case Ch(c, rest) =>
      FillWell(e, word, place);
      FillKeeps(rest, k, if IsIdentChar(c) then word + [c] else "", place);
      FillChKeeps(c, rest, k, word, place);
    case Ref(r, rest) =>
      FillWell(e, word, place);
      FillKeeps(rest, k + 1, "", place);
      FillRefKeeps(r, rest, k, place);
    case Hole(m, rest) =>
      FillWell(e, word, place);
      FillKeeps(rest, k, "", place);
      FillHoleKeeps(m, rest, k, place);
    case Group(b, rest) =>
      FillWell(e, word, place);
      FillKeeps(b, k, "", Nested(place));
      FillKeeps(rest, k + |Refs(b)|, "", place);
      FillGroupKeeps(b, rest, k, word, place);
    case Coalesce(a, f, rest) =>
      FillWell(e, word, place);
      FillKeeps(a, k, "", Argument);
      FillKeeps(f, k + |Refs(a)|, "", Inside);
      FillKeeps(rest, k + |Refs(a)| + |Refs(f)|, "", place);
      FillCallKeeps(a, f, rest, k, place);
  }

  // What a filled tree keeps of the tree.
  predicate Filled(e: Expr, k: nat, word: string, place: Context) {
    WellFormed(Fill(e, k), word, place) && Calls(Fill(e, k)) == Calls(e) && Refs(Fill(e, k)) == []
  }

  // The parts of a well-formed tree.
  lemma FillWell(e: Expr, word: string, place: Context)
    requires WellFormed(e, word, place)
    ensures e.Ch? ==> WellFormed(e.rest, if IsIdentChar(e.c) then word + [e.c] else "", place)
    ensures e.Ref? || e.Hole? || e.Coalesce? ==> word == "" && WellFormed(e.rest, "", place)
    ensures e.Group? ==> WellFormed(e.body, "", Nested(place)) && WellFormed(e.rest, "", place)
    ensures e.Coalesce? ==> WellFormed(e.arg, "", Argument) && WellFormed(e.fallback, "", Inside)
  {
    hide IsPlaceholder, IsRefText, EndsInCoalesce, IsIdentChar, RefEndsBefore, HoleEndsBefore;
  }

  lemma FillEndKeeps(k: nat)
    ensures Fill(End, k) == End
  {}

  lemma FillChKeeps(c: char, rest: Expr, k: nat, word: string, place: Context)
    requires WellFormed(Ch(c, rest), word, place) && Filled(rest, k, if IsIdentChar(c) then word + [c] else "", place)
    ensures Filled(Ch(c, rest), k, word, place)
  {
    hide IsPlaceholder, IsIdentChar;
  }

  lemma FillRefKeeps(r: string, rest: Expr, k: nat, place: Context)
    requires WellFormed(Ref(r, rest), "", place) && Filled(rest, k + 1, "", place)
    ensures Filled(Ref(r, rest), k, "", place)
  {
    hide IsPlaceholder, IsRefText, EndsInCoalesce, IsIdentChar;
    FillHead(rest, k + 1);
  }

  lemma FillHoleKeeps(m: nat, rest: Expr, k: nat, place: Context)
    requires WellFormed(Hole(m, rest), "", place) && Filled(rest, k, "", place)
    ensures Filled(Hole(m, rest), k, "", place)
  {
    hide IsPlaceholder, IsRefText, EndsInCoalesce, IsIdentChar;
    FillHead(rest, k);
  }

  lemma FillGroupKeeps(b: Expr, rest: Expr, k: nat, word: string, place: Context)
    requires WellFormed(Group(b, rest), word, place)
    requires Filled(b, k, "", Nested(place)) && Filled(rest, k + |Refs(b)|, "", place)
    ensures Filled(Group(b, rest), k, word, place)
  {
    hide IsPlaceholder, IsRefText, EndsInCoalesce, IsIdentChar;
  }

  lemma FillCallKeeps(a: Expr, f: Expr, rest: Expr, k: nat, place: Context)
    requires WellFormed(Coalesce(a, f, rest), "", place)
    requires Filled(a, k, "", Argument) && Filled(f, k + |Refs(a)|, "", Inside)
    requires Filled(rest, k + |Refs(a)| + |Refs(f)|, "", place)
    ensures Filled(Coalesce(a, f, rest), k, "", place)
  {
    hide IsPlaceholder, IsRefText, EndsInCoalesce, IsIdentChar;
  }

  lemma FillHead(e: Expr, k: nat)
    requires e.End? || e.Ch? || e.Group?
    ensures var t := Fill(e, k); (t.End? && e.End?) || (t.Ch? && e.Ch? && t.c == e.c) || (t.Group? && e.Group?)
  {}

  // The holes of a filled tree: its own, and k, k + 1, ... once each.
  predicate HolesOfFill(e: Expr, k: nat, n: nat) {
    Holes(Fill(e, k), n) == Holes(e, n) + InRange(n, k, |Refs(e)|)
  }

  lemma {:induction false} FillHoles(e: Expr, k: nat, n: nat)
    ensures HolesOfFill(e, k, n)
    decreases e
  {
    hide InRange;
    match e
    case End => InRangeNone(n, k);
    case Ch(_, rest) => FillHoles(rest, k, n); assert HolesOfFill(e, k, n);
    case Ref(_, rest) =>
      FillHoles(rest, k + 1, n);
      InRangeSum(n, k, 1, |Refs(rest)|);
      assert HolesOfFill(e, k, n);
    case Hole(_, rest) => FillHoles(rest, k, n); assert HolesOfFill(e, k, n);
    case Group(b, rest) =>
      FillHoles(b, k, n);
      FillHoles(rest, k + |Refs(b)|, n);
      FillGroupHoles(b, rest, k, n);
    case Coalesce(a, f, rest) =>
      FillHoles(a, k, n);
      FillHoles(f, k + |Refs(a)|, n);
      FillHoles(rest, k + |Refs(a)| + |Refs(f)|, n);
      FillCallHoles(a, f, rest, k, n);
  }

  lemma FillGroupHoles(b: Expr, rest: Expr, k: nat, n: nat)
    requires HolesOfFill(b, k, n) && HolesOfFill(rest, k + |Refs(b)|, n)
    ensures HolesOfFill(Group(b, rest), k, n)
  {
    hide InRange, Holes, Fill, Refs;
    FillParts(b, End, rest, k);
    PartsHoles(b, End, rest, n);
    PartsHoles(Fill(b, k), End, Fill(rest, k + |Refs(b)|), n);
    InRangeSum(n, k, |Refs(b)|, |Refs(rest)|);
  }

  lemma FillCallHoles(a: Expr, f: Expr, rest: Expr, k: nat, n: nat)
    requires HolesOfFill(a, k, n) && HolesOfFill(f, k + |Refs(a)|, n)
    requires HolesOfFill(rest, k + |Refs(a)| + |Refs(f)|, n)
    ensures HolesOfFill(Coalesce(a, f, rest), k, n)
  {
    hide InRange, Holes, Fill, Refs;
    FillParts(a, f, rest, k);
    PartsHoles(a, f, rest, n);
    PartsHoles(Fill(a, k), Fill(f, k + |Refs(a)|), Fill(rest, k + |Refs(a)| + |Refs(f)|), n);
    InRangeSum(n, k, |Refs(a)|, |Refs(f)|);
    InRangeSum(n, k, |Refs(a)| + |Refs(f)|, |Refs(rest)|);
  }

  // What filling does to a group and to a call.
  lemma FillParts(a: Expr, f: Expr, rest: Expr, k: nat)
    ensures Fill(Group(a, rest), k) == Group(Fill(a, k), Fill(rest, k + |Refs(a)|))
    ensures Fill(Coalesce(a, f, rest), k)
      == Coalesce(Fill(a, k), Fill(f, k + |Refs(a)|), Fill(rest, k + |Refs(a)| + |Refs(f)|))
  {
    hide Refs;
  }

  lemma PartsHoles(a: Expr, f: Expr, rest: Expr, n: nat)
    ensures Holes(Group(a, rest), n) == Holes(a, n) + Holes(rest, n) && |Refs(Group(a, rest))| == |Refs(a)| + |Refs(rest)|
    ensures Holes(Coalesce(a, f, rest), n) == Holes(a, n) + Holes(f, n) + Holes(rest, n)
    ensures |Refs(Coalesce(a, f, rest))| == |Refs(a)| + |Refs(f)| + |Refs(rest)|
  {}

  // 1 if n is one of the m numbers from k on, else 0.
  function InRange(n: nat, k: nat, m: nat): nat { if k <= n < k + m then 1 else 0 }

  lemma InRangeNone(n: nat, k: nat)
    ensures InRange(n, k, 0) == 0
  {}

  lemma InRangeSum(n: nat, k: nat, m1: nat, m2: nat)
    ensures InRange(n, k, m1 + m2) == InRange(n, k, m1) + InRange(n, k + m1, m2)
    ensures m1 == 1 ==> InRange(n, k, 1) == if n == k then 1 else 0
  {}
}
