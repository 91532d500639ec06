// Why the rewriting loops end, on any text: every pass removes an opening token
// "coalesce(" and what it writes in its place forms no new one.
module PricingTermination {
  import opened Text
  import opened PricingScanner
  import opened PricingTree

  // Number of opening tokens of s that begin in s[i..j].
  function Openings(s: string, i: nat, j: nat): nat
    requires i <= j <= |s|
    decreases j - i
  {
    if i == j then 0 else (if OpensAt(s, i) then 1 else 0) + Openings(s, i + 1, j)
  }

  function Count(s: string): nat { Openings(s, 0, |s|) }

  lemma {:induction false} Split(s: string, i: nat, k: nat, j: nat)
    requires i <= k <= j <= |s|
    ensures Openings(s, i, j) == Openings(s, i, k) + Openings(s, k, j)
    decreases k - i
  {
    if i < k { Split(s, i + 1, k, j); }
  }

  // Every opening of s[i..j] has its counterpart in t, moved to k.
  lemma {:induction false} NoMore(s: string, i: nat, j: nat, t: string, k: nat)
    requires i <= j <= |s| && k + (j - i) <= |t|
    requires forall p :: i <= p < j && OpensAt(s, p) ==> OpensAt(t, p - i + k)
    ensures Openings(s, i, j) <= Openings(t, k, k + (j - i))
    decreases j - i
  {
    hide OpensAt;
    if i < j {
      forall p | i + 1 <= p < j && OpensAt(s, p) ensures OpensAt(t, p - (i + 1) + (k + 1)) {
        assert OpensAt(t, p - i + k);
      }
      NoMore(s, i + 1, j, t, k + 1);
      assert OpensAt(s, i) ==> OpensAt(t, i - i + k);
    }
  }

  lemma {:induction false} NoneIn(s: string, i: nat, j: nat)
    requires i <= j <= |s| && forall p :: i <= p < j ==> !OpensAt(s, p)
    ensures Openings(s, i, j) == 0
    decreases j - i
  {
    if i < j { NoneIn(s, i + 1, j); }
  }

  // A slice has no more openings than its place in the text.
  lemma SliceCount(s: string, i: nat, j: nat)
    requires i <= j <= |s|
    ensures Count(s[i..j]) <= Openings(s, i, j)
  {
    NoMore(s[i..j], 0, j - i, s, i);
  }

  predicate Separator(c: char) { c == ')' || c == '_' || c == ' ' }

  // A character that no opening token holds keeps its two sides apart.
  lemma CountApart(a: string, c: char, b: string)
    requires Separator(c)
    ensures Count(a + [c] + b) <= Count(a) + Count(b)
  {
    hide Openings;
    var s := a + [c] + b;
    Split(s, 0, |a|, |s|);
    Split(s, |a|, |a| + 1, |s|);
    NoMore(s, 0, |a|, a, 0);
    NoMore(s, |a| + 1, |s|, b, 0);
    NoneIn(s, |a|, |a| + 1);
  }

  // Writing y and then z after s[..i] opens nothing new when y holds no start of
  // an opening token and cannot end one that starts before it.
  lemma CountSplice(s: string, i: nat, y: string, z: string)
    requires i <= |s|
    requires y != "" && forall c <- y :: c != 'c'
    requires y[0] == '_' || (y[0] == '(' && (i == 0 || !IsIdentChar(s[i - 1])))
    ensures Count(s[..i] + y + z) <= Openings(s, 0, i) + Count(z)
  {
    hide Openings;
    var t := s[..i] + y + z;
    var k := i + |y|;
    Split(t, 0, i, |t|);
    Split(t, i, k, |t|);
    forall p | 0 <= p < i && OpensAt(t, p) ensures OpensAt(s, p) { NotAcross(s, i, y, z, p); }
    NoMore(t, 0, i, s, 0);
    forall p | i <= p < k ensures !OpensAt(t, p) { assert t[p] == y[p - i]; assert y[p - i] in y; }
    NoneIn(t, i, k);
    NoMore(t, k, |t|, z, 0);
  }

  lemma NotAcross(s: string, i: nat, y: string, z: string, p: nat)
    requires p < i <= |s| && OpensAt(s[..i] + y + z, p)
    requires y != "" && (y[0] == '_' || (y[0] == '(' && !IsIdentChar(s[i - 1])))
    ensures OpensAt(s, p)
  {
    var t := s[..i] + y + z;
    assert t[i] == y[0] && t[i - 1] == s[i - 1];
    assert forall k :: 0 <= k < i ==> t[k] == s[k];
  }

  // ----- one pass of a rewriting loop -----

  // The text with the call that m spans replaced.
  function Spliced(s: string, m: Match, replacement: string): string
    requires m.start <= m.end <= |s|
  {
    s[..m.start] + replacement + s[m.end..]
  }

  // What the search guarantees about the call it returns.
  ghost predicate IsCallOf(m: Match, s: string) {
    && m.end <= |s| && OpensAt(s, m.start)
    && (m.start == 0 || !IsIdentChar(s[m.start - 1]))
    && exists k: nat :: PartsAt(m, s, k)
  }

  predicate PartsAt(m: Match, s: string, comma: nat) {
    && m.start + OPENING <= comma < m.end - 1 < |s|
    && m.arg == Trim(s[m.start + OPENING..comma]) && m.fallback == Trim(s[comma + 1..m.end - 1])
  }

  lemma {:induction false} FirstIsBounded(s: string, i: nat, glued: bool)
    requires i <= |s|
    ensures var r := FirstCoalesce(s, i, glued);
      r.Some? ==> (r.value == i && !glued) || (i < r.value && !IsIdentChar(s[r.value - 1]))
    decreases |s| - i
  {
    if i < |s| && !(OpensAt(s, i) && !glued) { FirstIsBounded(s, i + 1, IsIdentChar(s[i])); }
  }

  lemma CallParts(s: string, i: nat)
    requires OpensAt(s, i)
    ensures CallAt(s, i).Some? ==> exists k: nat :: PartsAt(CallAt(s, i).value, s, k)
  {
    hide Trim;
    var m := CallAt(s, i);
    if m.Some? { assert PartsAt(m.value, s, TopComma(s, i + OPENING, 1).value); }
  }

  lemma {:induction false} FoundIsCall(s: string, cursor: nat)
    requires cursor <= |s| && (cursor == 0 || !IsIdentChar(s[cursor - 1]))
    ensures InnermostFrom(s, cursor).Some? ==> IsCallOf(InnermostFrom(s, cursor).value, s)
    decreases |s| - cursor
  {
    hide FirstCoalesce, CallAt, Trim, IsInnermost;
    FirstIsBounded(s, cursor, false);
    var m := ExtractFrom(s, cursor);
    if m.Some? {
      CallParts(s, m.value.start);
      if !IsInnermost(m.value) { FoundIsCall(s, m.value.start + OPENING); }
    }
  }

  // A trimmed slice has no more openings than the slice's place in the text.
  lemma TrimCount(s: string, i: nat, j: nat)
    requires i <= j <= |s|
    ensures Count(Trim(s[i..j])) <= Openings(s, i, j)
  {
    var t := s[i..j];
    var a := SkipSpace(t, 0);
    var b := DropSpace(t, a, |t|);
    SliceCount(t, a, b);
    Split(t, 0, a, |t|);
    Split(t, a, b, |t|);
    SliceCount(s, i, j);
  }

  // A replacement "(...)" that holds no more openings than the argument and the
  // fallback together leaves fewer openings than there were.
  lemma PassDecreases(s: string, m: Match, x: string)
    requires IsCallOf(m, s) && Count(x) <= Count(m.arg) + Count(m.fallback)
    ensures Count(Spliced(s, m, "(" + x + ")")) < Count(s)
  {
    hide Openings, OpensAt, Trim, Count;
    var a, b := m.start, m.end;
    var k: nat :| PartsAt(m, s, k);
    TrimCount(s, a + OPENING, k);
    TrimCount(s, k + 1, b - 1);
    RangeSum(s, a, k, b);
    SliceCount(s, b, |s|);
    assert s[b..|s|] == s[b..];
    var z := x + [')'] + s[b..];
    CountApart(x, ')', s[b..]);
    CountSplice(s, a, "(", z);
    assert Spliced(s, m, "(" + x + ")") == s[..a] + "(" + z;
  }

  lemma RangeSum(s: string, a: nat, k: nat, b: nat)
    requires OpensAt(s, a) && a + OPENING <= k < b - 1 < |s|
    ensures Openings(s, 0, a) + 1 + Openings(s, a + OPENING, k) + Openings(s, k + 1, b - 1)
            + Openings(s, b, |s|) <= Count(s)
  {
    hide OpensAt;
    Split(s, 0, a, |s|);
    Split(s, a, a + 1, |s|);
    Split(s, a + 1, a + OPENING, |s|);
    Split(s, a + OPENING, k, |s|);
    Split(s, k, k + 1, |s|);
    Split(s, k + 1, b - 1, |s|);
    Split(s, b - 1, b, |s|);
  }

  // Replacing a reference by a placeholder opens nothing.
  lemma {:induction false} SplitAtFirst(s: string, pattern: string, replacement: string) returns (i: nat)
    ensures i <= |s|
    ensures (At(s, i, pattern) && ReplaceFirst(s, pattern, replacement) == s[..i] + replacement + s[i + |pattern|..])
         || ReplaceFirst(s, pattern, replacement) == s
  {
    if pattern <= s {
      i := 0;
      assert s[0..0 + |pattern|] == pattern;
    } else if s == "" {
      i := 0;
    } else {
      var j := SplitAtFirst(s[1..], pattern, replacement);
      var rest := ReplaceFirst(s[1..], pattern, replacement);
      if rest == s[1..] {
        i := 0;
        assert [s[0]] + s[1..] == s;
      } else {
        i := j + 1;
        OneLater(s, j, pattern, replacement);
      }
    }
  }

  lemma OneLater(s: string, j: nat, pattern: string, replacement: string)
    requires s != "" && At(s[1..], j, pattern)
    ensures At(s, j + 1, pattern)
    ensures [s[0]] + (s[1..][..j] + replacement + s[1..][j + |pattern|..]) == s[..j + 1] + replacement + s[j + 1 + |pattern|..]
  {
    var t, k := s[1..], j + |pattern|;
    SuffixSlice(s, 1, j + 1, k + 1);
    SuffixSlice(s, 1, k + 1, |s|);
    SuffixSlice(s, 1, 1, j + 1);
    assert t[k..|t|] == t[k..] && s[k + 1..|s|] == s[k + 1..];
    assert [s[0]] + t[0..j] == s[..j + 1];
  }

  lemma SubstitutionCount(s: string, ref: string, k: nat)
    ensures Count(ReplaceFirst(s, ref, Name(k))) <= Count(s)
  {
    var i := SplitAtFirst(s, ref, Name(k));
    if ReplaceFirst(s, ref, Name(k)) != s {
      var j := i + |ref|;
      NameHasNoC(k);
      CountSplice(s, i, Name(k), s[j..]);
      SliceCount(s, j, |s|);
      assert s[j..|s|] == s[j..];
      Split(s, 0, i, |s|);
      Split(s, i, j, |s|);
    }
  }

  lemma NameHasNoC(k: nat)
    ensures Name(k)[0] == '_' && forall c <- Name(k) :: c != 'c'
  {}
}
