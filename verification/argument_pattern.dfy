/** The legacy header's argument pattern `^\s*([^=]+?)\s*=\s*(.*?)\s*$`, matched with
    Matcher.find(): a function that computes the two groups the way the backtracking
    matcher picks them, proved against a declarative reading of the pattern. */
module ArgumentPattern {
  import opened Wrappers
  import opened Text

  /** Position of the first '=' at or after `from`. */
  function FirstEquals(t: string, from: nat): (r: Option<nat>)
    requires from <= |t|
    ensures r.Some? ==> from <= r.value < |t| && t[r.value] == '='
    ensures r.Some? ==> forall k :: from <= k < r.value ==> t[k] != '='
    ensures r.None? ==> forall k :: from <= k < |t| ==> t[k] != '='
    decreases |t| - from
  {
    if from == |t| then None
    else if t[from] == '=' then Some(from)
    else FirstEquals(t, from + 1)
  }

  /** Whether `\s*$` matches t[n..]: blanks up to the end, or up to one line terminator
      that ends the input. */
  predicate EndsInputAt(t: string, n: nat)
    requires n <= |t|
  {
    SpaceIn(t, n, |t|) || (n < |t| && IsLineTerminator(t[|t| - 1]) && SpaceIn(t, n, |t| - 1))
  }

  /** End of the lazy group `(.*?)` started at r: the first position from r on where
      `\s*$` matches the rest, provided no line terminator lies on the way. */
  function LazyEnd(t: string, r: nat): (e: Option<nat>)
    requires r <= |t|
    ensures e.Some? ==> r <= e.value <= |t| && NoLineTerminatorIn(t, r, e.value)
    ensures e.Some? ==> EndsInputAt(t, e.value)
    ensures e.Some? ==> forall q :: r <= q < e.value ==> !EndsInputAt(t, q)
    decreases |t| - r
  {
    if EndsInputAt(t, r) then Some(r)
    else if IsLineTerminator(t[r]) then None
    else LazyEnd(t, r + 1)
  }

  /** Bounds of group 1 when the first '=' is at p > 0: the leading `\s*` takes all blanks
      and the lazy `[^=]+?` stops before the blanks ahead of '='; when everything before
      '=' is blank, `\s*` backs off by one so that the group holds the last blank. */
  function KeyBounds(t: string, p: nat): (b: (nat, nat))
    requires 0 < p < |t| && t[p] == '='
    ensures b.0 < b.1 <= p && SpaceIn(t, 0, b.0) && SpaceIn(t, b.1, p)
    ensures SpanSpaces(t, 0) < p ==> b.0 == SpanSpaces(t, 0) && !IsSpace(t[b.0]) && !IsSpace(t[b.1 - 1])
    ensures p <= SpanSpaces(t, 0) ==> b == (p - 1, p)
  {
    var a := SpanSpaces(t, 0);
    if a >= p then (p - 1, p)
    else
      assert !IsSpace(t[a]);
      (a, BackOverSpaces(t, a, p))
  }

  /** The two groups of a successful find() on t, or None when it finds nothing. */
  function ParseArgument(t: string): (r: Option<(string, string)>)
    ensures r.Some? ==> r.value.0 != [] && '=' !in r.value.0
    ensures r.Some? ==> forall c :: c in r.value.1 ==> !IsLineTerminator(c)
    ensures r.Some? ==> |r.value.0| == 1 || (!IsSpace(r.value.0[0]) && !IsSpace(r.value.0[|r.value.0| - 1]))
    ensures r.Some? ==> r.value.1 == [] || (!IsSpace(r.value.1[0]) && !IsSpace(r.value.1[|r.value.1| - 1]))
  {
    match FirstEquals(t, 0)
    case None => None
    case Some(p) =>
      if p == 0 then None
      else
        var (i, j) := KeyBounds(t, p);
        var m := SpanSpaces(t, p + 1);
        match LazyEnd(t, m)
        case None => None
        case Some(n) =>
          if m < n then
            EndsInputAfterSpace(t, n);
            Some((t[i..j], t[m..n]))
          else
            Some((t[i..j], t[m..n]))
  }

  /** `\s*$` matching at n but not at n - 1 means that t[n - 1] is not a `\s`. */
  lemma EndsInputAfterSpace(t: string, n: nat)
    requires 0 < n <= |t| && EndsInputAt(t, n) && !EndsInputAt(t, n - 1)
    ensures !IsSpace(t[n - 1])
  {
  }

  /** t matches the pattern with group 1 = t[i..j], the '=' at p and group 2 = t[m..n]. */
  ghost predicate MatchesAt(t: string, i: nat, j: nat, p: nat, m: nat, n: nat) {
    && i < j <= p < m <= n <= |t|
    && t[p] == '='
    && SpaceIn(t, 0, i)
    && (forall k :: i <= k < j ==> t[k] != '=')
    && SpaceIn(t, j, p)
    && SpaceIn(t, p + 1, m)
    && NoLineTerminatorIn(t, m, n)
    && EndsInputAt(t, n)
  }

  ghost predicate Matches(t: string) {
    exists i: nat, j: nat, p: nat, m: nat, n: nat :: MatchesAt(t, i, j, p, m, n)
  }

  /** The match find() reports among all matches of t: both `\s*` take every blank they
      can, except that the leading one gives one back when only blanks come before '=';
      the lazy group 1 stops before the blanks ahead of '=', and the lazy group 2 stops
      before the trailing blanks. */
  ghost predicate PreferredMatchAt(t: string, i: nat, j: nat, p: nat, m: nat, n: nat) {
    && MatchesAt(t, i, j, p, m, n)
    && (SpaceIn(t, 0, p) ==> i == p - 1)
    && (!SpaceIn(t, 0, p) ==> !IsSpace(t[i]) && !IsSpace(t[j - 1]))
    && (m < |t| ==> !IsSpace(t[m]))
    && (m < n ==> !IsSpace(t[n - 1]))
  }

  /** LazyEnd finds an end whenever one is reachable without crossing a line terminator. */
  lemma {:induction false} LazyEndReaches(t: string, r: nat, n: nat)
    requires r <= n <= |t|
    requires NoLineTerminatorIn(t, r, n) && EndsInputAt(t, n)
    ensures LazyEnd(t, r).Some?
    decreases n - r
  {
    if !EndsInputAt(t, r) {
      LazyEndReaches(t, r + 1, n);
    }
  }

  /** ParseArgument returns groups exactly when the pattern matches, and what it returns
      are the groups of the preferred match. */
  lemma ParseArgumentMatches(t: string)
    ensures ParseArgument(t).Some? <==> Matches(t)
    ensures ParseArgument(t).Some? ==>
      (exists i: nat, j: nat, p: nat, m: nat, n: nat ::
         PreferredMatchAt(t, i, j, p, m, n) && ParseArgument(t).value == (t[i..j], t[m..n]))
  {
    if ParseArgument(t).Some? {
      var p := FirstEquals(t, 0).value;
      var m := SpanSpaces(t, p + 1);
      ComputedIsPreferred(t, p, m, LazyEnd(t, m).value);
    }
    if Matches(t) {
      var i, j, p, m, n :| MatchesAt(t, i, j, p, m, n);
      ParseArgumentComplete(t, i, j, p, m, n);
    }
  }

  /** The positions ParseArgument computes make up a preferred match. */
  lemma ComputedIsPreferred(t: string, p: nat, m: nat, n: nat)
    requires FirstEquals(t, 0) == Some(p) && 0 < p
    requires m == SpanSpaces(t, p + 1) && LazyEnd(t, m) == Some(n)
    ensures PreferredMatchAt(t, KeyBounds(t, p).0, KeyBounds(t, p).1, p, m, n)
    ensures ParseArgument(t).value == (t[KeyBounds(t, p).0..KeyBounds(t, p).1], t[m..n])
  {
    assert SpaceIn(t, 0, p) <==> p <= SpanSpaces(t, 0);
    if m < n {
      EndsInputAfterSpace(t, n);
    }
  }

  lemma ParseArgumentComplete(t: string, i: nat, j: nat, p: nat, m: nat, n: nat)
    requires MatchesAt(t, i, j, p, m, n)
    ensures ParseArgument(t).Some?
  {
    assert forall k :: 0 <= k < p ==> t[k] != '=' by {
      forall k | 0 <= k < p ensures t[k] != '=' {
        if k < i || j <= k { assert IsSpace(t[k]); }
      }
    }
    assert FirstEquals(t, 0) == Some(p);
    var m' := SpanSpaces(t, p + 1);
    assert m <= m';
    if m' <= n {
      LazyEndReaches(t, m', n);
    } else {
      assert SpaceIn(t, n, m');
      assert EndsInputAt(t, m');
      LazyEndReaches(t, m', m');
    }
  }

  /** The preferred match is the one ParseArgument computes: there is only one, so the
      groups of find() are determined by the pattern alone. */
  lemma ParseArgumentPreferred(t: string, i: nat, j: nat, p: nat, m: nat, n: nat)
    requires PreferredMatchAt(t, i, j, p, m, n)
    ensures ParseArgument(t) == Some((t[i..j], t[m..n]))
  {
    PreferredKey(t, i, j, p, m, n);
    PreferredValue(t, i, j, p, m, n);
  }

  /** The preferred match's '=' is the first one, and its group 1 is KeyBounds. */
  lemma PreferredKey(t: string, i: nat, j: nat, p: nat, m: nat, n: nat)
    requires PreferredMatchAt(t, i, j, p, m, n)
    ensures FirstEquals(t, 0) == Some(p) && KeyBounds(t, p) == (i, j)
  {
    assert forall k :: 0 <= k < p ==> t[k] != '=' by {
      forall k | 0 <= k < p ensures t[k] != '=' {
        if k < i || j <= k { assert IsSpace(t[k]); }
      }
    }
    var a := SpanSpaces(t, 0);
    if !SpaceIn(t, 0, p) {
      SpanUnique(t, 0, i, a);
      BackUnique(t, a, p, j, BackOverSpaces(t, a, p));
    }
  }

  /** The preferred match's group 2 starts where the blanks after '=' end and stops
      where LazyEnd does. */
  lemma PreferredValue(t: string, i: nat, j: nat, p: nat, m: nat, n: nat)
    requires PreferredMatchAt(t, i, j, p, m, n)
    ensures SpanSpaces(t, p + 1) == m && LazyEnd(t, m) == Some(n)
  {
    SpanUnique(t, p + 1, m, SpanSpaces(t, p + 1));
    LazyEndReaches(t, m, n);
    var n' := LazyEnd(t, m).value;
    LazyEndUnique(t, m, n', n);
  }

  /** Two ends of the run of blanks starting at a agree. */
  lemma SpanUnique(t: string, a: nat, b: nat, c: nat)
    requires a <= b <= |t| && a <= c <= |t|
    requires SpaceIn(t, a, b) && (b < |t| ==> !IsSpace(t[b]))
    requires SpaceIn(t, a, c) && (c < |t| ==> !IsSpace(t[c]))
    ensures b == c
  {
  }

  /** Two starts of the run of blanks ending at b agree. */
  lemma BackUnique(t: string, a: nat, b: nat, c: nat, e: nat)
    requires a < c <= b <= |t| && a < e <= b
    requires SpaceIn(t, c, b) && !IsSpace(t[c - 1])
    requires SpaceIn(t, e, b) && !IsSpace(t[e - 1])
    ensures c == e
  {
  }

  /** Where `\s*$` first matches, no later end of a blank-free group 2 is possible. */
  lemma LazyEndUnique(t: string, m: nat, n': nat, n: nat)
    requires m <= n' <= n <= |t|
    requires EndsInputAt(t, n') && NoLineTerminatorIn(t, m, n)
    requires m < n ==> !IsSpace(t[n - 1])
    ensures n' == n
  {
  }
}
