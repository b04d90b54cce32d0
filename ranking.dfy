/** The combined-score ranking of diseases used for the top-N selection: the
    per-condition maximum (`groupby("Condition")[col].max()`), the normalisation of
    a series by its maximum when that maximum is positive, the sum of the two
    normalised series, and `sort_values(ascending=False).head(n)`. */
module Ranking {
  import opened Collections

  // ---------------------------------------------------------------------------
  // per-condition maximum

  /** The largest `vs[i]` among the rows whose condition `cs[i]` is `c`. */
  function MaxWhere(cs: seq<string>, vs: seq<real>, c: string): (m: real)
    requires |cs| == |vs| && c in cs
    ensures exists i :: 0 <= i < |cs| && cs[i] == c && vs[i] == m
    ensures forall i :: 0 <= i < |cs| && cs[i] == c ==> vs[i] <= m
    decreases |cs|
  {
    var n := |cs| - 1;
    if c !in cs[..n] then
      assert forall i :: 0 <= i < n ==> cs[..n][i] == cs[i];
      vs[n]
    else
      var m := MaxWhere(cs[..n], vs[..n], c);
      assert forall i :: 0 <= i < n ==> cs[..n][i] == cs[i] && vs[..n][i] == vs[i];
      if cs[n] == c && vs[n] > m then vs[n] else m
  }

  /** `groupby("Condition")[col].max()`, as a map over the conditions `conds`. */
  function GroupMax(cs: seq<string>, vs: seq<real>, conds: seq<string>): (m: map<string, real>)
    requires |cs| == |vs| && forall c :: c in conds ==> c in cs
    ensures forall c :: c in m <==> c in conds
    ensures forall c :: c in conds ==> m[c] == MaxWhere(cs, vs, c)
  {
    map c | c in conds :: MaxWhere(cs, vs, c)
  }

  // ---------------------------------------------------------------------------
  // scores

  /** The series `m[c]` for `c` in `conds`. */
  function Project(conds: seq<string>, m: map<string, real>): (vs: seq<real>)
    requires forall c :: c in conds ==> c in m
    ensures |vs| == |conds| && forall i :: 0 <= i < |conds| ==> vs[i] == m[conds[i]]
  {
    seq(|conds|, i requires 0 <= i < |conds| && conds[i] in m => m[conds[i]])
  }

  /** `series / series.max() if series.max() > 0 else series`, at one condition. */
  function Normalized(conds: seq<string>, m: map<string, real>, c: string): (v: real)
    requires forall d :: d in conds ==> d in m
    requires c in conds
    ensures var top := MaxOf(Project(conds, m));
      (top > 0.0 ==> v == m[c] / top && v <= 1.0) && (top <= 0.0 ==> v == m[c])
  {
    var vs := Project(conds, m);
    var top := MaxOf(vs);
    if top > 0.0 then
      assert m[c] <= top by {
        var i :| 0 <= i < |conds| && conds[i] == c;
        assert vs[i] == m[c];
      }
      m[c] / top
    else m[c]
  }

  /** The combined score of every condition: normalised maximum DALY plus normalised maximum prevalence. */
  function Scores(conds: seq<string>, daly: map<string, real>, prev: map<string, real>): (sc: map<string, real>)
    requires forall c :: c in conds ==> c in daly && c in prev
    ensures forall c :: c in sc <==> c in conds
    ensures forall c :: c in conds ==> sc[c] == Normalized(conds, daly, c) + Normalized(conds, prev, c)
  {
    map c | c in conds :: Normalized(conds, daly, c) + Normalized(conds, prev, c)
  }

  // ---------------------------------------------------------------------------
  // ranking by score

  predicate Scored(cs: seq<string>, sc: map<string, real>) {
    forall i :: 0 <= i < |cs| ==> cs[i] in sc
  }

  /** Scores never increase along the sequence. */
  predicate Descending(cs: seq<string>, sc: map<string, real>)
    requires Scored(cs, sc)
  {
    forall i, j :: 0 <= i < j < |cs| ==> sc[cs[i]] >= sc[cs[j]]
  }

  /** Insert `c` before the first condition whose score is below its own. */
  function InsertByScore(c: string, cs: seq<string>, sc: map<string, real>): (r: seq<string>)
    requires c in sc && Scored(cs, sc) && Descending(cs, sc)
    ensures Scored(r, sc) && Descending(r, sc)
    ensures multiset(r) == multiset(cs) + multiset{c} && |r| == |cs| + 1
  {
    if cs == [] || sc[c] >= sc[cs[0]] then
      assert forall k :: 0 <= k < |cs| ==> sc[c] >= sc[cs[k]];
      ConsDescending(c, cs, sc);
      [c] + cs
    else
      var t := InsertByScore(c, cs[1..], sc);
      assert cs == [cs[0]] + cs[1..];
      HeadAboveRest(cs, c, t, sc);
      ConsDescending(cs[0], t, sc);
      [cs[0]] + t
  }

  lemma ConsDescending(x: string, t: seq<string>, sc: map<string, real>)
    requires x in sc && Scored(t, sc) && Descending(t, sc)
    requires forall k :: 0 <= k < |t| ==> sc[x] >= sc[t[k]]
    ensures Scored([x] + t, sc) && Descending([x] + t, sc)
  {
    var r := [x] + t;
    assert forall k :: 0 < k < |r| ==> r[k] == t[k - 1];
  }

  lemma HeadAboveRest(cs: seq<string>, c: string, t: seq<string>, sc: map<string, real>)
    requires cs != [] && c in sc && Scored(cs, sc) && Descending(cs, sc) && Scored(t, sc)
    requires sc[c] < sc[cs[0]] && multiset(t) == multiset(cs[1..]) + multiset{c}
    ensures forall k :: 0 <= k < |t| ==> sc[cs[0]] >= sc[t[k]]
  {
    forall k | 0 <= k < |t| ensures sc[cs[0]] >= sc[t[k]] {
      assert t[k] in multiset(t);
      if t[k] != c {
        assert t[k] in multiset(cs[1..]);
        var m :| 0 <= m < |cs[1..]| && cs[1..][m] == t[k];
        assert cs[m + 1] == t[k];
      }
    }
  }

  /** `sort_values(ascending=False)`: the conditions rearranged so that their scores
      never increase. Ties may come out in any order; no tie order is promised. */
  function SortByScore(cs: seq<string>, sc: map<string, real>): (r: seq<string>)
    requires Scored(cs, sc)
    ensures Scored(r, sc) && Descending(r, sc)
    ensures multiset(r) == multiset(cs) && |r| == |cs|
  {
    if cs == [] then []
    else
      assert cs == cs[..|cs| - 1] + [cs[|cs| - 1]];
      InsertByScore(cs[|cs| - 1], SortByScore(cs[..|cs| - 1], sc), sc)
  }

  function Min(a: int, b: int): int {
    if a < b then a else b
  }

  /** `.head(n)` of the ranking. */
  function TopByScore(cs: seq<string>, sc: map<string, real>, n: nat): seq<string>
    requires Scored(cs, sc)
  {
    SortByScore(cs, sc)[..Min(n, |cs|)]
  }

  /** `(d_norm + p_norm).sort_values(ascending=False).head(n)` over the conditions
      `conds` with per-condition maxima `daly` and `prev`. */
  function TopConditions(conds: seq<string>, daly: map<string, real>, prev: map<string, real>, n: nat): seq<string>
    requires forall c :: c in conds ==> c in daly && c in prev
  {
    TopByScore(conds, Scores(conds, daly, prev), n)
  }

  lemma MultisetNoDup(a: seq<string>, b: seq<string>)
    requires multiset(a) == multiset(b) && NoDup(a)
    ensures NoDup(b)
  {
    forall i, j | 0 <= i < j < |b| ensures b[i] != b[j] {
      NoDupCount(a, b[i]);
      EqualPairCount(b, i, j);
    }
  }

  lemma EqualPairCount(b: seq<string>, i: int, j: int)
    requires 0 <= i < j < |b|
    ensures b[i] == b[j] ==> multiset(b)[b[i]] >= 2
  {
    assert b == b[..i] + [b[i]] + b[i + 1..j] + [b[j]] + b[j + 1..];
  }

  lemma {:induction false} NoDupCount(a: seq<string>, x: string)
    requires NoDup(a)
    ensures multiset(a)[x] <= 1
  {
    if a != [] {
      assert a == [a[0]] + a[1..];
      assert NoDup(a[1..]) by {
        assert forall i :: 0 <= i < |a| - 1 ==> a[1..][i] == a[i + 1];
      }
      NoDupCount(a[1..], x);
      if a[0] == x {
        assert x !in a[1..] by {
          assert forall i :: 0 <= i < |a| - 1 ==> a[1..][i] == a[i + 1] != a[0];
        }
      }
    }
  }

  /** The top `n` of distinct conditions: `min(n, |cs|)` distinct conditions drawn from
      `cs`, and none of the conditions left out scores above any selected one. */
  lemma TopByScoreSpec(cs: seq<string>, sc: map<string, real>, n: nat)
    requires Scored(cs, sc) && NoDup(cs)
    ensures var top := TopByScore(cs, sc, n);
      |top| == Min(n, |cs|) && NoDup(top) && Scored(top, sc) &&
      (forall c :: c in top ==> c in cs) &&
      (forall c, d :: c in top && d in cs && d !in top ==> sc[c] >= sc[d])
  {
    var s := SortByScore(cs, sc);
    var k := Min(n, |cs|);
    var top := s[..k];
    MultisetNoDup(cs, s);
    assert forall c :: c in s <==> c in cs by {
      assert forall c :: c in s <==> c in multiset(s);
    }
    forall c, d | c in top && d in cs && d !in top ensures sc[c] >= sc[d] {
      var i :| 0 <= i < k && top[i] == c;
      var j :| 0 <= j < |s| && s[j] == d;
      assert top[i] == s[i];
      assert forall m :: 0 <= m < k ==> top[m] == s[m];
      assert j >= k;
    }
  }
}
