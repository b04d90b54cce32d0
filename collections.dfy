/** Sequence utilities standing for the list and pandas built-ins the pipeline
    uses: `sorted(set(...))` on integers and on strings (pandas orders group keys
    this way), boolean-mask filtering, `unique()`, `max()` and `min()`. */
module Collections {

  function Elements<T>(s: seq<T>): set<T> {
    set x | x in s
  }

  predicate NoDup<T(==)>(s: seq<T>) {
    forall i, j :: 0 <= i < j < |s| ==> s[i] != s[j]
  }

  lemma ElementsSnoc<T>(s: seq<T>)
    requires s != []
    ensures Elements(s) == Elements(s[..|s| - 1]) + {s[|s| - 1]}
  {
    assert s == s[..|s| - 1] + [s[|s| - 1]];
  }

  lemma ElementsConcat<T>(a: seq<T>, b: seq<T>)
    ensures Elements(a + b) == Elements(a) + Elements(b)
  {
  }

  // ---------------------------------------------------------------------------
  // integers in ascending order

  predicate Increasing(s: seq<int>) {
    forall i, j :: 0 <= i < j < |s| ==> s[i] < s[j]
  }

  /** A finite set of integers has exactly one strictly increasing listing. */
  lemma {:induction false} IncreasingUnique(a: seq<int>, b: seq<int>)
    requires Increasing(a) && Increasing(b) && Elements(a) == Elements(b)
    ensures a == b
    decreases |a|
  {
    assert a != [] ==> a[0] in Elements(a);
    assert b != [] ==> b[0] in Elements(b);
    if a != [] && b != [] {
      assert a[0] in Elements(b) && b[0] in Elements(a);
      assert a[0] == b[0] by {
        var i :| 0 <= i < |b| && b[i] == a[0];
        var j :| 0 <= j < |a| && a[j] == b[0];
        assert b[0] <= b[i] && a[0] <= a[j];
      }
      TailElements(a);
      TailElements(b);
      IncreasingUnique(a[1..], b[1..]);
      assert a == [a[0]] + a[1..] && b == [b[0]] + b[1..];
    }
  }

  lemma TailElements(a: seq<int>)
    requires Increasing(a) && a != []
    ensures Elements(a[1..]) == Elements(a) - {a[0]}
  {
    assert a == [a[0]] + a[1..];
    forall y | y in Elements(a[1..]) ensures y != a[0] {
      var k :| 0 <= k < |a[1..]| && a[1..][k] == y;
      assert a[k + 1] == y;
    }
  }

  function InsertInt(x: int, s: seq<int>): (r: seq<int>)
    requires Increasing(s)
    ensures Increasing(r)
    ensures forall y :: y in r <==> y in s || y == x
  {
    if s == [] then [x]
    else if x == s[0] then s
    else if x < s[0] then [x] + s
    else
      var t := InsertInt(x, s[1..]);
      assert forall y :: y in s <==> y == s[0] || y in s[1..] by {
        assert s == [s[0]] + s[1..];
      }
      assert forall k :: 0 <= k < |t| ==> s[0] < t[k] by {
        forall k | 0 <= k < |t| ensures s[0] < t[k] {
          assert t[k] in t;
          if t[k] != x {
            var m :| 0 < m < |s| && s[m] == t[k];
          }
        }
      }
      [s[0]] + t
  }

  /** `sorted(set(xs))`: the distinct elements of `xs` in ascending order. */
  function SortedDistinct(xs: seq<int>): (r: seq<int>)
    ensures Increasing(r) && Elements(r) == Elements(xs)
  {
    if xs == [] then []
    else
      ElementsSnoc(xs);
      var r := InsertInt(xs[|xs| - 1], SortedDistinct(xs[..|xs| - 1]));
      assert Elements(r) == Elements(SortedDistinct(xs[..|xs| - 1])) + {xs[|xs| - 1]};
      r
  }

  // ---------------------------------------------------------------------------
  // strings in code-point lexicographic order (Python's `<` on `str`)

  predicate StrLt(a: string, b: string) {
    if a == [] then b != []
    else b != [] && (a[0] < b[0] || (a[0] == b[0] && StrLt(a[1..], b[1..])))
  }

  lemma {:induction false} StrLtIrreflexive(a: string)
    ensures !StrLt(a, a)
  {
    if a != [] {
      StrLtIrreflexive(a[1..]);
    }
  }

  lemma {:induction false} StrLtTransitive(a: string, b: string, c: string)
    requires StrLt(a, b) && StrLt(b, c)
    ensures StrLt(a, c)
  {
    if a != [] && a[0] == b[0] && b[0] == c[0] {
      StrLtTransitive(a[1..], b[1..], c[1..]);
    }
  }

  lemma {:induction false} StrLtTotal(a: string, b: string)
    ensures a == b || StrLt(a, b) || StrLt(b, a)
  {
    if a != [] && b != [] && a[0] == b[0] {
      StrLtTotal(a[1..], b[1..]);
      if a[1..] == b[1..] {
        assert a == [a[0]] + a[1..] && b == [b[0]] + b[1..];
      }
    }
  }

  predicate StrSorted(s: seq<string>) {
    forall i, j :: 0 <= i < j < |s| ==> StrLt(s[i], s[j])
  }

  lemma StrSortedNoDup(s: seq<string>)
    requires StrSorted(s)
    ensures NoDup(s)
  {
    forall i, j | 0 <= i < j < |s| ensures s[i] != s[j] {
      StrLtIrreflexive(s[i]);
    }
  }

  function InsertStr(x: string, s: seq<string>): (r: seq<string>)
    requires StrSorted(s)
    ensures StrSorted(r)
    ensures forall y :: y in r <==> y in s || y == x
  {
    if s == [] then [x]
    else if x == s[0] then s
    else if StrLt(x, s[0]) then
      assert forall j :: 0 < j < |s| ==> StrLt(x, s[j]) by {
        forall j | 0 < j < |s| ensures StrLt(x, s[j]) {
          StrLtTransitive(x, s[0], s[j]);
        }
      }
      [x] + s
    else
      StrLtTotal(x, s[0]);
      var t := InsertStr(x, s[1..]);
      assert forall y :: y in s <==> y == s[0] || y in s[1..] by {
        assert s == [s[0]] + s[1..];
      }
      assert forall k :: 0 <= k < |t| ==> StrLt(s[0], t[k]) by {
        forall k | 0 <= k < |t| ensures StrLt(s[0], t[k]) {
          assert t[k] in t;
          if t[k] != x {
            var m :| 0 < m < |s| && s[m] == t[k];
          }
        }
      }
      [s[0]] + t
  }

  /** `sorted(set(xs))` on strings: the distinct elements in ascending order. */
  function SortedStrings(xs: seq<string>): (r: seq<string>)
    ensures StrSorted(r) && NoDup(r) && Elements(r) == Elements(xs)
  {
    if xs == [] then []
    else
      ElementsSnoc(xs);
      var r := InsertStr(xs[|xs| - 1], SortedStrings(xs[..|xs| - 1]));
      assert Elements(r) == Elements(SortedStrings(xs[..|xs| - 1])) + {xs[|xs| - 1]};
      StrSortedNoDup(r);
      r
  }

  /** How many times `x` occurs in `s`. */
  function Occurrences<T(==)>(s: seq<T>, x: T): (n: nat)
    ensures n == multiset(s)[x]
  {
    if s == [] then 0
    else
      assert s == [s[0]] + s[1..];
      (if s[0] == x then 1 else 0) + Occurrences(s[1..], x)
  }

  // ---------------------------------------------------------------------------
  // filtering, unique, maximum and minimum

  /** The elements of `s` that satisfy `p`, in their original order (a boolean mask). */
  function Filter<T(!new)>(s: seq<T>, p: T -> bool): (r: seq<T>)
    ensures |r| <= |s|
    ensures forall x :: x in r <==> x in s && p(x)
    ensures forall x :: multiset(r)[x] == if p(x) then multiset(s)[x] else 0
  {
    if s == [] then []
    else
      assert s == [s[0]] + s[1..];
      (if p(s[0]) then [s[0]] else []) + Filter(s[1..], p)
  }

  /** Filtering twice keeps the elements that pass both masks, in order. */
  lemma {:induction false} FilterTwice<T(!new)>(s: seq<T>, p: T -> bool, q: T -> bool, both: T -> bool)
    requires forall x :: both(x) == (p(x) && q(x))
    ensures Filter(Filter(s, p), q) == Filter(s, both)
  {
    if s != [] {
      FilterTwice(s[1..], p, q, both);
      var head := if p(s[0]) then [s[0]] else [];
      assert Filter(s, p) == head + Filter(s[1..], p);
      if p(s[0]) {
        assert (head + Filter(s[1..], p))[1..] == Filter(s[1..], p);
      } else {
        assert head + Filter(s[1..], p) == Filter(s[1..], p);
      }
    }
  }

  /** Masks that agree on every element select the same subsequence. */
  lemma {:induction false} FilterSame<T(!new)>(s: seq<T>, p: T -> bool, q: T -> bool)
    requires forall x :: x in s ==> p(x) == q(x)
    ensures Filter(s, p) == Filter(s, q)
  {
    if s != [] {
      FilterSame(s[1..], p, q);
    }
  }

  /** A mask every element passes keeps the sequence as it is. */
  lemma {:induction false} FilterAll<T(!new)>(s: seq<T>, p: T -> bool)
    requires forall x :: x in s ==> p(x)
    ensures Filter(s, p) == s
  {
    if s != [] {
      FilterAll(s[1..], p);
      assert s == [s[0]] + s[1..];
    }
  }

  /** `pd.unique`: the distinct elements of `s`, each once, in order of first appearance. */
  function Unique<T(==)>(s: seq<T>): (r: seq<T>)
    ensures NoDup(r) && Elements(r) == Elements(s)
  {
    if s == [] then []
    else
      var u := Unique(s[..|s| - 1]);
      ElementsSnoc(s);
      if s[|s| - 1] in u then u else u + [s[|s| - 1]]
  }

  /** The position of the first occurrence of `x` in `s`. */
  function FirstIndex<T(==)>(s: seq<T>, x: T): (i: nat)
    requires x in s
    ensures i < |s| && s[i] == x && x !in s[..i]
  {
    if s[0] == x then 0
    else
      var k := FirstIndex(s[1..], x);
      assert s[..k + 1] == [s[0]] + s[1..][..k];
      k + 1
  }

  /** Every element of `u` occurs in `s`, and `u` lists them by the position of their first occurrence. */
  predicate InOrderOfAppearance<T(==)>(u: seq<T>, s: seq<T>) {
    forall i, k :: 0 <= i < k < |u| ==> u[i] in s && u[k] in s && FirstIndex(s, u[i]) < FirstIndex(s, u[k])
  }

  lemma FirstIndexPrefix<T>(s: seq<T>, n: nat, x: T)
    requires n <= |s| && x in s[..n]
    ensures x in s && FirstIndex(s, x) == FirstIndex(s[..n], x)
  {
    var i := FirstIndex(s[..n], x);
    assert s[..n][..i] == s[..i] && s[i] == x;
    var j := FirstIndex(s, x);
    assert forall k :: 0 <= k < j ==> s[..j][k] == s[k] != x;
    assert forall k :: 0 <= k < i ==> s[..i][k] == s[k] != x;
  }

  /** `Unique` lists the elements in the order of their first occurrence. */
  lemma {:induction false} UniqueOrder<T>(s: seq<T>)
    ensures InOrderOfAppearance(Unique(s), s)
  {
    if s != [] {
      var n := |s| - 1;
      var init := s[..n];
      var u := Unique(init);
      UniqueOrder(init);
      forall y | y in u ensures y in init && y in s && FirstIndex(s, y) == FirstIndex(init, y) < n {
        assert y in Elements(u);
        FirstIndexPrefix(s, n, y);
      }
      if s[n] !in u {
        assert s[n] !in init by {
          assert s[n] !in Elements(u);
        }
        assert forall k :: 0 <= k < n ==> s[k] == init[k] && init[k] in init;
        var r := u + [s[n]];
        assert Unique(s) == r;
        assert FirstIndex(s, s[n]) == n;
        forall i, j | 0 <= i < j < |r| ensures r[i] in s && r[j] in s && FirstIndex(s, r[i]) < FirstIndex(s, r[j]) {
          assert r[i] == u[i] && u[i] in u;
          if j < |u| {
            assert r[j] == u[j] && u[j] in u;
          }
        }
      } else {
        assert Unique(s) == u;
        forall i, j | 0 <= i < j < |u| ensures u[i] in s && u[j] in s && FirstIndex(s, u[i]) < FirstIndex(s, u[j]) {
          assert u[i] in u && u[j] in u;
        }
      }
    } else {
      assert Unique(s) == [];
    }
  }

  function MaxOf(s: seq<real>): (m: real)
    requires s != []
    ensures m in s && forall i :: 0 <= i < |s| ==> s[i] <= m
  {
    if |s| == 1 then s[0]
    else
      var rest := MaxOf(s[1..]);
      assert rest in s;
      if s[0] >= rest then s[0] else rest
  }

  function MinOf(s: seq<real>): (m: real)
    requires s != []
    ensures m in s && forall i :: 0 <= i < |s| ==> m <= s[i]
  {
    if |s| == 1 then s[0]
    else
      var rest := MinOf(s[1..]);
      assert rest in s;
      if s[0] <= rest then s[0] else rest
  }
}
