/**
 * The array operations the site's lists are built with: `filter`, `sort` with a
 * key comparator, `slice`, and the "put the edited record first" update.
 */
module Lists {
  import opened Wrappers
  import opened Js

  /** `s.filter(p)`: the elements satisfying `p`, in their original order. */
  function Filter<T(!new)>(s: seq<T>, p: T -> bool): (r: seq<T>)
    ensures |r| <= |s|
    ensures forall x :: x in r <==> x in s && p(x)
    ensures (forall i :: 0 <= i < |s| ==> p(s[i])) ==> r == s
  {
    if |s| == 0 then []
    else (if p(s[0]) then [s[0]] else []) + Filter(s[1..], p)
  }

  /** Filtering a non-empty sequence: its first element, if accepted, then the filtered rest. */
  lemma FilterCons<T(!new)>(a: seq<T>, b: seq<T>, p: T -> bool)
    requires |a| > 0
    ensures Filter(a + b, p) == (if p(a[0]) then [a[0]] else []) + Filter(a[1..] + b, p)
    ensures Filter(a, p) == (if p(a[0]) then [a[0]] else []) + Filter(a[1..], p)
  {
    assert (a + b)[0] == a[0] && (a + b)[1..] == a[1..] + b;
  }

  /** Filtering distributes over appending one element, which is how a loop builds it. */
  lemma {:induction false} FilterSnoc<T(!new)>(s: seq<T>, x: T, p: T -> bool)
    ensures Filter(s + [x], p) == Filter(s, p) + (if p(x) then [x] else [])
  {
    if |s| > 0 {
      FilterSnoc(s[1..], x, p);
      FilterCons(s, [x], p);
    } else {
      assert s + [x] == [x] && [x][1..] == [];
    }
  }

  /** Filtering distributes over concatenation. */
  lemma {:induction false} FilterAppend<T(!new)>(a: seq<T>, b: seq<T>, p: T -> bool)
    ensures Filter(a + b, p) == Filter(a, p) + Filter(b, p)
  {
    if |a| > 0 {
      FilterAppend(a[1..], b, p);
      FilterCons(a, b, p);
    } else {
      assert a + b == b;
    }
  }

  /** Filtering keeps every occurrence of an accepted element and none of a rejected one. */
  lemma {:induction false} FilterMultiset<T(!new)>(s: seq<T>, p: T -> bool, x: T)
    ensures multiset(Filter(s, p))[x] == if p(x) then multiset(s)[x] else 0
  {
    if |s| > 0 {
      FilterMultiset(s[1..], p, x);
      assert s == [s[0]] + s[1..];
    }
  }

  /** Filtering two orderings of the same elements gives two orderings of the same elements. */
  lemma FilterPermutation<T(!new)>(s: seq<T>, t: seq<T>, p: T -> bool)
    requires multiset(s) == multiset(t)
    ensures multiset(Filter(s, p)) == multiset(Filter(t, p))
  {
    forall x
      ensures multiset(Filter(s, p))[x] == multiset(Filter(t, p))[x]
    {
      FilterMultiset(s, p, x);
      FilterMultiset(t, p, x);
    }
  }

  /** `a` is `b` with some elements left out, the rest in order. */
  predicate Subsequence<T(==)>(a: seq<T>, b: seq<T>)
    decreases |b|
  {
    |a| == 0 || (|b| > 0 && ((a[0] == b[0] && Subsequence(a[1..], b[1..])) || Subsequence(a, b[1..])))
  }

  /** `filter` only leaves elements out: its result is a subsequence of its input. */
  lemma {:induction false} FilterSubsequence<T(!new)>(s: seq<T>, p: T -> bool)
    ensures Subsequence(Filter(s, p), s)
  {
    if |s| > 0 {
      FilterSubsequence(s[1..], p);
      var r := Filter(s, p);
      if p(s[0]) {
        assert r[0] == s[0] && r[1..] == Filter(s[1..], p);
      } else {
        assert r == Filter(s[1..], p);
      }
    }
  }

  /** `s.map(f)`. */
  function Map<T(!new), U>(s: seq<T>, f: T -> U): (r: seq<U>)
    ensures |r| == |s|
    ensures forall i :: 0 <= i < |s| ==> r[i] == f(s[i])
  {
    seq(|s|, i requires 0 <= i < |s| => f(s[i]))
  }

  /** Mapping an extended list extends the mapped list by the new element's image. */
  lemma MapSnoc<T(!new), U>(s: seq<T>, x: T, f: T -> U)
    ensures Map(s + [x], f) == Map(s, f) + [f(x)]
  {
  }

  /** Filtering then mapping a list with one more element adds that element's image exactly when it passes. */
  lemma MapFilterSnoc<T(!new), U>(s: seq<T>, x: T, p: T -> bool, f: T -> U)
    ensures Map(Filter(s + [x], p), f) == Map(Filter(s, p), f) + if p(x) then [f(x)] else []
  {
    FilterSnoc(s, x, p);
    if p(x) {
      MapSnoc(Filter(s, p), x, f);
    } else {
      assert Filter(s, p) + [] == Filter(s, p);
    }
  }

  /** `s.slice(0, n)` for a non-negative `n`. */
  function Take<T(!new)>(s: seq<T>, n: nat): (r: seq<T>)
    ensures |r| == if n < |s| then n else |s|
    ensures r == s[..|r|]
  {
    if n < |s| then s[..n] else s
  }

  /** `le` orders its type totally, up to ties. */
  ghost predicate TotalPreorder<T(!new)>(le: (T, T) -> bool) {
    && (forall a, b :: le(a, b) || le(b, a))
    && (forall a, b, c :: le(a, b) && le(b, c) ==> le(a, c))
  }

  predicate SortedBy<T(!new)>(s: seq<T>, le: (T, T) -> bool) {
    forall i, j :: 0 <= i < j < |s| ==> le(s[i], s[j])
  }

  /** Filtering keeps a sorted sequence sorted. */
  lemma {:induction false} FilterSorted<T(!new)>(s: seq<T>, p: T -> bool, le: (T, T) -> bool)
    requires SortedBy(s, le)
    ensures SortedBy(Filter(s, p), le)
  {
    if |s| > 0 {
      FilterSorted(s[1..], p, le);
      var t := Filter(s[1..], p);
      forall j | 0 <= j < |t|
        ensures le(s[0], t[j])
      {
        assert t[j] in s[1..];
      }
    }
  }

  /** The head of a sorted `s` that `x` does not precede comes before every element of `x` inserted into the tail. */
  lemma HeadBelowInserted<T(!new)>(x: T, s: seq<T>, t: seq<T>, le: (T, T) -> bool)
    requires TotalPreorder(le) && SortedBy(s, le) && |s| > 0 && !le(x, s[0])
    requires multiset(t) == multiset(s[1..]) + multiset{x}
    ensures forall y :: y in t ==> le(s[0], y)
  {
    forall y | y in t
      ensures le(s[0], y)
    {
      assert y in multiset(t);
      if y != x {
        assert y in multiset(s[1..]);
        var j :| 0 <= j < |s[1..]| && s[1..][j] == y;
        assert s[j + 1] == y;
      }
    }
  }

  /** Places `x` before the first element it does not follow. */
  function Insert<T(!new)>(x: T, s: seq<T>, le: (T, T) -> bool): (r: seq<T>)
    requires TotalPreorder(le)
    requires SortedBy(s, le)
    ensures SortedBy(r, le)
    ensures multiset(r) == multiset(s) + multiset{x}
  {
    if |s| == 0 || le(x, s[0]) then
      [x] + s
    else
      var t := Insert(x, s[1..], le);
      assert s == [s[0]] + s[1..];
      HeadBelowInserted(x, s, t, le);
      [s[0]] + t
  }

  /**
   * `s.sort(cmp)` with a comparator that never answers 0: some ordering of the
   * same elements that `le` accepts. How ties end up is not part of the contract.
   */
  function SortBy<T(!new)>(s: seq<T>, le: (T, T) -> bool): (r: seq<T>)
    requires TotalPreorder(le)
    ensures SortedBy(r, le)
    ensures multiset(r) == multiset(s)
    ensures |r| == |s|
  {
    if |s| == 0 then []
    else
      assert s == [s[0]] + s[1..];
      Insert(s[0], SortBy(s[1..], le), le)
  }

  /** Ascending by an integer key: `(a, b) => key(a) > key(b) ? 1 : -1`. */
  function ByIntKey<T(!new)>(key: T -> int): (le: (T, T) -> bool)
    ensures forall a, b :: le(a, b) <==> key(a) <= key(b)
  {
    (a, b) => key(a) <= key(b)
  }

  /** Descending by an integer key, as the comparator `(a, b) => a.key > b.key ? -1 : 1`. */
  function ByIntKeyDesc<T(!new)>(key: T -> int): (le: (T, T) -> bool)
    ensures forall a, b :: le(a, b) <==> key(b) <= key(a)
  {
    (a, b) => key(b) <= key(a)
  }

  /** Ascending by a string key, in JavaScript's string order (UTF-16 code units). */
  function ByStringKey<T(!new)>(key: T -> string): (le: (T, T) -> bool)
    ensures forall a, b :: le(a, b) <==> StrLessEq(key(a), key(b))
  {
    (a, b) => StrLessEq(key(a), key(b))
  }

  /** Descending by a string key. */
  function ByStringKeyDesc<T(!new)>(key: T -> string): (le: (T, T) -> bool)
    ensures forall a, b :: le(a, b) <==> StrLessEq(key(b), key(a))
  {
    (a, b) => StrLessEq(key(b), key(a))
  }

  lemma IntKeyOrders<T(!new)>(key: T -> int)
    ensures TotalPreorder(ByIntKey(key))
    ensures TotalPreorder(ByIntKeyDesc(key))
  {
  }

  lemma StringKeyOrders<T(!new)>(key: T -> string)
    ensures TotalPreorder(ByStringKey(key))
    ensures TotalPreorder(ByStringKeyDesc(key))
  {
    forall a, b
      ensures StrLessEq(key(a), key(b)) || StrLessEq(key(b), key(a))
    {
      StrLessTotal(key(a), key(b));
    }
    forall a, b, c | StrLessEq(key(a), key(b)) && StrLessEq(key(b), key(c))
      ensures StrLessEq(key(a), key(c))
    {
      if key(a) != key(b) && key(b) != key(c) {
        StrLessTransitive(key(a), key(b), key(c));
      }
    }
  }

  /**
   * `[x].concat(s.filter(y => id(y) !== id(x)))`: the edited record first, every
   * older record with the same id dropped, the others in their order.
   */
  function PutFirst<T(!new)>(x: T, s: seq<T>, id: T -> string): (r: seq<T>)
    ensures |r| >= 1 && r[0] == x
    ensures r[1..] == Filter(s, y => id(y) != id(x))
    ensures forall y :: y in r[1..] <==> y in s && id(y) != id(x)
  {
    [x] + Filter(s, y => id(y) != id(x))
  }

  /** After `PutFirst` the id of `x` occurs once, and every other id still occurs if it did before. */
  lemma PutFirstIds<T(!new)>(x: T, s: seq<T>, id: T -> string)
    ensures forall i :: 1 <= i < |PutFirst(x, s, id)| ==> id(PutFirst(x, s, id)[i]) != id(x)
    ensures forall y :: y in s && id(y) != id(x) ==> y in PutFirst(x, s, id)
  {
    var r := PutFirst(x, s, id);
    forall i | 1 <= i < |r|
      ensures id(r[i]) != id(x)
    {
      assert r[i] in r[1..];
    }
  }

  /** `s.find(p)`: the first element satisfying `p`, or `undefined`. */
  function Find<T(==, !new)>(s: seq<T>, p: T -> bool): (r: Option<T>)
    ensures r.None? <==> forall x :: x in s ==> !p(x)
    ensures r.Some? ==> exists i :: 0 <= i < |s| && s[i] == r.value && p(s[i]) && forall j :: 0 <= j < i ==> !p(s[j])
  {
    if |s| == 0 then None
    else if p(s[0]) then Some(s[0])
    else
      var r := Find(s[1..], p);
      assert forall x :: x in s ==> x == s[0] || x in s[1..];
      if r.Some? then
        var i :| 0 <= i < |s[1..]| && s[1..][i] == r.value && p(s[1..][i]) && forall j :: 0 <= j < i ==> !p(s[1..][j]);
        assert s[i + 1] == r.value && forall j :: 0 <= j < i + 1 ==> !p(s[j]);
        r
      else r
  }

  /** No two elements share a key. */
  predicate UniqueKeys<T(!new)>(s: seq<T>, key: T -> string) {
    forall i, j :: 0 <= i < j < |s| ==> key(s[i]) != key(s[j])
  }

  /** Filtering keeps the keys unique. */
  lemma {:induction false} FilterKeepsKeysUnique<T(!new)>(s: seq<T>, p: T -> bool, key: T -> string)
    requires UniqueKeys(s, key)
    ensures UniqueKeys(Filter(s, p), key)
  {
    if |s| > 0 {
      FilterKeepsKeysUnique(s[1..], p, key);
      var t := Filter(s[1..], p);
      forall j | 0 <= j < |t|
        ensures key(s[0]) != key(t[j])
      {
        assert t[j] in s[1..];
        var k :| 0 <= k < |s[1..]| && s[1..][k] == t[j];
        assert s[k + 1] == t[j];
      }
    }
  }

  /** `PutFirst` keeps the keys of a list unique, whatever record it puts first. */
  lemma PutFirstKeepsKeysUnique<T(!new)>(x: T, s: seq<T>, id: T -> string)
    requires UniqueKeys(s, id)
    ensures UniqueKeys(PutFirst(x, s, id), id)
  {
    var r := PutFirst(x, s, id);
    FilterKeepsKeysUnique(s, y => id(y) != id(x), id);
    PutFirstIds(x, s, id);
    forall i, j | 0 <= i < j < |r|
      ensures id(r[i]) != id(r[j])
    {
      if i > 0 {
        assert r[i] == r[1..][i - 1] && r[j] == r[1..][j - 1];
      }
    }
  }

  predicate Distinct<T(==)>(s: seq<T>) {
    forall i, j :: 0 <= i < j < |s| ==> s[i] != s[j]
  }

  lemma {:induction false} DistinctCount<T>(s: seq<T>, x: T)
    requires Distinct(s)
    ensures multiset(s)[x] <= 1
  {
    if |s| > 0 {
      assert s == [s[0]] + s[1..];
      DistinctCount(s[1..], x);
      assert s[0] !in s[1..];
    }
  }

  lemma TwiceCount<T>(s: seq<T>, i: int, j: int)
    requires 0 <= i < j < |s| && s[i] == s[j]
    ensures multiset(s)[s[i]] >= 2
  {
    assert s == s[..i] + [s[i]] + s[i + 1..j] + [s[j]] + s[j + 1..];
  }

  /** Reordering keeps the elements distinct. */
  lemma DistinctPermutation<T>(s: seq<T>, t: seq<T>)
    requires multiset(s) == multiset(t) && Distinct(t)
    ensures Distinct(s)
  {
    forall i, j | 0 <= i < j < |s|
      ensures s[i] != s[j]
    {
      if s[i] == s[j] {
        TwiceCount(s, i, j);
        DistinctCount(t, s[i]);
      }
    }
  }

  /** The elements of `s`, each once, in order of first occurrence. */
  function Dedup<T(==, !new)>(s: seq<T>): (r: seq<T>)
    ensures forall x :: x in r <==> x in s
    ensures Distinct(r)
  {
    if |s| == 0 then []
    else
      var d := Dedup(s[..|s| - 1]);
      assert s == s[..|s| - 1] + [s[|s| - 1]];
      if s[|s| - 1] in d then d else d + [s[|s| - 1]]
  }

  /** An element listed before another already occurs in `s` before any occurrence of the other. */
  lemma {:induction false} DedupFirstOccurrence<T(!new)>(s: seq<T>, i: int, j: int, k: int)
    requires 0 <= i < j < |Dedup(s)| && 0 <= k < |s| && s[k] == Dedup(s)[j]
    ensures Dedup(s)[i] in s[..k]
  {
    var n := |s| - 1;
    var p := s[..n];
    var d := Dedup(p);
    var r := Dedup(s);
    assert r[i] == d[i] && d[i] in p;
    if k < n {
      assert s[..k] == p[..k] && s[k] == p[k] && p[k] in d;
      assert r[j] == d[j];
      DedupFirstOccurrence(p, i, j, k);
    } else {
      assert s[..k] == p;
    }
  }

  /** Appending an element already present changes nothing; a new one goes last. */
  lemma DedupSnoc<T(!new)>(s: seq<T>, x: T)
    ensures Dedup(s + [x]) == if x in Dedup(s) then Dedup(s) else Dedup(s) + [x]
  {
    assert (s + [x])[..|s|] == s;
  }

  /** Filtering, mapping and de-duplicating a list with one more element adds that element's image when it passes and is new. */
  lemma DedupMapFilterSnoc<T(!new), U(!new)>(s: seq<T>, x: T, p: T -> bool, f: T -> U)
    ensures var d := Dedup(Map(Filter(s, p), f));
      Dedup(Map(Filter(s + [x], p), f)) == if p(x) && f(x) !in d then d + [f(x)] else d
  {
    var m := Map(Filter(s, p), f);
    MapFilterSnoc(s, x, p, f);
    if p(x) {
      DedupSnoc(m, f(x));
    } else {
      assert m + [] == m;
    }
  }

  // ---- sequence identities, kept apart from the proofs that use them ----

  /** A sequence is its part before `k`, its element `k` and its part after. */
  lemma SplitAround<T>(s: seq<T>, k: int)
    requires 0 <= k < |s|
    ensures s == s[..k] + [s[k]] + s[k + 1..]
    ensures s[..k + 1] == s[..k] + [s[k]] && s[..k + 1] + s[k + 1..] == s
  {
  }

  lemma ConsAssoc<T>(x: T, a: seq<T>, b: seq<T>)
    ensures [x] + (a + b) == [x] + a + b
  {
  }
}
