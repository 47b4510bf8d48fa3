/**
 * Sequence operations shared by the services: duplicate-free sequences,
 * first-occurrence de-duplication, order-preserving filtering, counting,
 * tallies (a dictionary of counts) and prefixes (`xs[:n]`).
 */
module Collections {
  import opened Wrappers

  predicate NoDup<T(==)>(s: seq<T>) {
    forall i, j :: 0 <= i < j < |s| ==> s[i] != s[j]
  }

  function Elems<T(==)>(s: seq<T>): set<T> {
    set x | x in s
  }

  lemma NoDupConcat<T>(a: seq<T>, b: seq<T>)
    requires NoDup(a) && NoDup(b)
    requires forall x :: x in a ==> x !in b
    ensures NoDup(a + b)
  {
    forall i, j | 0 <= i < j < |a + b| ensures (a + b)[i] != (a + b)[j] {
      if j < |a| {
      } else if i >= |a| {
        assert (a + b)[i] == b[i - |a|] && (a + b)[j] == b[j - |a|];
      } else {
        assert (a + b)[i] in a && (a + b)[j] in b;
      }
    }
  }

  /** Index of the first occurrence of `x` in `xs`. */
  function FirstIndex<T(==)>(xs: seq<T>, x: T): (k: nat)
    requires x in xs
    ensures k < |xs| && xs[k] == x
    ensures forall j :: 0 <= j < k ==> xs[j] != x
  {
    if xs[0] == x then 0 else 1 + FirstIndex(xs[1..], x)
  }

  /**
   * The elements of `xs` in order of first occurrence, each kept once: what
   * a loop that appends every element not yet in a `seen` set produces.
   */
  function Distinct<T(==,!new)>(xs: seq<T>): (r: seq<T>)
    ensures NoDup(r)
    ensures forall x :: x in r <==> x in xs
    ensures |r| <= |xs|
  {
    if xs == [] then []
    else
      var d := Distinct(xs[..|xs| - 1]);
      var x := xs[|xs| - 1];
      if x in d then d
      else
        assert forall y :: y in xs ==> y in xs[..|xs| - 1] || y == x;
        d + [x]
  }

  lemma FirstIndexOfPrefix<T>(ys: seq<T>, x: T, y: T)
    requires y in ys
    ensures FirstIndex(ys + [x], y) == FirstIndex(ys, y)
  {
    var k := FirstIndex(ys, y);
    var k' := FirstIndex(ys + [x], y);
    assert (ys + [x])[k] == y;
    assert ys[k'] == y;
  }

  /** `Distinct` keeps the elements in the order of their first occurrence in `xs`. */
  lemma {:induction false} DistinctKeepsFirstOccurrenceOrder<T(!new)>(xs: seq<T>, a: nat, b: nat)
    requires a < b < |Distinct(xs)|
    ensures FirstIndex(xs, Distinct(xs)[a]) < FirstIndex(xs, Distinct(xs)[b])
    decreases |xs|
  {
    var ys := xs[..|xs| - 1];
    var x := xs[|xs| - 1];
    assert xs == ys + [x];
    var d := Distinct(ys);
    var r := Distinct(xs);
    assert r[..|d|] == d;
    assert r[a] in ys;
    FirstIndexOfPrefix(ys, x, r[a]);
    if b < |d| {
      DistinctKeepsFirstOccurrenceOrder(ys, a, b);
      FirstIndexOfPrefix(ys, x, r[b]);
    } else {
      assert r[b] == x && x !in ys;
      assert FirstIndex(xs, x) == |ys|;
    }
  }

  /** `[x for x in xs if p(x)]`. */
  function Filter<T(!new)>(xs: seq<T>, p: T -> bool): (r: seq<T>)
    ensures forall x :: x in r <==> x in xs && p(x)
    ensures |r| <= |xs|
  {
    if xs == [] then []
    else
      var x := xs[|xs| - 1];
      assert forall y :: y in xs ==> y in xs[..|xs| - 1] || y == x;
      Filter(xs[..|xs| - 1], p) + (if p(x) then [x] else [])
  }

  /** Filtering commutes with concatenation: the relative order of kept elements is unchanged. */
  lemma {:induction false} FilterConcat<T(!new)>(a: seq<T>, b: seq<T>, p: T -> bool)
    ensures Filter(a + b, p) == Filter(a, p) + Filter(b, p)
    decreases |b|
  {
    if b == [] {
      assert a + b == a;
    } else {
      var b' := b[..|b| - 1];
      assert (a + b)[..|a + b| - 1] == a + b';
      FilterConcat(a, b', p);
    }
  }

  /** Filtering a sequence that starts with `x`. */
  lemma FilterCons<T(!new)>(x: T, xs: seq<T>, p: T -> bool)
    ensures Filter([x] + xs, p) == (if p(x) then [x] else []) + Filter(xs, p)
  {
    assert Filter([x], p) == (if p(x) then [x] else []) by {
      assert [x][..0] == [];
    }
    FilterConcat([x], xs, p);
  }

  /** Filters that agree on every element of `xs` keep the same elements. */
  lemma {:induction false} FilterAgree<T(!new)>(xs: seq<T>, p: T -> bool, q: T -> bool)
    requires forall x :: x in xs ==> p(x) == q(x)
    ensures Filter(xs, p) == Filter(xs, q)
    decreases |xs|
  {
    if xs != [] {
      FilterAgree(xs[..|xs| - 1], p, q);
    }
  }

  /** Two filters in a row keep what the conjunction of their tests keeps. */
  lemma {:induction false} FilterFilter<T(!new)>(xs: seq<T>, p: T -> bool, q: T -> bool, both: T -> bool)
    requires forall x :: x in xs ==> both(x) == (p(x) && q(x))
    ensures Filter(Filter(xs, p), q) == Filter(xs, both)
    decreases |xs|
  {
    if xs != [] {
      var init, x := xs[..|xs| - 1], xs[|xs| - 1];
      FilterFilter(init, p, q, both);
      var kept := if p(x) then [x] else [];
      FilterConcat(Filter(init, p), kept, q);
      if p(x) {
        assert kept[..0] == [];
      }
    }
  }

  /** A filter that keeps every element is the identity; one that keeps none is empty. */
  lemma {:induction false} FilterAllOrNone<T(!new)>(xs: seq<T>, p: T -> bool)
    ensures (forall x :: x in xs ==> p(x)) ==> Filter(xs, p) == xs
    ensures (forall x :: x in xs ==> !p(x)) ==> Filter(xs, p) == []
    decreases |xs|
  {
    if xs != [] {
      FilterAllOrNone(xs[..|xs| - 1], p);
      assert xs == xs[..|xs| - 1] + [xs[|xs| - 1]];
    }
  }

  /** Filtering a duplicate-free sequence leaves it duplicate-free. */
  lemma {:induction false} FilterKeepsNoDup<T(!new)>(xs: seq<T>, p: T -> bool)
    requires NoDup(xs)
    ensures NoDup(Filter(xs, p))
    decreases |xs|
  {
    if xs != [] {
      var init, x := xs[..|xs| - 1], xs[|xs| - 1];
      FilterKeepsNoDup(init, p);
      assert x !in init by {
        forall j | 0 <= j < |init| ensures init[j] != x { assert xs[j] == init[j]; }
      }
      NoDupConcat(Filter(init, p), if p(x) then [x] else []);
    }
  }

  /** A duplicate-free sequence has as many elements as its set of elements. */
  lemma {:induction false} NoDupCard<T>(xs: seq<T>)
    requires NoDup(xs)
    ensures |Elems(xs)| == |xs|
    decreases |xs|
  {
    if xs != [] {
      var init, x := xs[..|xs| - 1], xs[|xs| - 1];
      assert NoDup(init);
      assert x !in init by {
        forall j | 0 <= j < |init| ensures init[j] != x { assert xs[j] == init[j]; }
      }
      NoDupCard(init);
      assert Elems(xs) == Elems(init) + {x} by {
        assert xs == init + [x];
      }
    }
  }

  /** `[y for x in xs for y in f(x)]`: the lists `f(x)` joined in the order of `xs`. */
  function FlatMap<T, U>(xs: seq<T>, f: T -> seq<U>): seq<U> {
    if xs == [] then [] else FlatMap(xs[..|xs| - 1], f) + f(xs[|xs| - 1])
  }

  lemma FlatMapSnoc<T, U>(xs: seq<T>, x: T, f: T -> seq<U>)
    ensures FlatMap(xs + [x], f) == FlatMap(xs, f) + f(x)
  {
    assert (xs + [x])[..|xs|] == xs;
  }

  lemma FlatMapThree<T, U>(a: T, b: T, c: T, f: T -> seq<U>)
    ensures FlatMap([a, b, c], f) == f(a) + f(b) + f(c)
  {
    assert [a, b, c] == [a, b] + [c];
    assert [a, b] == [a] + [b];
    assert [a] == [] + [a];
    FlatMapSnoc([], a, f);
    FlatMapSnoc([a], b, f);
    FlatMapSnoc([a, b], c, f);
  }

  /** Joining distributes over a split of the outer list. */
  lemma {:induction false} FlatMapConcat<T, U>(a: seq<T>, b: seq<T>, f: T -> seq<U>)
    ensures FlatMap(a + b, f) == FlatMap(a, f) + FlatMap(b, f)
    decreases |b|
  {
    if b == [] {
      assert a + b == a;
    } else {
      var b', x := b[..|b| - 1], b[|b| - 1];
      assert a + b == (a + b') + [x] && b == b' + [x];
      FlatMapConcat(a, b', f);
      FlatMapSnoc(a + b', x, f);
      FlatMapSnoc(b', x, f);
    }
  }

  /** Every element of the joined list comes from the list of some `x` in `xs`. */
  lemma {:induction false} FlatMapMember<T, U>(xs: seq<T>, f: T -> seq<U>)
    ensures forall y :: y in FlatMap(xs, f) ==> exists x :: x in xs && y in f(x)
    decreases |xs|
  {
    if xs != [] {
      var init := xs[..|xs| - 1];
      FlatMapMember(init, f);
      assert forall x :: x in init ==> x in xs;
    }
  }

  /** Number of occurrences of `x` in `xs`. */
  function Count<T(==)>(xs: seq<T>, x: T): (n: nat)
    ensures n <= |xs|
    ensures n == 0 <==> x !in xs
  {
    if xs == [] then 0
    else
      assert forall y :: y in xs ==> y in xs[..|xs| - 1] || y == xs[|xs| - 1];
      Count(xs[..|xs| - 1], x) + (if xs[|xs| - 1] == x then 1 else 0)
  }

  /**
   * The dictionary a loop builds with `d[x] = d.get(x, 0) + 1` over `xs`:
   * one key per distinct element, mapped to its number of occurrences.
   */
  function Tally<T(==)>(xs: seq<T>): (m: map<T, int>)
    ensures m.Keys == Elems(xs)
    ensures forall x :: x in m ==> m[x] == Count(xs, x)
  {
    if xs == [] then map[]
    else
      var m := Tally(xs[..|xs| - 1]);
      var x := xs[|xs| - 1];
      assert forall y :: y in xs ==> y in xs[..|xs| - 1] || y == x;
      Bump(m, x)
  }

  /** `xs[k]` is the first element of `xs` that satisfies `p`. */
  predicate IsFirstWhere<T>(xs: seq<T>, p: T -> bool, k: int) {
    0 <= k < |xs| && p(xs[k]) && forall j :: 0 <= j < k ==> !p(xs[j])
  }

  /** The first element satisfying `p`, scanning from the front. */
  function FindFirst<T(==)>(xs: seq<T>, p: T -> bool): (r: Option<T>)
    ensures r.None? <==> forall x :: x in xs ==> !p(x)
    ensures r.Some? ==> exists k :: IsFirstWhere(xs, p, k) && xs[k] == r.value
  {
    if xs == [] then None
    else if p(xs[0]) then
      assert IsFirstWhere(xs, p, 0);
      Some(xs[0])
    else
      var r := FindFirst(xs[1..], p);
      assert forall x :: x in xs ==> x == xs[0] || x in xs[1..];
      if r.Some? then
        var k :| IsFirstWhere(xs[1..], p, k) && xs[1..][k] == r.value;
        assert IsFirstWhere(xs, p, k + 1);
        r
      else r
  }

  /** The first element `Filter` keeps is the first element of `xs` that satisfies `p`. */
  lemma {:induction false} FilterHead<T(!new)>(xs: seq<T>, p: T -> bool)
    requires Filter(xs, p) != []
    ensures exists k :: IsFirstWhere(xs, p, k) && Filter(xs, p)[0] == xs[k]
    decreases |xs|
  {
    var init, x := xs[..|xs| - 1], xs[|xs| - 1];
    if Filter(init, p) != [] {
      FilterHead(init, p);
      var k :| IsFirstWhere(init, p, k) && Filter(init, p)[0] == init[k];
      assert IsFirstWhere(xs, p, k);
    } else {
      forall j | 0 <= j < |init| ensures !p(xs[j]) {
        assert init[j] in init;
      }
      assert IsFirstWhere(xs, p, |xs| - 1);
    }
  }

  /** Scanning on from offset `k`: look at `xs[k]`, then at the rest. */
  lemma FindFirstStep<T>(xs: seq<T>, p: T -> bool, k: nat)
    requires k < |xs|
    ensures FindFirst(xs[k..], p) == if p(xs[k]) then Some(xs[k]) else FindFirst(xs[k + 1..], p)
  {
    assert xs[k..][0] == xs[k];
    assert xs[k..][1..] == xs[k + 1..];
  }

  /** De-duplicating one more element keeps it only if it is new. */
  lemma DistinctSnoc<T(!new)>(xs: seq<T>, x: T)
    ensures Distinct(xs + [x]) == if x in xs then Distinct(xs) else Distinct(xs) + [x]
  {
    assert (xs + [x])[..|xs|] == xs;
  }

  /** Filtering one more element keeps it only if it passes. */
  lemma FilterSnoc<T(!new)>(xs: seq<T>, x: T, p: T -> bool)
    ensures Filter(xs + [x], p) == if p(x) then Filter(xs, p) + [x] else Filter(xs, p)
  {
    assert (xs + [x])[..|xs|] == xs;
  }

  /** `m[x] = m.get(x, 0) + 1`. */
  function Bump<T>(m: map<T, int>, x: T): map<T, int> {
    m[x := (if x in m then m[x] else 0) + 1]
  }

  /** Counting one more occurrence: the tally of `xs + [x]` bumps the count of `x`. */
  lemma TallySnoc<T>(xs: seq<T>, x: T)
    ensures Tally(xs + [x]) == Bump(Tally(xs), x)
  {
    assert (xs + [x])[..|xs|] == xs;
  }

  /** Sum of `Count(xs, k)` over the keys listed in `ks`. */
  function SumCounts<T(==)>(ks: seq<T>, xs: seq<T>): nat {
    if ks == [] then 0 else SumCounts(ks[..|ks| - 1], xs) + Count(xs, ks[|ks| - 1])
  }

  /** Sum of `m[k]` over the keys listed in `ks`. */
  function SumValues<T(==)>(ks: seq<T>, m: map<T, int>): int
    requires forall k :: k in ks ==> k in m
  {
    if ks == [] then 0 else SumValues(ks[..|ks| - 1], m) + m[ks[|ks| - 1]]
  }

  lemma {:induction false} SumCountsOfEmpty<T>(ks: seq<T>)
    ensures SumCounts(ks, []) == 0
    decreases |ks|
  {
    if ks != [] {
      SumCountsOfEmpty(ks[..|ks| - 1]);
    }
  }

  lemma {:induction false} SumCountsSnoc<T>(ks: seq<T>, ys: seq<T>, x: T)
    requires NoDup(ks)
    ensures SumCounts(ks, ys + [x]) == SumCounts(ks, ys) + (if x in ks then 1 else 0)
    decreases |ks|
  {
    var xs := ys + [x];
    assert xs[..|xs| - 1] == ys;
    if ks != [] {
      var ks' := ks[..|ks| - 1];
      var k := ks[|ks| - 1];
      assert ks == ks' + [k];
      assert k !in ks';
      SumCountsSnoc(ks', ys, x);
    }
  }

  /**
   * Counting every element of `xs` under a duplicate-free list of keys that
   * covers all of them accounts for each element exactly once.
   */
  lemma {:induction false} SumCountsIsLength<T>(ks: seq<T>, xs: seq<T>)
    requires NoDup(ks)
    requires forall x :: x in xs ==> x in ks
    ensures SumCounts(ks, xs) == |xs|
    decreases |xs|
  {
    if xs == [] {
      SumCountsOfEmpty(ks);
    } else {
      var ys := xs[..|xs| - 1];
      assert xs == ys + [xs[|xs| - 1]];
      SumCountsIsLength(ks, ys);
      SumCountsSnoc(ks, ys, xs[|xs| - 1]);
    }
  }

  lemma {:induction false} SumValuesOfTally<T>(ks: seq<T>, xs: seq<T>)
    requires forall k :: k in ks ==> k in Tally(xs)
    ensures SumValues(ks, Tally(xs)) == SumCounts(ks, xs)
    decreases |ks|
  {
    if ks != [] {
      SumValuesOfTally(ks[..|ks| - 1], xs);
    }
  }

  /** The counts of a tally, summed over its keys (each listed once), give the number of elements. */
  lemma TallySumsToLength<T>(ks: seq<T>, xs: seq<T>)
    requires NoDup(ks) && Elems(ks) == Tally(xs).Keys
    ensures SumValues(ks, Tally(xs)) == |xs|
  {
    assert forall k :: k in ks ==> k in Elems(ks);
    assert forall x :: x in xs ==> x in Elems(xs);
    SumValuesOfTally(ks, xs);
    SumCountsIsLength(ks, xs);
  }

  /** `xs[:n]` for a non-negative `n`. */
  function Take<T>(xs: seq<T>, n: nat): (r: seq<T>)
    ensures |r| == if n < |xs| then n else |xs|
    ensures r == xs[..|r|]
  {
    if n < |xs| then xs[..n] else xs
  }
}
