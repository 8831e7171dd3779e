// Sequence helpers that mirror the Kotlin collection operations the board
// engines use (filter, distinct, flatMap, count), with the facts about them
// that the engine proofs need.
module Seqs {

  /** No element occurs twice. */
  predicate NoDup<T(==,!new)>(s: seq<T>) {
    forall i, j :: 0 <= i < j < |s| ==> s[i] != s[j]
  }

  /** Kotlin `filter`: the elements satisfying `keep`, in their original order. */
  function Filter<T(==,!new)>(s: seq<T>, keep: T -> bool): (r: seq<T>)
    ensures |r| <= |s|
    ensures forall x :: x in r <==> x in s && keep(x)
    ensures NoDup(s) ==> NoDup(r)
  {
    if s == [] then []
    else
      var rest := Filter(s[1..], keep);
      if keep(s[0]) then
        assert NoDup(s) ==> s[0] !in rest;
        [s[0]] + rest
      else rest
  }

  lemma {:induction false} FilterAppend<T(!new)>(a: seq<T>, b: seq<T>, keep: T -> bool)
    ensures Filter(a + b, keep) == Filter(a, keep) + Filter(b, keep)
  {
    if a == [] {
      assert a + b == b;
    } else {
      assert (a + b)[1..] == a[1..] + b;
      FilterAppend(a[1..], b, keep);
    }
  }

  /** The test `filterNot` applies: not one of `visited`. */
  function NotIn<T(==)>(visited: seq<T>): T -> bool {
    q => q !in visited
  }

  /** `filterNot { visited.contains(it) }`: the elements not in `visited`, in order. */
  function Unvisited<T(==,!new)>(s: seq<T>, visited: seq<T>): (r: seq<T>)
    ensures forall q :: q in r <==> q in s && q !in visited
    ensures NoDup(s) ==> NoDup(r)
  {
    Filter(s, NotIn(visited))
  }

  /** `filterNot` on one element keeps it when it is not visited. */
  lemma UnvisitedOne<T(!new)>(x: T, visited: seq<T>)
    ensures Unvisited([x], visited) == if x in visited then [] else [x]
  {
    assert [x][1..] == [];
  }

  /** Kotlin `distinct`: keeps the first occurrence of every element. */
  function Distinct<T(==,!new)>(s: seq<T>): (r: seq<T>)
    ensures NoDup(r)
    ensures |r| <= |s|
    ensures forall x :: x in r <==> x in s
  {
    if s == [] then []
    else
      var d := Distinct(s[..|s| - 1]);
      var last := s[|s| - 1];
      assert forall x :: x in s <==> x in s[..|s| - 1] || x == last;
      if last in d then d else d + [last]
  }

  /** Kotlin `flatMap`: the concatenation of `f(x)` for each `x` of `s`, in order. */
  function FlatMap<T(!new), U(==,!new)>(s: seq<T>, f: T -> seq<U>): (r: seq<U>)
    ensures forall y :: y in r <==> exists x :: x in s && y in f(x)
  {
    if s == [] then []
    else
      var rest := FlatMap(s[1..], f);
      assert forall x :: x in s <==> x == s[0] || x in s[1..];
      f(s[0]) + rest
  }

  /** Kotlin `filter { .. }.count()`: how many elements satisfy `P`. */
  function Count<T>(s: seq<T>, P: T -> bool): nat {
    if s == [] then 0
    else Count(s[..|s| - 1], P) + (if P(s[|s| - 1]) then 1 else 0)
  }

  /** No more elements satisfy `P` than there are elements. */
  lemma {:induction false} CountAtMost<T>(s: seq<T>, P: T -> bool)
    ensures Count(s, P) <= |s|
  {
    if s != [] {
      CountAtMost(s[..|s| - 1], P);
    }
  }

  /** The set of elements of a sequence. */
  function Elems<T(!new)>(s: seq<T>): (r: set<T>)
    ensures forall x :: x in r <==> x in s
  {
    set x | x in s
  }

  /** The elements of a sequence that satisfy `P`. */
  function ElemsWhere<T(!new)>(s: seq<T>, P: T -> bool): (r: set<T>)
    ensures forall x :: x in r <==> x in s && P(x)
  {
    set x | x in s && P(x)
  }

  /** Two duplicate-free sequences with no element in common concatenate without duplicates. */
  lemma NoDupConcat<T(!new)>(a: seq<T>, b: seq<T>)
    requires NoDup(a) && NoDup(b)
    requires forall x :: x in a ==> x !in b
    ensures NoDup(a + b)
  {
    forall i, j | 0 <= i < j < |a + b| ensures (a + b)[i] != (a + b)[j] {
      if i < |a| && |a| <= j {
        assert (a + b)[i] in a && (a + b)[j] in b;
      }
    }
  }

  /** A concatenation without duplicates has no element on both sides. */
  lemma NoDupConcatDisjoint<T(!new)>(a: seq<T>, b: seq<T>)
    requires NoDup(a + b)
    ensures forall x :: x in a ==> x !in b
  {
    forall x | x in a ensures x !in b {
      var i :| 0 <= i < |a| && a[i] == x;
      assert (a + b)[i] == x;
      assert forall j :: 0 <= j < |b| ==> (a + b)[|a| + j] == b[j];
    }
  }

  /** On a duplicate-free sequence, `Count` is the number of distinct elements satisfying `P`. */
  lemma {:induction false} CountNoDupIsCard<T(!new)>(s: seq<T>, P: T -> bool)
    requires NoDup(s)
    ensures Count(s, P) == |ElemsWhere(s, P)|
  {
    if s != [] {
      var init := s[..|s| - 1];
      var last := s[|s| - 1];
      CountNoDupIsCard(init, P);
      assert last !in init;
      var before := ElemsWhere(init, P);
      var all := ElemsWhere(s, P);
      assert forall x :: x in s <==> x in init || x == last;
      if P(last) {
        assert all == before + {last};
      } else {
        assert all == before;
      }
    }
  }

  /** A sequence without duplicates is the enumeration of its set. */
  lemma {:induction false} NoDupCard<T(!new)>(s: seq<T>)
    requires NoDup(s)
    ensures |set x | x in s| == |s|
  {
    if s != [] {
      var init := s[..|s| - 1];
      NoDupCard(init);
      var last := s[|s| - 1];
      assert last !in init;
      assert (set x | x in s) == (set x | x in init) + {last};
    }
  }

  /**
   * `distinct` on [x, y], then [x, y, z], then [y, z]: each value once,
   * where it first appears.
   */
  lemma DistinctOverlapping<T(!new)>(x: T, y: T, z: T)
    requires x != y && y != z && x != z
    ensures Distinct([x, y] + ([x, y, z] + [y, z])) == [x, y, z]
  {
    DistinctAfterPair(x, y, [x, y, z] + [y, z]);
    UnvisitedOverlapping(x, y, z);
    DistinctTwice(z);
    AppendOne(x, y, z);
  }

  lemma DistinctAfterPair<T(!new)>(x: T, y: T, rest: seq<T>)
    requires x != y
    ensures Distinct([x, y] + rest) == [x, y] + Distinct(Unvisited(rest, [x, y]))
  {
    DistinctAppend([x, y], rest);
    DistinctOfNoDup([x, y]);
  }

  lemma DistinctTwice<T(!new)>(z: T)
    ensures Distinct([z, z]) == [z]
  {
    DistinctSnoc([z], z);
    DistinctOfNoDup([z]);
    assert [z, z] == [z] + [z];
  }

  lemma AppendOne<T>(x: T, y: T, z: T)
    ensures [x, y] + [z] == [x, y, z]
  {
  }

  /** Of [x, y, z] and then [y, z], only z is off [x, y], twice. */
  lemma UnvisitedOverlapping<T(!new)>(x: T, y: T, z: T)
    requires x != y && y != z && x != z
    ensures Unvisited([x, y, z] + [y, z], [x, y]) == [z, z]
  {
    FilterAppend([x, y, z], [y, z], NotIn([x, y]));
    UnvisitedThree(x, y, z);
    UnvisitedPair(x, y, z);
    assert [z] + [z] == [z, z];
  }

  lemma UnvisitedThree<T(!new)>(x: T, y: T, z: T)
    requires x != y && y != z && x != z
    ensures Unvisited([x, y, z], [x, y]) == [z]
  {
    var first := [x, y];
    AppendOne(x, y, z);
    FilterAppend([x, y], [z], NotIn(first));
    UnvisitedOwn(x, y);
    UnvisitedOne(z, first);
  }

  /** Nothing of [x, y] is off [x, y]. */
  lemma UnvisitedOwn<T(!new)>(x: T, y: T)
    ensures Unvisited([x, y], [x, y]) == []
  {
    var first := [x, y];
    assert first == [x] + [y];
    FilterAppend([x], [y], NotIn(first));
    UnvisitedOne(x, first);
    UnvisitedOne(y, first);
  }

  /** Of [y, z], only z is off [x, y]. */
  lemma UnvisitedPair<T(!new)>(x: T, y: T, z: T)
    requires y != z && x != z
    ensures Unvisited([y, z], [x, y]) == [z]
  {
    var first := [x, y];
    assert [y, z] == [y] + [z];
    FilterAppend([y], [z], NotIn(first));
    UnvisitedOne(y, first);
    UnvisitedOne(z, first);
  }

  /** `flatMap` over three elements. */
  lemma FlatMapThree<T(!new), U(!new)>(x: T, y: T, z: T, f: T -> seq<U>)
    ensures FlatMap([x, y, z], f) == f(x) + (f(y) + f(z))
  {
    assert [z][1..] == [];
    assert FlatMap([z], f) == f(z) + [] == f(z);
    assert [y, z][1..] == [z];
    assert FlatMap([y, z], f) == f(y) + f(z);
    assert [x, y, z][1..] == [y, z];
  }

  /** Two lists of three, one after the other. */
  lemma AppendThree<T>(x: T, y: T, z: T, u: T, v: T, w: T)
    ensures [x, y, z] + [u, v, w] == [x, y, z, u, v, w]
  {
  }

  /** Three pairwise different values have no duplicate. */
  lemma NoDupThree<T(!new)>(x: T, y: T, z: T)
    requires x != y && y != z && x != z
    ensures NoDup([x, y, z])
  {
  }

  /** Removing the elements kept by `Distinct` from a duplicate-free prefix leaves it alone. */
  lemma {:induction false} DistinctOfNoDup<T(!new)>(s: seq<T>)
    requires NoDup(s)
    ensures Distinct(s) == s
  {
    if s != [] {
      DistinctOfNoDup(s[..|s| - 1]);
    }
  }

  /**
   * `distinct` on a concatenation: the distinct elements of the first part,
   * then those of the second part that the first does not hold.
   */
  lemma {:induction false} DistinctAppend<T(!new)>(a: seq<T>, b: seq<T>)
    ensures Distinct(a + b) == Distinct(a) + Distinct(Unvisited(b, a))
  {
    if b == [] {
      assert a + b == a;
    } else {
      var b', x := b[..|b| - 1], b[|b| - 1];
      assert b == b' + [x];
      assert a + b == (a + b') + [x];
      DistinctAppend(a, b');
      DistinctSnoc(a + b', x);
      FilterAppend(b', [x], NotIn(a));
      var u := Unvisited(b', a);
      if x !in a {
        assert Unvisited(b, a) == u + [x];
        DistinctSnoc(u, x);
        AppendAssoc(Distinct(a), Distinct(u), [x]);
      } else {
        assert Unvisited(b, a) == u;
      }
    }
  }

  /** `distinct` after one more element: it is kept when it is new. */
  lemma DistinctSnoc<T(!new)>(s: seq<T>, x: T)
    ensures Distinct(s + [x]) == if x in s then Distinct(s) else Distinct(s) + [x]
  {
    var sx := s + [x];
    assert sx[..|sx| - 1] == s && sx[|sx| - 1] == x;
  }

  lemma AppendAssoc<T>(a: seq<T>, b: seq<T>, c: seq<T>)
    ensures (a + b) + c == a + (b + c)
  {
  }

  /** `distinct` keeps a duplicate-free prefix in place. */
  lemma {:induction false} DistinctKeepsPrefix<T(!new)>(a: seq<T>, b: seq<T>)
    requires NoDup(a)
    ensures |Distinct(a + b)| >= |a|
    ensures Distinct(a + b)[..|a|] == a
  {
    if b == [] {
      assert a + b == a;
      DistinctOfNoDup(a);
    } else {
      var b' := b[..|b| - 1];
      DistinctKeepsPrefix(a, b');
      assert (a + b)[..|a + b| - 1] == a + b';
    }
  }

  /** The indices whose element satisfies `P`. */
  function IndicesOf<T>(s: seq<T>, P: T -> bool): (r: set<int>)
    ensures forall i :: i in r <==> 0 <= i < |s| && P(s[i])
  {
    set i | 0 <= i < |s| && P(s[i])
  }

  /** `Count` is the number of indices whose element satisfies `P`. */
  lemma {:induction false} CountIsCard<T>(s: seq<T>, P: T -> bool)
    ensures Count(s, P) == |IndicesOf(s, P)|
  {
    if s != [] {
      var init := s[..|s| - 1];
      CountIsCard(init, P);
      var before := IndicesOf(init, P);
      var all := IndicesOf(s, P);
      assert forall i :: 0 <= i < |init| ==> init[i] == s[i];
      assert forall i :: i in all <==> i in before || (i == |s| - 1 && P(s[|s| - 1]));
      if P(s[|s| - 1]) {
        assert all == before + {|s| - 1};
      } else {
        assert all == before;
      }
    }
  }

  /** The cells (k, c) of row k of a grid, where row k is `s`, that satisfy `P`. */
  function RowPositions<T>(s: seq<T>, k: int, P: T -> bool): (r: set<(int, int)>)
    ensures forall p :: p in r <==> p.0 == k && 0 <= p.1 < |s| && P(s[p.1])
  {
    set c | 0 <= c < |s| && P(s[c]) :: (k, c)
  }

  /** `Count` on row `k` of a grid is the number of cells `(k, c)` of that row satisfying `P`. */
  lemma {:induction false} CountIsRowCard<T>(s: seq<T>, k: int, P: T -> bool)
    ensures Count(s, P) == |RowPositions(s, k, P)|
  {
    if s != [] {
      var init := s[..|s| - 1];
      CountIsRowCard(init, k, P);
      var before := RowPositions(init, k, P);
      var all := RowPositions(s, k, P);
      assert forall i :: 0 <= i < |init| ==> init[i] == s[i];
      assert forall p :: p in all <==> p in before || (p == (k, |s| - 1) && P(s[|s| - 1]));
      if P(s[|s| - 1]) {
        assert all == before + {(k, |s| - 1)};
      } else {
        assert all == before;
      }
    }
  }

  /** A subset as large as its superset is the superset. */
  lemma SubsetOfSameCard<T>(A: set<T>, B: set<T>)
    requires A <= B && |A| == |B|
    ensures A == B
  {
    assert B == A + (B - A);
    assert |B - A| == 0;
  }
}
