// Reachability through cells that satisfy a predicate, stepping between
// neighbours. This is the meaning of the flood fill of both board engines:
// `ok` picks the empty squares with no neighbouring mine, `nbr` is adjacency.
module Graph {
  import opened Seqs

  /** A non-empty walk whose every cell is `ok` and whose consecutive cells are neighbours. */
  ghost predicate IsWalk<P>(nbr: (P, P) -> bool, ok: P -> bool, w: seq<P>) {
    && |w| > 0
    && (forall i :: 0 <= i < |w| ==> ok(w[i]))
    && (forall i :: 0 < i < |w| ==> nbr(w[i - 1], w[i]))
  }

  /** `t` can be reached from `s` by a walk through `ok` cells. */
  ghost predicate Reaches<P(!new)>(nbr: (P, P) -> bool, ok: P -> bool, s: P, t: P) {
    exists w :: IsWalk(nbr, ok, w) && w[0] == s && w[|w| - 1] == t
  }

  /** Every `ok` neighbour of a member of `S` is in `S`. */
  ghost predicate Closed<P(!new)>(nbr: (P, P) -> bool, ok: P -> bool, S: set<P>) {
    forall u, v :: u in S && nbr(u, v) && ok(v) ==> v in S
  }

  lemma ReachesSelf<P(!new)>(nbr: (P, P) -> bool, ok: P -> bool, s: P)
    requires ok(s)
    ensures Reaches(nbr, ok, s, s)
  {
    assert IsWalk(nbr, ok, [s]);
  }

  lemma ReachesOk<P(!new)>(nbr: (P, P) -> bool, ok: P -> bool, s: P, t: P)
    requires Reaches(nbr, ok, s, t)
    ensures ok(s) && ok(t)
  {
    var w :| IsWalk(nbr, ok, w) && w[0] == s && w[|w| - 1] == t;
    assert ok(w[0]) && ok(w[|w| - 1]);
  }

  /** A reachable cell's `ok` neighbour is reachable. */
  lemma ReachesStep<P(!new)>(nbr: (P, P) -> bool, ok: P -> bool, s: P, u: P, v: P)
    requires Reaches(nbr, ok, s, u) && nbr(u, v) && ok(v)
    ensures Reaches(nbr, ok, s, v)
  {
    var w :| IsWalk(nbr, ok, w) && w[0] == s && w[|w| - 1] == u;
    var w' := w + [v];
    assert IsWalk(nbr, ok, w');
  }

  /** A walk that starts in a closed set never leaves it. */
  lemma {:induction false} WalkStaysIn<P(!new)>(nbr: (P, P) -> bool, ok: P -> bool, S: set<P>, w: seq<P>)
    requires IsWalk(nbr, ok, w) && w[0] in S && Closed(nbr, ok, S)
    ensures forall i :: 0 <= i < |w| ==> w[i] in S
  {
    if |w| > 1 {
      var init := w[..|w| - 1];
      assert IsWalk(nbr, ok, init);
      WalkStaysIn(nbr, ok, S, init);
      assert w[|w| - 2] == init[|init| - 1];
      assert nbr(w[|w| - 2], w[|w| - 1]) && ok(w[|w| - 1]);
    }
  }

  /** A closed set containing `s` holds every cell reachable from `s`. */
  lemma ClosedHoldsReachable<P(!new)>(nbr: (P, P) -> bool, ok: P -> bool, S: set<P>, s: P, t: P)
    requires s in S && Closed(nbr, ok, S) && Reaches(nbr, ok, s, t)
    ensures t in S
  {
    var w :| IsWalk(nbr, ok, w) && w[0] == s && w[|w| - 1] == t;
    WalkStaysIn(nbr, ok, S, w);
  }

  /** Reachability depends only on which cells are `ok`. */
  lemma ReachesSameOk<P(!new)>(nbr: (P, P) -> bool, ok1: P -> bool, ok2: P -> bool, s: P, t: P)
    requires forall p :: ok1(p) == ok2(p)
    requires Reaches(nbr, ok1, s, t)
    ensures Reaches(nbr, ok2, s, t)
  {
    var w :| IsWalk(nbr, ok1, w) && w[0] == s && w[|w| - 1] == t;
    assert IsWalk(nbr, ok2, w);
  }

  /** A reachable cell other than the start is entered from a reachable neighbour. */
  lemma ReachesFromNeighbour<P(!new)>(nbr: (P, P) -> bool, ok: P -> bool, s: P, t: P)
    requires Reaches(nbr, ok, s, t) && t != s
    ensures exists u :: Reaches(nbr, ok, s, u) && nbr(u, t)
  {
    var w :| IsWalk(nbr, ok, w) && w[0] == s && w[|w| - 1] == t;
    var init := w[..|w| - 1];
    assert IsWalk(nbr, ok, init) && init[0] == s;
    assert Reaches(nbr, ok, s, init[|init| - 1]);
  }

  // ---------------------------------------------------------------------------
  // The breadth-first loop both engines run
  // ---------------------------------------------------------------------------

  /**
   * What holds between two turns of the breadth-first loop from s: `visited`
   * starts at s, both lists are duplicate-free cells reachable from s, and
   * every `ok` neighbour of a visited cell that has left the queue is
   * visited or still queued.
   */
  ghost predicate BfsInv<P(!new)>(nbr: (P, P) -> bool, ok: P -> bool, s: P, visited: seq<P>, adjacents: seq<P>) {
    && |visited| >= 1 && visited[0] == s
    && NoDup(visited) && NoDup(adjacents)
    && (forall p :: p in visited ==> Reaches(nbr, ok, s, p))
    && (forall p :: p in adjacents ==> Reaches(nbr, ok, s, p))
    && (forall v, u :: v in visited && v !in adjacents && nbr(v, u) && ok(u) ==> u in visited || u in adjacents)
  }

  /** The first turn: s is visited and its `ok` neighbours are queued. */
  lemma BfsStart<P(!new)>(nbr: (P, P) -> bool, ok: P -> bool, s: P, adjacents: seq<P>)
    requires ok(s)
    requires NoDup(adjacents) && forall q :: q in adjacents <==> nbr(s, q) && ok(q)
    ensures BfsInv(nbr, ok, s, [s], adjacents)
  {
    ReachesSelf(nbr, ok, s);
    forall p | p in adjacents ensures Reaches(nbr, ok, s, p) {
      ReachesStep(nbr, ok, s, s, p);
    }
  }

  /**
   * One turn keeps `BfsInv`: the queue joins `visited`, its head leaves the
   * queue, and the head's unvisited `ok` neighbours are queued.
   */
  lemma BfsStep<P(!new)>(nbr: (P, P) -> bool, ok: P -> bool, s: P, visited: seq<P>, adjacents: seq<P>, next: seq<P>)
    requires BfsInv(nbr, ok, s, visited, adjacents) && adjacents != []
    requires NoDup(next) && forall q :: q in next <==> nbr(adjacents[0], q) && ok(q)
    ensures var visited' := visited + Unvisited(adjacents, visited);
      BfsInv(nbr, ok, s, visited', adjacents[1..] + Unvisited(next, visited'))
  {
    var newlyVisited := Unvisited(adjacents, visited);
    var visited' := visited + newlyVisited;
    NoDupConcat(visited, newlyVisited);
    var first := adjacents[0];
    assert adjacents == [first] + adjacents[1..];
    forall p | p in next ensures Reaches(nbr, ok, s, p) {
      ReachesStep(nbr, ok, s, first, p);
    }
    var added := Unvisited(next, visited');
    var adjacents' := adjacents[1..] + added;
    NoDupConcat(adjacents[1..], added);
    forall v, u | v in visited' && v !in adjacents' && nbr(v, u) && ok(u)
      ensures u in visited' || u in adjacents'
    {
      if v == first {
        assert u in next;
      } else {
        assert v !in adjacents;
      }
    }
  }

  /**
   * One turn either sees a new cell of `all` or, seeing none, shortens the
   * queue: the loop ends.
   */
  lemma BfsShrinks<P(!new)>(all: set<P>, visited: seq<P>, adjacents: seq<P>, next: seq<P>)
    requires adjacents != [] && forall q :: q in next ==> q in all
    ensures var visited' := visited + Unvisited(adjacents, visited);
      var adjacents' := adjacents[1..] + Unvisited(next, visited');
      var unseen := all - (Elems(visited) + Elems(adjacents));
      var unseen' := all - (Elems(visited') + Elems(adjacents'));
      unseen' < unseen || (unseen' == unseen && |adjacents'| < |adjacents|)
  {
    var visited' := visited + Unvisited(adjacents, visited);
    var added := Unvisited(next, visited');
    var adjacents' := adjacents[1..] + added;
    var before := Elems(visited) + Elems(adjacents);
    assert adjacents == [adjacents[0]] + adjacents[1..];
    assert Elems(visited') + Elems(adjacents') == before + Elems(added);
    if added != [] {
      var x := added[0];
      assert x in all - before;
    } else {
      assert Elems(added) == {};
    }
  }

  /** When the queue is empty, `visited` holds exactly the cells reachable from s. */
  lemma BfsDone<P(!new)>(nbr: (P, P) -> bool, ok: P -> bool, s: P, visited: seq<P>)
    requires BfsInv(nbr, ok, s, visited, [])
    ensures forall p :: p in visited <==> Reaches(nbr, ok, s, p)
  {
    var region := Elems(visited);
    assert Closed(nbr, ok, region);
    forall p | Reaches(nbr, ok, s, p) ensures p in visited {
      ClosedHoldsReachable(nbr, ok, region, s, p);
    }
  }
}
