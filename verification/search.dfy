/**
 * The single-target A* search of `NavMesh::a_star` (`src/pathfinding.rs`).
 *
 * The open set is a binary max-heap of `Reverse((f, cell))`, so each pop
 * yields the least `(f, x, y)` tuple. There is no closed set: a stale entry
 * is popped and expanded again. A cell is pushed only when its `g` score
 * strictly drops, which is what makes the search terminate on finite bounds.
 */
module Search {
  import opened Wrappers
  import opened Position
  import opened Navigation

  /** Cost of an orthogonal step, in tenths. */
  const StraightCost := 10
  /** Cost of a diagonal step, in tenths (about ten times the square root of two). */
  const DiagonalCost := 14
  /** `i64::MAX`, the score of a cell that has none yet. */
  const I64Max := 0x7fff_ffff_ffff_ffff

  /** The cost charged for a move: 14 when both coordinates change, 10 otherwise. */
  function MovementCost(from: Pos2, to: Pos2): (c: int)
    ensures c == StraightCost || c == DiagonalCost
    ensures from.x == to.x || from.y == to.y ==> c == StraightCost
  {
    if IsDiagonal(from, to) then DiagonalCost else StraightCost
  }

  /** Neighbours are never diagonal, so the diagonal cost is never charged. */
  lemma NeighborMovementCost(p: Pos2, q: Pos2)
    requires q in Neighbors(p)
    ensures MovementCost(p, q) == StraightCost
  {
  }

  /** One heap entry: the `f` score it was pushed with, and the cell. */
  datatype Entry = Entry(f: int, pos: Pos2)

  /** The tuple order on `(f, cell)`; the heap pops the least entry under it. */
  predicate EntryLe(a: Entry, b: Entry) {
    a.f < b.f || (a.f == b.f && Le(a.pos, b.pos))
  }

  /** The position of the entry the heap pops: a least one under `EntryLe`. */
  function MinIndex(open: seq<Entry>): (i: nat)
    requires |open| > 0
    ensures i < |open|
    ensures forall j :: 0 <= j < |open| ==> EntryLe(open[i], open[j])
  {
    if |open| == 1 then 0
    else
      var k := MinIndex(open[1..]) + 1;
      if EntryLe(open[0], open[k]) then 0 else k
  }

  /** Entries equal under the order are the same entry, so the pop is deterministic. */
  lemma EntryLeAntisymmetric(a: Entry, b: Entry)
    requires EntryLe(a, b) && EntryLe(b, a)
    ensures a == b
  {
  }

  function RemoveAt(s: seq<Entry>, i: nat): (r: seq<Entry>)
    requires i < |s|
    ensures |r| == |s| - 1
    ensures multiset(r) + multiset{s[i]} == multiset(s)
  {
    assert s == s[..i] + [s[i]] + s[i + 1..];
    s[..i] + s[i + 1..]
  }

  /** The search's working state: the heap, the back-pointers and the `g` scores. */
  datatype SearchState = SearchState(open: seq<Entry>, cameFrom: map<Pos2, Pos2>, g: map<Pos2, int>)

  /** The state before the first pop: only `start`, with score 0 and `f` 0. */
  function Initial(start: Pos2): (r: SearchState)
    ensures forall nav :: Inv(nav, start, r)
    ensures r.g.Keys == {start} && r.open == [Entry(0, start)]
  {
    SearchState([Entry(0, start)], map[], map[start := 0])
  }

  /** Scores are non-negative and every back-pointer leads to a strictly smaller score. */
  ghost predicate Descending(cameFrom: map<Pos2, Pos2>, g: map<Pos2, int>) {
    && (forall n :: n in g ==> g[n] >= 0)
    && (forall n :: n in cameFrom ==> n in g && cameFrom[n] in g && g[cameFrom[n]] < g[n])
  }

  /**
   * What the search keeps true: `start` is the only scored cell without a
   * back-pointer; every back-pointer joins two adjacent cells, its child is
   * in bounds and unblocked and has a larger score; every queued cell is scored.
   */
  ghost predicate Inv(nav: NavMesh, start: Pos2, st: SearchState) {
    && start in st.g && st.g[start] == 0
    && start !in st.cameFrom
    && Descending(st.cameFrom, st.g)
    && (forall n :: n in st.g && n != start ==> n in st.cameFrom)
    && (forall n :: n in st.cameFrom ==>
          Adjacent(st.cameFrom[n], n) && IsInBounds(nav, n) && !IsBlocked(nav, n))
    && (forall e :: e in st.open ==> e.pos in st.g)
  }

  /** No score got worse and no scored cell was forgotten. */
  ghost predicate NoWorse(g: map<Pos2, int>, g': map<Pos2, int>) {
    forall n :: n in g ==> n in g' && g'[n] <= g[n]
  }

  /** One pass of the neighbour loop body for `nb`, the neighbour of `current`. */
  function Relax(nav: NavMesh, end: Pos2, current: Pos2, nb: Pos2, st: SearchState): (r: SearchState)
    requires current in st.g
    ensures NoWorse(st.g, r.g)
    ensures r.g == st.g ==> r == st
  {
    if !IsInBounds(nav, nb) || IsBlocked(nav, nb) then st
    else
      var tentative := st.g[current] + MovementCost(current, nb);
      if tentative < (if nb in st.g then st.g[nb] else I64Max) then
        SearchState(st.open + [Entry(tentative + Heuristic(nb, end), nb)],
                    st.cameFrom[nb := current], st.g[nb := tentative])
      else st
  }

  lemma RelaxPreservesInv(nav: NavMesh, start: Pos2, end: Pos2, current: Pos2, nb: Pos2, st: SearchState)
    requires Inv(nav, start, st) && current in st.g && Adjacent(current, nb)
    ensures Inv(nav, start, Relax(nav, end, current, nb, st))
  {
  }

  /** The neighbour loop: relax each cell of `ns` in turn. */
  function ExpandFrom(nav: NavMesh, end: Pos2, current: Pos2, ns: seq<Pos2>, st: SearchState): (r: SearchState)
    requires current in st.g
    ensures NoWorse(st.g, r.g)
    ensures r.g == st.g ==> r == st
    decreases |ns|
  {
    if |ns| == 0 then st
    else
      var st' := Relax(nav, end, current, ns[0], st);
      var r := ExpandFrom(nav, end, current, ns[1..], st');
      assert r.g == st.g ==> st'.g == st.g by {
        if r.g == st.g {
          assert forall n :: n in st'.g <==> n in st.g;
        }
      }
      r
  }

  lemma {:induction false} ExpandPreservesInv(nav: NavMesh, start: Pos2, end: Pos2, current: Pos2,
                                              ns: seq<Pos2>, st: SearchState)
    requires Inv(nav, start, st) && current in st.g
    requires forall n :: n in ns ==> Adjacent(current, n)
    ensures Inv(nav, start, ExpandFrom(nav, end, current, ns, st))
    decreases |ns|
  {
    if |ns| > 0 {
      RelaxPreservesInv(nav, start, end, current, ns[0], st);
      var st' := Relax(nav, end, current, ns[0], st);
      assert forall n :: n in ns[1..] ==> n in ns;
      ExpandPreservesInv(nav, start, end, current, ns[1..], st');
    }
  }

  /** Every cell a search can ever score: the bounded box and `start`. */
  ghost function Universe(nav: NavMesh, start: Pos2): set<Pos2> {
    Box(nav) + {start}
  }

  /** All `(cell, v)` with `0 <= v <= g[cell]`; it shrinks whenever a score drops. */
  ghost function Below(g: map<Pos2, int>): set<(Pos2, int)> {
    set n, v | n in g && 0 <= v <= g[n] :: (n, v)
  }

  /** A neighbour loop that changed the scores made progress in the termination measure. */
  lemma SearchProgress(nav: NavMesh, start: Pos2, g: map<Pos2, int>, g': map<Pos2, int>)
    requires forall n :: n in g ==> g[n] >= 0
    requires forall n :: n in g' ==> n == start || IsInBounds(nav, n)
    requires NoWorse(g, g')
    ensures || g' == g
            || Universe(nav, start) - g'.Keys < Universe(nav, start) - g.Keys
            || (Universe(nav, start) - g'.Keys == Universe(nav, start) - g.Keys && Below(g') < Below(g))
  {
    var u := Universe(nav, start);
    if g'.Keys != g.Keys {
      var n :| n in g' && n !in g;
      assert n in u - g.Keys && n !in u - g'.Keys;
    } else if g' != g {
      var n :| n in g && g'[n] != g[n];
      assert (n, g[n]) in Below(g) && (n, g[n]) !in Below(g');
      forall q | q in Below(g') ensures q in Below(g) {
        var m, v :| m in g' && 0 <= v <= g'[m] && q == (m, v);
      }
    }
  }

  /**
   * The main loop: pop the least entry; stop with the current state when it
   * is `end`, stop with nothing when the heap is empty, otherwise relax its
   * four neighbours and continue.
   */
  function Run(nav: NavMesh, start: Pos2, end: Pos2, st: SearchState): (r: Option<SearchState>)
    requires Inv(nav, start, st)
    ensures r.Some? ==> Inv(nav, start, r.value) && end in r.value.g
    decreases Universe(nav, start) - st.g.Keys, Below(st.g), |st.open|
  {
    if |st.open| == 0 then None
    else
      var i := MinIndex(st.open);
      var current := st.open[i].pos;
      var rest := RemoveAt(st.open, i);
      assert forall e :: e in rest ==> e in multiset(st.open);
      var popped := st.(open := rest);
      if current == end then Some(popped)
      else
        ExpandPreservesInv(nav, start, end, current, Neighbors(current), popped);
        var next := ExpandFrom(nav, end, current, Neighbors(current), popped);
        SearchProgress(nav, start, st.g, next.g);
        Run(nav, start, end, next)
  }

  /** The back-pointer walk from `p`, in the order it is pushed: `p` first. */
  function WalkBack(cameFrom: map<Pos2, Pos2>, g: map<Pos2, int>, p: Pos2): (w: seq<Pos2>)
    requires Descending(cameFrom, g) && p in g
    ensures |w| >= 1 && w[0] == p
    decreases g[p]
  {
    if p in cameFrom then [p] + WalkBack(cameFrom, g, cameFrom[p]) else [p]
  }

  /** Scores strictly fall along the back-pointer walk, so it never revisits a cell. */
  lemma {:induction false} WalkBackDistinct(cameFrom: map<Pos2, Pos2>, g: map<Pos2, int>, p: Pos2)
    requires Descending(cameFrom, g) && p in g
    ensures forall k :: 0 <= k < |WalkBack(cameFrom, g, p)| ==> WalkBack(cameFrom, g, p)[k] in g
    ensures forall i, j :: 0 <= i < j < |WalkBack(cameFrom, g, p)| ==>
              g[WalkBack(cameFrom, g, p)[j]] < g[WalkBack(cameFrom, g, p)[i]]
    decreases g[p]
  {
    if p in cameFrom {
      var w := WalkBack(cameFrom, g, p);
      var rest := WalkBack(cameFrom, g, cameFrom[p]);
      WalkBackDistinct(cameFrom, g, cameFrom[p]);
      assert w == [p] + rest;
      forall i, j | 0 <= i < j < |w| ensures g[w[j]] < g[w[i]] {
        assert w[j] == rest[j - 1];
        if i > 0 {
          assert w[i] == rest[i - 1];
        } else if j > 1 {
          assert g[rest[j - 1]] < g[rest[0]];
        }
      }
    }
  }

  function Reverse(s: seq<Pos2>): (r: seq<Pos2>)
    ensures |r| == |s|
    ensures forall i :: 0 <= i < |s| ==> r[i] == s[|s| - 1 - i]
  {
    if |s| == 0 then [] else Reverse(s[1..]) + [s[0]]
  }

  /** A route as the search promises it. */
  ghost predicate SoundPath(nav: NavMesh, start: Pos2, end: Pos2, path: seq<Pos2>) {
    && |path| >= 1 && path[0] == start && path[|path| - 1] == end
    && IsWalk(path)
    && (forall i :: 1 <= i < |path| ==> IsInBounds(nav, path[i]) && !IsBlocked(nav, path[i]))
  }

  /** Following back-pointers from any scored cell ends at `start` along a sound route. */
  lemma {:induction false} WalkBackSound(nav: NavMesh, start: Pos2, st: SearchState, p: Pos2)
    requires Inv(nav, start, st) && p in st.g
    ensures SoundPath(nav, start, p, Reverse(WalkBack(st.cameFrom, st.g, p)))
    decreases st.g[p]
  {
    var w := WalkBack(st.cameFrom, st.g, p);
    if p in st.cameFrom {
      var q := st.cameFrom[p];
      WalkBackSound(nav, start, st, q);
      var wq := WalkBack(st.cameFrom, st.g, q);
      assert w == [p] + wq;
      assert w[1..] == wq;
      var rq := Reverse(wq);
      assert Reverse(w) == rq + [p];
      assert rq[|rq| - 1] == q;
    } else {
      assert p == start;
    }
  }

  /**
   * `a_star`: no search at all when an endpoint is blocked; otherwise the
   * route the back-pointers give when `end` is popped, or nothing when the
   * heap runs dry.
   */
  function AStar(nav: NavMesh, start: Pos2, end: Pos2): (r: Option<seq<Pos2>>)
    ensures IsBlocked(nav, start) || IsBlocked(nav, end) ==> r == None
    ensures r.Some? ==> SoundPath(nav, start, end, r.value)
  {
    if !IsBlocked(nav, start) && !IsBlocked(nav, end) then
      match Run(nav, start, end, Initial(start))
      case None => None
      case Some(st) =>
        WalkBackSound(nav, start, st, end);
        Some(Reverse(WalkBack(st.cameFrom, st.g, end)))
    else None
  }

  /** A route `a_star` returns never visits a cell twice: scores strictly fall along its back-pointer walk. */
  lemma AStarDistinct(nav: NavMesh, start: Pos2, end: Pos2)
    requires AStar(nav, start, end).Some?
    ensures forall i, j :: 0 <= i < j < |AStar(nav, start, end).value| ==>
              AStar(nav, start, end).value[i] != AStar(nav, start, end).value[j]
  {
    var st := Run(nav, start, end, Initial(start)).value;
    WalkBackDistinct(st.cameFrom, st.g, end);
  }

  /** Searching from an unblocked cell to itself pops the goal first: the route is that cell alone. */
  lemma AStarToSelf(nav: NavMesh, p: Pos2)
    requires !IsBlocked(nav, p)
    ensures AStar(nav, p, p) == Some([p])
  {
    var st := Initial(p);
    assert MinIndex(st.open) == 0;
    assert RemoveAt(st.open, 0) == [];
    assert Run(nav, p, p, st) == Some(st.(open := []));
    assert WalkBack(map[], map[p := 0], p) == [p];
    assert Reverse([p]) == [p];
  }

  /**
   * A goal other than the start, not next to the start, whose every
   * neighbour is blocked or out of bounds cannot be reached.
   */
  lemma EnclosedGoalUnreachable(nav: NavMesh, start: Pos2, end: Pos2)
    requires end != start && !Adjacent(start, end)
    requires forall q :: q in Neighbors(end) ==> !IsInBounds(nav, q) || IsBlocked(nav, q)
    ensures AStar(nav, start, end) == None
  {
  }

  /** A goal outside the bounds is never scored, so it is unreachable from any other cell. */
  lemma OutOfBoundsGoalUnreachable(nav: NavMesh, start: Pos2, end: Pos2)
    requires end != start && !IsInBounds(nav, end)
    ensures AStar(nav, start, end) == None
  {
  }

  /** Neighbours that are out of bounds or blocked are skipped: the loop changes nothing. */
  lemma {:induction false} ExpandSkips(nav: NavMesh, end: Pos2, current: Pos2, ns: seq<Pos2>, st: SearchState)
    requires current in st.g
    requires forall n :: n in ns ==> !IsInBounds(nav, n) || IsBlocked(nav, n)
    ensures ExpandFrom(nav, end, current, ns, st) == st
    decreases |ns|
  {
    if |ns| > 0 {
      assert ns[0] in ns;
      assert forall n :: n in ns[1..] ==> n in ns;
      ExpandSkips(nav, end, current, ns[1..], st);
    }
  }

  /** When only `ns[k]` is open, the loop is that one relaxation. */
  lemma {:induction false} ExpandOnly(nav: NavMesh, end: Pos2, current: Pos2, ns: seq<Pos2>, k: nat, st: SearchState)
    requires current in st.g && k < |ns|
    requires forall i :: 0 <= i < |ns| && i != k ==> !IsInBounds(nav, ns[i]) || IsBlocked(nav, ns[i])
    ensures ExpandFrom(nav, end, current, ns, st) == Relax(nav, end, current, ns[k], st)
    decreases |ns|
  {
    if k == 0 {
      var st' := Relax(nav, end, current, ns[0], st);
      forall n | n in ns[1..] ensures !IsInBounds(nav, n) || IsBlocked(nav, n) {
        var i :| 0 <= i < |ns[1..]| && ns[1..][i] == n;
        assert ns[i + 1] == n;
      }
      ExpandSkips(nav, end, current, ns[1..], st');
    } else {
      assert Relax(nav, end, current, ns[0], st) == st;
      forall i | 0 <= i < |ns[1..]| && i != k - 1 ensures !IsInBounds(nav, ns[1..][i]) || IsBlocked(nav, ns[1..][i]) {
        assert ns[1..][i] == ns[i + 1];
      }
      ExpandOnly(nav, end, current, ns[1..], k - 1, st);
    }
  }

  /** The first expansion from `a` when only `b` is open: `b` scored 10 with back-pointer `a`. */
  lemma FirstExpansionOnly(nav: NavMesh, a: Pos2, b: Pos2)
    requires Adjacent(a, b) && IsInBounds(nav, b) && !IsBlocked(nav, b)
    requires forall q :: q in Neighbors(a) && q != b ==> !IsInBounds(nav, q) || IsBlocked(nav, q)
    ensures ExpandFrom(nav, b, a, Neighbors(a), Initial(a).(open := [])) ==
            SearchState([Entry(10, b)], map[b := a], map[a := 0, b := 10])
  {
    var popped := Initial(a).(open := []);
    var ns := Neighbors(a);
    assert b in ns;
    var k :| 0 <= k < |ns| && ns[k] == b;
    forall i | 0 <= i < |ns| && i != k ensures !IsInBounds(nav, ns[i]) || IsBlocked(nav, ns[i]) {
      assert ns[i] in ns && ns[i] != b;
    }
    ExpandOnly(nav, b, a, ns, k, popped);
  }

  /** The search from `a` when only `b` is open: two pops, the second one `b`. */
  lemma RunOnlyNeighbour(nav: NavMesh, a: Pos2, b: Pos2)
    requires !IsBlocked(nav, a) && Adjacent(a, b) && IsInBounds(nav, b) && !IsBlocked(nav, b)
    requires forall q :: q in Neighbors(a) && q != b ==> !IsInBounds(nav, q) || IsBlocked(nav, q)
    ensures Run(nav, a, b, Initial(a)) == Some(SearchState([], map[b := a], map[a := 0, b := 10]))
  {
    var st := Initial(a);
    assert MinIndex(st.open) == 0;
    assert RemoveAt(st.open, 0) == [];
    FirstExpansionOnly(nav, a, b);
    var s1 := SearchState([Entry(10, b)], map[b := a], map[a := 0, b := 10]);
    assert MinIndex(s1.open) == 0;
    assert RemoveAt(s1.open, 0) == [];
    assert Run(nav, a, b, s1) == Some(s1.(open := []));
  }

  /**
   * A start whose only open neighbour is the goal: one expansion scores the
   * goal, the next pop returns it, and the route is the single step.
   */
  lemma AStarOnlyNeighbour(nav: NavMesh, a: Pos2, b: Pos2)
    requires !IsBlocked(nav, a) && Adjacent(a, b) && IsInBounds(nav, b) && !IsBlocked(nav, b)
    requires forall q :: q in Neighbors(a) && q != b ==> !IsInBounds(nav, q) || IsBlocked(nav, q)
    ensures AStar(nav, a, b) == Some([a, b])
  {
    RunOnlyNeighbour(nav, a, b);
    var cameFrom, g := map[b := a], map[a := 0, b := 10];
    assert WalkBack(cameFrom, g, a) == [a];
    assert WalkBack(cameFrom, g, b) == [b, a];
    assert Reverse([b, a]) == [a, b];
  }
}
