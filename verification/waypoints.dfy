/**
 * `NavMesh::waypointed_a_star` (`src/pathfinding.rs`): one search per leg,
 * each leg starting where the previous one was meant to end, with the
 * duplicated junction cell dropped when the legs are joined.
 */
module Waypoints {
  import opened Wrappers
  import opened Position
  import opened Navigation
  import opened Search

  /** The leg's own back-pointer walk: cells from `p` back to, but excluding, the root. */
  function WalkToRoot(cameFrom: map<Pos2, Pos2>, g: map<Pos2, int>, p: Pos2): (w: seq<Pos2>)
    requires Descending(cameFrom, g) && p in g
    ensures |w| == 0 <==> p !in cameFrom
    ensures |w| > 0 ==> w[0] == p
    ensures forall k :: 0 <= k < |w| ==> w[k] in cameFrom
    decreases g[p]
  {
    if p in cameFrom then [p] + WalkToRoot(cameFrom, g, cameFrom[p]) else []
  }

  /** The root the walk stops at is the leg's start, so appending it gives `a_star`'s walk. */
  lemma {:induction false} WalkToRootThenStart(nav: NavMesh, start: Pos2, st: SearchState, p: Pos2)
    requires Inv(nav, start, st) && p in st.g
    ensures WalkToRoot(st.cameFrom, st.g, p) + [start] == WalkBack(st.cameFrom, st.g, p)
    decreases st.g[p]
  {
    if p in st.cameFrom {
      WalkToRootThenStart(nav, start, st, st.cameFrom[p]);
    }
  }

  /**
   * One leg as the waypointed search computes it: the same search loop, with
   * the route rebuilt by walking back to the root and pushing the leg's start.
   * The blocked-endpoint check belongs to the caller.
   */
  function LegPath(nav: NavMesh, from: Pos2, to: Pos2): (r: Option<seq<Pos2>>)
    ensures !IsBlocked(nav, from) && !IsBlocked(nav, to) ==> r == AStar(nav, from, to)
    ensures r.Some? ==> SoundPath(nav, from, to, r.value)
  {
    match Run(nav, from, to, Initial(from))
    case None => None
    case Some(st) =>
      WalkToRootThenStart(nav, from, st, to);
      WalkBackSound(nav, from, st, to);
      Some(Reverse(WalkToRoot(st.cameFrom, st.g, to) + [from]))
  }

  /** Appending a leg: the whole leg when nothing was collected yet, otherwise all but its first cell. */
  function Join(total: seq<Pos2>, leg: seq<Pos2>): (r: seq<Pos2>)
    requires |leg| >= 1
    ensures |r| == |total| + |leg| - (if |total| == 0 then 0 else 1)
    ensures r[..|total|] == total
    ensures r[|total|..] == leg[(if |total| == 0 then 0 else 1)..]
  {
    if |total| == 0 then leg else total + leg[1..]
  }

  /**
   * The loop over the remaining waypoints `ws`, from `current`, having
   * collected `total` so far. A blocked leg endpoint aborts with nothing; an
   * unreachable leg adds nothing and the next leg starts at the waypoint it
   * failed to reach; an empty collection at the end means nothing.
   */
  function Legs(nav: NavMesh, current: Pos2, ws: seq<Pos2>, total: seq<Pos2>): (r: Option<seq<Pos2>>)
    ensures r.Some? ==> |r.value| >= 1 && |r.value| >= |total| && r.value[..|total|] == total
    decreases |ws|
  {
    if |ws| == 0 then (if |total| == 0 then None else Some(total))
    else if IsBlocked(nav, current) || IsBlocked(nav, ws[0]) then None
    else
      var total' := match LegPath(nav, current, ws[0])
                    case None => total
                    case Some(leg) => Join(total, leg);
      Legs(nav, ws[0], ws[1..], total')
  }

  /**
   * The reference route through the waypoints after the first leg: every
   * further leg's `a_star` route without its first cell, or nothing if some
   * leg has no route.
   */
  function Chain(nav: NavMesh, current: Pos2, ws: seq<Pos2>): Option<seq<Pos2>>
    decreases |ws|
  {
    if |ws| == 0 then Some([])
    else
      match AStar(nav, current, ws[0])
      case None => None
      case Some(leg) =>
        match Chain(nav, ws[0], ws[1..])
        case None => None
        case Some(rest) => Some(leg[1..] + rest)
  }

  /** Some leg endpoint is blocked: `current` (when there is a leg) or a waypoint. */
  predicate AnyBlocked(nav: NavMesh, current: Pos2, ws: seq<Pos2>) {
    |ws| > 0 && (IsBlocked(nav, current) || exists k :: 0 <= k < |ws| && IsBlocked(nav, ws[k]))
  }

  /** No leg, started where the loop starts it, has an `a_star` route. */
  predicate NoLegFound(nav: NavMesh, current: Pos2, ws: seq<Pos2>)
    decreases |ws|
  {
    |ws| == 0 || (AStar(nav, current, ws[0]).None? && NoLegFound(nav, ws[0], ws[1..]))
  }

  lemma {:induction false} LegsNone(nav: NavMesh, current: Pos2, ws: seq<Pos2>, total: seq<Pos2>)
    ensures Legs(nav, current, ws, total).None? <==>
            AnyBlocked(nav, current, ws) || (|total| == 0 && NoLegFound(nav, current, ws))
    decreases |ws|
  {
    if |ws| > 0 && !IsBlocked(nav, current) && !IsBlocked(nav, ws[0]) {
      var total' := match LegPath(nav, current, ws[0])
                    case None => total
                    case Some(leg) => Join(total, leg);
      LegsNone(nav, ws[0], ws[1..], total');
      AnyBlockedStep(nav, current, ws);
    }
  }

  /** Past an unblocked first leg, some endpoint is blocked iff one of the later legs has one. */
  lemma AnyBlockedStep(nav: NavMesh, current: Pos2, ws: seq<Pos2>)
    requires |ws| > 0 && !IsBlocked(nav, current) && !IsBlocked(nav, ws[0])
    ensures AnyBlocked(nav, current, ws) <==> AnyBlocked(nav, ws[0], ws[1..])
  {
    if exists k :: 0 <= k < |ws| && IsBlocked(nav, ws[k]) {
      var k :| 0 <= k < |ws| && IsBlocked(nav, ws[k]);
      assert ws[1..][k - 1] == ws[k];
    }
    if AnyBlocked(nav, ws[0], ws[1..]) {
      var k :| 0 <= k < |ws[1..]| && IsBlocked(nav, ws[1..][k]);
      assert ws[k + 1] == ws[1..][k];
    }
  }

  /**
   * `waypointed_a_star`: it yields nothing exactly when there are no
   * waypoints, when a leg endpoint is blocked, or when no leg has a route.
   */
  function WaypointedAStar(nav: NavMesh, start: Pos2, ws: seq<Pos2>): (r: Option<seq<Pos2>>)
    ensures r.None? <==> |ws| == 0 || AnyBlocked(nav, start, ws) || NoLegFound(nav, start, ws)
  {
    LegsNone(nav, start, ws, []);
    Legs(nav, start, ws, [])
  }

  lemma Assoc(a: seq<Pos2>, b: seq<Pos2>, c: seq<Pos2>)
    ensures (a + b) + c == a + (b + c)
  {
  }

  lemma ConsTail(s: seq<Pos2>)
    requires |s| >= 1
    ensures [s[0]] + s[1..] == s
  {
  }

  /** A leg with a route is joined onto what was collected, and the loop moves on. */
  lemma LegsFound(nav: NavMesh, current: Pos2, ws: seq<Pos2>, total: seq<Pos2>)
    requires |ws| > 0 && AStar(nav, current, ws[0]).Some?
    ensures Legs(nav, current, ws, total) ==
            Legs(nav, ws[0], ws[1..], Join(total, AStar(nav, current, ws[0]).value))
  {
    assert !IsBlocked(nav, current) && !IsBlocked(nav, ws[0]);
    assert LegPath(nav, current, ws[0]) == AStar(nav, current, ws[0]);
  }

  /** The last waypoint past the first is the last waypoint. */
  lemma LastOfTail(ws: seq<Pos2>)
    requires |ws| > 1
    ensures ws[1..][|ws[1..]| - 1] == ws[|ws| - 1]
  {
  }

  /** Dropping the first two of three waypoints leaves the third. */
  lemma TailOfTail(ws: seq<Pos2>)
    requires |ws| == 3
    ensures ws[1..][1..] == [ws[2]]
  {
  }

  /** A reference chain over a non-empty list: the first leg's route minus its first cell, then the rest. */
  lemma ChainStep(nav: NavMesh, current: Pos2, ws: seq<Pos2>)
    requires |ws| > 0 && Chain(nav, current, ws).Some?
    ensures AStar(nav, current, ws[0]).Some? && Chain(nav, ws[0], ws[1..]).Some?
    ensures Chain(nav, current, ws).value ==
            AStar(nav, current, ws[0]).value[1..] + Chain(nav, ws[0], ws[1..]).value
  {
  }

  lemma {:induction false} LegsChain(nav: NavMesh, current: Pos2, ws: seq<Pos2>, total: seq<Pos2>)
    requires |total| > 0 && Chain(nav, current, ws).Some?
    ensures Legs(nav, current, ws, total) == Some(total + Chain(nav, current, ws).value)
    decreases |ws|
  {
    if |ws| == 0 {
      assert total + [] == total;
    } else {
      ChainStep(nav, current, ws);
      var leg := AStar(nav, current, ws[0]).value;
      var rest := Chain(nav, ws[0], ws[1..]).value;
      LegsFound(nav, current, ws, total);
      LegsChain(nav, ws[0], ws[1..], total + leg[1..]);
      Assoc(total, leg[1..], rest);
    }
  }

  /**
   * When every leg has a route, the result is the first leg's `a_star` route
   * followed by every later leg's route without its first cell, so each
   * junction waypoint appears once.
   */
  lemma WaypointedConcatenation(nav: NavMesh, start: Pos2, ws: seq<Pos2>)
    requires |ws| > 0
    requires AStar(nav, start, ws[0]).Some? && Chain(nav, ws[0], ws[1..]).Some?
    ensures WaypointedAStar(nav, start, ws) ==
            Some(AStar(nav, start, ws[0]).value + Chain(nav, ws[0], ws[1..]).value)
  {
    var leg := AStar(nav, start, ws[0]).value;
    LegsFound(nav, start, ws, []);
    LegsChain(nav, ws[0], ws[1..], leg);
  }

  /** Two sound routes meeting at a cell join into one sound route. */
  lemma JoinSound(nav: NavMesh, a: Pos2, b: Pos2, c: Pos2, p: seq<Pos2>, q: seq<Pos2>)
    requires SoundPath(nav, a, b, p) && SoundPath(nav, b, c, q)
    ensures SoundPath(nav, a, c, p + q[1..])
  {
    var r := p + q[1..];
    forall i | 0 <= i < |r| - 1 ensures Adjacent(r[i], r[i + 1]) {
      if i >= |p| - 1 {
        assert r[i] == q[i - |p| + 1] && r[i + 1] == q[i - |p| + 2];
      }
    }
  }

  /** A sound leg from `a` to `b` put in front of a sound route from `b`, junction once. */
  lemma PrependLeg(nav: NavMesh, a: Pos2, b: Pos2, c: Pos2, leg: seq<Pos2>, rest: seq<Pos2>)
    requires SoundPath(nav, a, b, leg) && SoundPath(nav, b, c, [b] + rest)
    ensures SoundPath(nav, a, c, [a] + (leg[1..] + rest))
  {
    assert ([b] + rest)[1..] == rest;
    JoinSound(nav, a, b, c, leg, [b] + rest);
    ConsTail(leg);
    Assoc([a], leg[1..], rest);
  }

  /** The one-cell route. */
  lemma SingleSound(nav: NavMesh, b: Pos2)
    ensures SoundPath(nav, b, b, [b] + [])
  {
    assert [b] + [] == [b];
  }

  /** A sound leg from `a` to `b` followed by the rest of a sound route from `b`. */
  lemma AppendRest(nav: NavMesh, a: Pos2, b: Pos2, c: Pos2, leg: seq<Pos2>, rest: seq<Pos2>)
    requires SoundPath(nav, a, b, leg) && SoundPath(nav, b, c, [b] + rest)
    ensures SoundPath(nav, a, c, leg + rest)
  {
    assert ([b] + rest)[1..] == rest;
    JoinSound(nav, a, b, c, leg, [b] + rest);
  }

  lemma {:induction false} ChainSound(nav: NavMesh, current: Pos2, ws: seq<Pos2>)
    requires |ws| > 0 && Chain(nav, current, ws).Some?
    ensures SoundPath(nav, current, ws[|ws| - 1], [current] + Chain(nav, current, ws).value)
    decreases |ws|
  {
    ChainStep(nav, current, ws);
    var leg := AStar(nav, current, ws[0]).value;
    var rest := Chain(nav, ws[0], ws[1..]).value;
    if |ws| == 1 {
      assert Chain(nav, ws[0], ws[1..]) == Some([]);
      SingleSound(nav, ws[0]);
    } else {
      ChainSound(nav, ws[0], ws[1..]);
      LastOfTail(ws);
    }
    PrependLeg(nav, current, ws[0], ws[|ws| - 1], leg, rest);
  }

  /** When every leg has a route, the waypointed result is a sound route from `start` to the last waypoint. */
  lemma WaypointedSound(nav: NavMesh, start: Pos2, ws: seq<Pos2>)
    requires |ws| > 0
    requires AStar(nav, start, ws[0]).Some? && Chain(nav, ws[0], ws[1..]).Some?
    ensures WaypointedAStar(nav, start, ws).Some?
    ensures SoundPath(nav, start, ws[|ws| - 1], WaypointedAStar(nav, start, ws).value)
  {
    WaypointedConcatenation(nav, start, ws);
    var leg := AStar(nav, start, ws[0]).value;
    var rest := Chain(nav, ws[0], ws[1..]).value;
    if |ws| > 1 {
      ChainSound(nav, ws[0], ws[1..]);
      LastOfTail(ws);
    } else {
      assert Chain(nav, ws[0], ws[1..]) == Some([]);
      SingleSound(nav, ws[0]);
    }
    AppendRest(nav, start, ws[0], ws[|ws| - 1], leg, rest);
  }

  /**
   * An unreachable leg adds nothing, whatever was collected before it, and
   * the next leg starts at the waypoint it failed to reach.
   */
  lemma LegsSkipped(nav: NavMesh, current: Pos2, ws: seq<Pos2>, total: seq<Pos2>)
    requires |ws| > 0 && !IsBlocked(nav, current) && !IsBlocked(nav, ws[0])
    requires AStar(nav, current, ws[0]) == None
    ensures Legs(nav, current, ws, total) == Legs(nav, ws[0], ws[1..], total)
  {
    assert LegPath(nav, current, ws[0]) == None;
  }

  /**
   * A skipped middle leg: with legs one and three routed and leg two not,
   * the result is leg one followed by leg three minus its first cell.
   */
  lemma SkippedMiddleLeg(nav: NavMesh, start: Pos2, ws: seq<Pos2>, p: seq<Pos2>, q: seq<Pos2>)
    requires |ws| == 3
    requires !IsBlocked(nav, ws[0]) && !IsBlocked(nav, ws[1])
    requires AStar(nav, start, ws[0]) == Some(p) && AStar(nav, ws[0], ws[1]) == None
    requires AStar(nav, ws[1], ws[2]) == Some(q)
    ensures WaypointedAStar(nav, start, ws) == Some(p + q[1..])
  {
    assert Join([], p) == p;
    assert Join(p, q) == p + q[1..];
    LegsFound(nav, start, ws, []);
    LegsSkipped(nav, ws[0], ws[1..], p);
    TailOfTail(ws);
    LegsFound(nav, ws[1], [ws[2]], p);
  }

  /** Joining at a cell more than two steps from where the first part ends leaves a gap. */
  lemma GapAtJunction(p: seq<Pos2>, q: seq<Pos2>)
    requires |p| >= 1 && |q| >= 2 && Adjacent(q[0], q[1])
    requires Manhattan(p[|p| - 1], q[0]) > 2
    ensures !IsWalk(p + q[1..])
  {
    var r := p + q[1..];
    assert r[|p| - 1] == p[|p| - 1] && r[|p|] == q[1];
  }

  /**
   * So a skipped middle leg breaks the route when the unreached waypoint is
   * more than two steps from the waypoint before it: the junction is not a step.
   */
  lemma SkippedLegBreaksWalk(nav: NavMesh, start: Pos2, ws: seq<Pos2>)
    requires |ws| == 3
    requires !IsBlocked(nav, ws[0]) && !IsBlocked(nav, ws[1])
    requires AStar(nav, start, ws[0]).Some? && AStar(nav, ws[0], ws[1]) == None
    requires AStar(nav, ws[1], ws[2]).Some? && ws[2] != ws[1]
    requires Manhattan(ws[0], ws[1]) > 2
    ensures WaypointedAStar(nav, start, ws).Some?
    ensures !IsWalk(WaypointedAStar(nav, start, ws).value)
  {
    var p := AStar(nav, start, ws[0]).value;
    var q := AStar(nav, ws[1], ws[2]).value;
    SkippedMiddleLeg(nav, start, ws, p, q);
    assert |q| >= 2 && Adjacent(q[0], q[1]);
    GapAtJunction(p, q);
  }

  /** A cell more than two steps from `b` is not next to any neighbour of `b`. */
  lemma FarFromNeighbour(a: Pos2, b: Pos2, c: Pos2)
    requires Manhattan(a, b) > 2 && Adjacent(b, c)
    ensures !IsWalk([a, c])
  {
    assert [a, c][0] == a && [a, c][1] == c;
  }

  lemma JoinTwo(a: Pos2, b: Pos2, c: Pos2)
    ensures [a] + [b, c][1..] == [a, c]
  {
  }

  /**
   * Clicks need not fall on the grid. A waypoint `b` just outside it, whose
   * only in-bounds neighbour is the next waypoint `c`, cannot be reached from
   * `a`, but `c` is reached from `b` in one step. So the route through
   * `a, b, c` from `a` is `[a, c]`, which jumps whenever `a` is far from `b`.
   */
  lemma SkippedLegJumps(nav: NavMesh, ws: seq<Pos2>)
    requires |ws| == 3
    requires !IsBlocked(nav, ws[0]) && !IsBlocked(nav, ws[1]) && !IsBlocked(nav, ws[2])
    requires !IsInBounds(nav, ws[1]) && Adjacent(ws[1], ws[2]) && IsInBounds(nav, ws[2])
    requires forall q :: q in Neighbors(ws[1]) && q != ws[2] ==> !IsInBounds(nav, q) || IsBlocked(nav, q)
    requires Manhattan(ws[0], ws[1]) > 2
    ensures WaypointedAStar(nav, ws[0], ws) == Some([ws[0], ws[2]])
    ensures !IsWalk([ws[0], ws[2]])
  {
    FarFromNeighbour(ws[0], ws[1], ws[2]);
    JoinTwo(ws[0], ws[1], ws[2]);
    AStarToSelf(nav, ws[0]);
    OutOfBoundsGoalUnreachable(nav, ws[0], ws[1]);
    AStarOnlyNeighbour(nav, ws[1], ws[2]);
    SkippedMiddleLeg(nav, ws[0], ws, [ws[0]], [ws[1], ws[2]]);
  }

  /** The instance: a free 10 by 10 grid, from (5, 5) through (5, 5), (-1, 0) and (0, 0). */
  lemma SkippedLegJumpsExample(nav: NavMesh, ws: seq<Pos2>)
    requires nav == NavMesh(map[], Pos2(0, 0), Pos2(9, 9))
    requires ws == [Pos2(5, 5), Pos2(-1, 0), Pos2(0, 0)]
    ensures WaypointedAStar(nav, ws[0], ws) == Some([ws[0], ws[2]])
    ensures !IsWalk([ws[0], ws[2]])
  {
    assert Neighbors(ws[1]) == [Pos2(0, 0), Pos2(-2, 0), Pos2(-1, 1), Pos2(-1, -1)];
    SkippedLegJumps(nav, ws);
  }

  /** Two repetition-free routes meeting at `a`, joined without the second's first cell, hold `a` once. */
  lemma JunctionOnce(p: seq<Pos2>, q: seq<Pos2>, a: Pos2)
    requires |p| >= 1 && p[|p| - 1] == a && |q| >= 1 && q[0] == a
    requires forall i, j :: 0 <= i < j < |p| ==> p[i] != p[j]
    requires forall i, j :: 0 <= i < j < |q| ==> q[i] != q[j]
    ensures multiset(p + q[1..])[a] == 1
  {
    var n := |p|;
    assert p == p[..n - 1] + [a];
    assert a !in p[..n - 1] by {
      forall k | 0 <= k < n - 1 ensures p[k] != a {
        assert p[k] != p[n - 1];
      }
    }
    assert a !in q[1..] by {
      forall k | 1 <= k < |q| ensures q[k] != a {
        assert q[k] != q[0];
      }
    }
    assert p + q[1..] == p[..n - 1] + [a] + q[1..];
  }

  /** The reference chain over one waypoint is that leg's route without its first cell. */
  lemma ChainOne(nav: NavMesh, a: Pos2, b: Pos2)
    requires AStar(nav, a, b).Some?
    ensures Chain(nav, a, [b]) == Some(AStar(nav, a, b).value[1..])
  {
    assert [b][1..] == [];
    assert Chain(nav, b, []) == Some([]);
    assert AStar(nav, a, b).value[1..] + [] == AStar(nav, a, b).value[1..];
  }

  /**
   * With both legs routed, the waypoint between them appears exactly once:
   * each leg visits no cell twice, and the second loses its first cell.
   */
  lemma WaypointOnce(nav: NavMesh, start: Pos2, a: Pos2, b: Pos2)
    requires AStar(nav, start, a).Some? && AStar(nav, a, b).Some?
    ensures WaypointedAStar(nav, start, [a, b]).Some?
    ensures multiset(WaypointedAStar(nav, start, [a, b]).value)[a] == 1
  {
    var ws := [a, b];
    ChainOne(nav, a, b);
    assert ws[1..] == [b];
    WaypointedConcatenation(nav, start, ws);
    AStarDistinct(nav, start, a);
    AStarDistinct(nav, a, b);
    JunctionOnce(AStar(nav, start, a).value, AStar(nav, a, b).value, a);
  }

  /**
   * An unreachable first leg is skipped, not fatal: the result is what the
   * remaining waypoints give when started from the waypoint never reached.
   */
  lemma WaypointedSkipsUnreachableLeg(nav: NavMesh, start: Pos2, ws: seq<Pos2>)
    requires |ws| > 0 && !IsBlocked(nav, start) && !IsBlocked(nav, ws[0])
    requires AStar(nav, start, ws[0]) == None
    ensures WaypointedAStar(nav, start, ws) == WaypointedAStar(nav, ws[0], ws[1..])
  {
    assert LegPath(nav, start, ws[0]) == None;
  }
}
