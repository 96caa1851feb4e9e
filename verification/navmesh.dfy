/**
 * The navigation mesh of `src/pathfinding.rs`: a blocked-cell map plus an
 * inclusive bounding rectangle, and the cell predicates the search uses.
 */
module Navigation {
  import opened Position

  /** Cells are keyed by their `(x, y)` tuple. */
  type Lut = map<(int, int), bool>

  /**
   * `space_lut` marks impassable cells: a key being present means the cell
   * is blocked, whatever value it maps to. `min` and `max` bound the
   * traversable rectangle inclusively.
   */
  datatype NavMesh = NavMesh(spaceLut: Lut, min: Pos2, max: Pos2)

  /** `NavMesh::default()`. */
  const DefaultNavMesh := NavMesh(map[], DefaultPos, DefaultPos)

  function SetGridBoundaries(nav: NavMesh, min: Pos2, max: Pos2): (r: NavMesh)
    ensures r.min == min && r.max == max
    ensures r.spaceLut == nav.spaceLut
  {
    nav.(min := min, max := max)
  }

  function SetSpaceLut(nav: NavMesh, lut: Lut): (r: NavMesh)
    ensures forall p: Pos2 :: IsBlocked(r, p) <==> p.ToTuple() in lut
    ensures r.min == nav.min && r.max == nav.max
  {
    nav.(spaceLut := lut)
  }

  /** `is_in_bounds`: the inclusive box. */
  predicate IsInBounds(nav: NavMesh, p: Pos2) {
    nav.min.x <= p.x <= nav.max.x && nav.min.y <= p.y <= nav.max.y
  }

  /**
   * A cell is in bounds exactly when the bounds are ordered and the cell lies
   * on a shortest orthogonal route from `min` to `max`.
   */
  lemma InBoundsBetween(nav: NavMesh, p: Pos2)
    ensures IsInBounds(nav, p) <==> && nav.min.x <= nav.max.x && nav.min.y <= nav.max.y
                                    && Manhattan(nav.min, p) + Manhattan(p, nav.max) == Manhattan(nav.min, nav.max)
  {
  }

  predicate IsBlocked(nav: NavMesh, p: Pos2) {
    p.ToTuple() in nav.spaceLut
  }

  /** The cells inside the bounds: a finite set. */
  ghost function Box(nav: NavMesh): (cells: set<Pos2>)
    ensures forall p :: p in cells <==> IsInBounds(nav, p)
  {
    set x: int, y: int | nav.min.x <= x <= nav.max.x && nav.min.y <= y <= nav.max.y :: Pos2(x, y)
  }

  /** `heuristic`: the unscaled Manhattan distance. */
  function Heuristic(a: Pos2, b: Pos2): (h: int)
    ensures h >= 0
    ensures h == 0 <==> a == b
  {
    Manhattan(a, b)
  }

  /** Every consecutive pair of cells is one orthogonal step apart. */
  ghost predicate IsWalk(path: seq<Pos2>) {
    forall i :: 0 <= i < |path| - 1 ==> Adjacent(path[i], path[i + 1])
  }

  /**
   * The heuristic never exceeds the number of orthogonal steps of any walk
   * between two cells. A step costs 10 in the search, so the heuristic is at
   * most a tenth of the true cost: it is admissible.
   */
  lemma {:induction false} HeuristicAdmissible(path: seq<Pos2>)
    requires |path| >= 1 && IsWalk(path)
    ensures Heuristic(path[0], path[|path| - 1]) <= |path| - 1
  {
    if |path| > 1 {
      var rest := path[1..];
      assert IsWalk(rest) by {
        forall i | 0 <= i < |rest| - 1 ensures Adjacent(rest[i], rest[i + 1]) {
          assert rest[i] == path[i + 1] && rest[i + 1] == path[i + 2];
        }
      }
      HeuristicAdmissible(rest);
      assert Adjacent(path[0], path[1]);
    }
  }
}
