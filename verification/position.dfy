/**
 * Integer grid cells (`src/ecs/pos2.rs`): a cell, its tuple key, its four
 * orthogonal neighbours and the derived lexicographic ordering.
 */
module Position {

  /** One grid cell. The source stores `i64` coordinates; they are unbounded here. */
  datatype Pos2 = Pos2(x: int, y: int) {

    /** The key under which the cell is looked up in an occupancy map. */
    function ToTuple(): (int, int) {
      (x, y)
    }
  }

  /** `Pos2::default()`. */
  const DefaultPos := Pos2(100, 100)

  function Abs(n: int): int {
    if n < 0 then -n else n
  }

  /** Manhattan distance between two cells. */
  function Manhattan(a: Pos2, b: Pos2): int {
    Abs(a.x - b.x) + Abs(a.y - b.y)
  }

  /** Two cells share an edge: they are one orthogonal unit step apart. */
  predicate Adjacent(a: Pos2, b: Pos2) {
    Manhattan(a, b) == 1
  }

  /** A move between two cells that changes both coordinates. */
  predicate IsDiagonal(from: Pos2, to: Pos2) {
    to.x != from.x && to.y != from.y
  }

  /** `neighbors`: right, left, up, down, in that order. */
  function Neighbors(p: Pos2): (ns: seq<Pos2>)
    ensures |ns| == 4
    ensures forall q :: q in ns <==> Adjacent(p, q)
    ensures forall i, j :: 0 <= i < j < |ns| ==> ns[i] != ns[j]
  {
    [Pos2(p.x + 1, p.y), Pos2(p.x - 1, p.y), Pos2(p.x, p.y + 1), Pos2(p.x, p.y - 1)]
  }

  /** The derived `Ord` on `Pos2`: compare `x` first, then `y`. */
  predicate Le(a: Pos2, b: Pos2) {
    a.x < b.x || (a.x == b.x && a.y <= b.y)
  }

  /** `to_tuple` loses nothing: distinct cells have distinct keys. */
  lemma ToTupleInjective(p: Pos2, q: Pos2)
    ensures p.ToTuple() == q.ToTuple() <==> p == q
  {
  }

  /** The neighbour relation is symmetric. */
  lemma NeighborsSymmetric(p: Pos2, q: Pos2)
    ensures q in Neighbors(p) <==> p in Neighbors(q)
  {
  }

  /** No neighbour is diagonal, and each is at Manhattan distance one. */
  lemma NeighborsOrthogonal(p: Pos2)
    ensures forall q :: q in Neighbors(p) ==> !IsDiagonal(p, q) && Manhattan(p, q) == 1
  {
  }

  /** The derived ordering is a total order, so the search's tie-break is well defined. */
  lemma LeIsTotalOrder()
    ensures forall a :: Le(a, a)
    ensures forall a, b :: Le(a, b) && Le(b, a) ==> a == b
    ensures forall a, b, c :: Le(a, b) && Le(b, c) ==> Le(a, c)
    ensures forall a, b :: Le(a, b) || Le(b, a)
  {
  }
}
