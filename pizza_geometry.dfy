/**
  Pizza: coordinates, shifts and the four axis directions.

  The source keeps points, sizes and shifts in one generic pair type; points
  are unsigned and shifts signed there. Here every component is a
  mathematical integer: a point is used only when it lies inside the grid,
  which is exactly when the unsigned wrap-around of the source is not reached.
 */
module PizzaGeometry {

  datatype SizeP = SizeP(x: int, y: int)

  type Point = SizeP
  type Size = SizeP
  type Shift = SizeP

  /** `Point + Shift`. */
  function Add(p: Point, s: Shift): (r: Point)
    ensures Sub(r, p) == s
  {
    SizeP(p.x + s.x, p.y + s.y)
  }

  /** `Point - Point`, a shift. */
  function Sub(p: Point, q: Point): Shift
  {
    SizeP(p.x - q.x, p.y - q.y)
  }

  /** `Shift * i32`. */
  function Mul(s: Shift, k: int): Shift
  {
    SizeP(s.x * k, s.y * k)
  }

  /** `sum`: x + y. */
  function Sum(s: SizeP): int
  {
    s.x + s.y
  }

  function Abs(n: int): nat
  {
    if n < 0 then -n else n
  }

  function Min(a: int, b: int): int
  {
    if a <= b then a else b
  }

  datatype Direction = Up | Down | Left | Right

  /** The order in which `expansion` visits the directions. It is written
      as a concatenation rather than one literal so that the verifier does
      not evaluate the four passes of an expansion eagerly wherever one is
      mentioned. */
  const AllDirections: seq<Direction> := [Up, Down] + [Left, Right]

  /** Rows grow downwards: `Up` decreases y. */
  function GetShift(d: Direction): (s: Shift)
    ensures Abs(s.x) + Abs(s.y) == 1
    ensures d == Up ==> s.y < 0
    ensures d == Down ==> s.y > 0
    ensures d == Left ==> s.x < 0
    ensures d == Right ==> s.x > 0
  {
    match d
    case Up => SizeP(0, -1)
    case Down => SizeP(0, 1)
    case Left => SizeP(-1, 0)
    case Right => SizeP(1, 0)
  }

  /** The point `k` steps from `p` in direction `d`, written without the
      multiplication so that the solver sees linear arithmetic. */
  function Toward(p: Point, d: Direction, k: int): Point
  {
    match d
    case Up => SizeP(p.x, p.y - k)
    case Down => SizeP(p.x, p.y + k)
    case Left => SizeP(p.x - k, p.y)
    case Right => SizeP(p.x + k, p.y)
  }

  /** `p + d.get_shift() * k` is the point k steps along d, and it lies
      exactly k away from p (the source's `sum` of the offset is +k or -k). */
  lemma StepsAlong(p: Point, d: Direction, k: int)
    ensures Add(p, Mul(GetShift(d), k)) == Toward(p, d, k)
    ensures Abs(Sum(Sub(Toward(p, d, k), p))) == Abs(k)
  {
  }

  predicate Inside(p: Point, size: Size)
  {
    0 <= p.x < size.x && 0 <= p.y < size.y
  }

  /** The number of cells between `pos` and the grid edge in direction `d`. */
  function EdgeDistance(pos: Point, size: Size, d: Direction): int
  {
    match d
    case Up => pos.y
    case Down => size.y - pos.y - 1
    case Left => pos.x
    case Right => size.x - pos.x - 1
  }

  /** How far `expansion` may go in direction `d`: the capacity, cut at the
      grid edge. Every step it allows stays on the grid, and when the
      capacity is not what limits it, one more step would leave the grid. */
  function GuaranteedArithmetic(cap: int, pos: Point, size: Size, d: Direction): (r: int)
    ensures r <= cap && r <= EdgeDistance(pos, size, d)
    ensures r == cap || r == EdgeDistance(pos, size, d)
    ensures Inside(pos, size) ==> forall i :: 1 <= i <= r ==> Inside(Toward(pos, d, i), size)
    ensures Inside(pos, size) && r < cap ==> !Inside(Toward(pos, d, r + 1), size)
  {
    Min(EdgeDistance(pos, size, d), cap)
  }

  /** The points `from`, `from + 1`, ..., `from + len - 1` steps from `q` along `d`. */
  function Line(q: Point, d: Direction, from: int, len: nat): (r: seq<Point>)
    ensures |r| == len
    ensures forall j :: 0 <= j < len ==> r[j] == Toward(q, d, from + j)
    decreases len
  {
    if len == 0 then [] else [Toward(q, d, from)] + Line(q, d, from + 1, len - 1)
  }

  predicate Distinct(ps: seq<Point>)
  {
    forall i, j :: 0 <= i < j < |ps| ==> ps[i] != ps[j]
  }

  /** A line never meets a point twice, and one that starts a step away
      from `q` does not contain `q`. */
  lemma LineFacts(q: Point, d: Direction, from: int, len: nat)
    ensures Distinct(Line(q, d, from, len))
    ensures from >= 1 ==> q !in Line(q, d, from, len)
  {
  }

  /** Every point of a line that starts a step away from `q` shares its row
      or column. */
  lemma LineAligned(q: Point, d: Direction, from: int, len: nat)
    requires from >= 1
    ensures forall p :: p in Line(q, d, from, len) ==> Aligned(p, q)
  {
  }

  /** Rays from one point in two different directions never meet. */
  lemma LinesApart(q: Point, d1: Direction, d2: Direction, i: int, j: int)
    requires d1 != d2 && i >= 1 && j >= 1
    ensures Toward(q, d1, i) != Toward(q, d2, j)
  {
  }

  /** The steps `1..GuaranteedArithmetic` of `expansion` stay on the grid. */
  lemma LineInside(q: Point, d: Direction, len: nat, size: Size)
    requires Inside(q, size) && len <= EdgeDistance(q, size, d)
    ensures forall p :: p in Line(q, d, 1, len) ==> Inside(p, size)
  {
  }

  lemma SliceCons<T>(ps: seq<T>, k: nat)
    requires 1 <= k <= |ps|
    ensures ps[..k] == [ps[0]] + ps[1..][..k - 1]
  {
  }

  lemma AppendSliceCons<T>(a: seq<T>, ps: seq<T>, k: nat)
    requires 1 <= k <= |ps|
    ensures (a + [ps[0]]) + ps[1..][..k - 1] == a + ps[..k]
  {
    SliceCons(ps, k);
  }

  /** A point on the same row or column as `q`, other than `q` itself. */
  predicate Aligned(p: Point, q: Point)
  {
    (p.x == q.x || p.y == q.y) && p != q
  }

  function Manhattan(p: Point, q: Point): nat
  {
    Abs(p.x - q.x) + Abs(p.y - q.y)
  }

  /**
    The direction of the walk from a cell `pos` back to its pizzeria
    `pPos`, chosen from the offset `pos - pPos` as in
    `count_distance_and_shift`: a cell to the right of the source walks
    `Left`, one below it walks `Up`; a zero or diagonal offset falls back
    to `Down`. For an aligned cell, walking its distance in that direction
    arrives at the source.
   */
  function WalkDirection(pos: Point, pPos: Point): (d: Direction)
    ensures Aligned(pos, pPos) ==> Toward(pos, d, Manhattan(pos, pPos)) == pPos
    ensures Aligned(pos, pPos) ==> Manhattan(pos, pPos) >= 1
  {
    var off := Sub(pos, pPos);
    if off.x == 0 && off.y == 0 then Down
    else if off.y == 0 then (if off.x > 0 then Left else Right)
    else if off.x == 0 then (if off.y > 0 then Up else Down)
    else Down
  }

  /** Every point strictly between an aligned cell and its source, and the
      source itself, is inside the grid when both ends are. */
  lemma WalkStaysInside(pos: Point, pPos: Point, size: Size, k: int)
    requires Aligned(pos, pPos) && Inside(pos, size) && Inside(pPos, size)
    requires 0 <= k <= Manhattan(pos, pPos)
    ensures Inside(Toward(pos, WalkDirection(pos, pPos), k), size)
  {
  }

  /** The quirk of the walk direction: a cell to the right of its source is
      walked, and later tallied, as `Left`; one above it as `Down`. */
  lemma WalkDirectionIsReversed(src: Point, k: int)
    requires k > 0
    ensures WalkDirection(Toward(src, Right, k), src) == Left
    ensures WalkDirection(Toward(src, Left, k), src) == Right
    ensures WalkDirection(Toward(src, Up, k), src) == Down
    ensures WalkDirection(Toward(src, Down, k), src) == Up
  {
  }

  /** The four movement counters (.0, .1, .2, .3) of a pizzeria. */
  type Movement = (int, int, int, int)

  /** The counter a commit walked in direction `d` is charged to:
      Down .0, Left .1, Up .2, Right .3. */
  function Slot(d: Direction): nat
  {
    match d
    case Down => 0
    case Left => 1
    case Up => 2
    case Right => 3
  }

  function Counter(mv: Movement, i: nat): int
    requires i < 4
  {
    if i == 0 then mv.0 else if i == 1 then mv.1 else if i == 2 then mv.2 else mv.3
  }

  function Total(mv: Movement): int
  {
    mv.0 + mv.1 + mv.2 + mv.3
  }

  /** `constriction`'s update of the counters: the one for `d` grows by `k`,
      the other three are untouched. */
  function Bump(mv: Movement, d: Direction, k: int): (r: Movement)
    ensures Counter(r, Slot(d)) == Counter(mv, Slot(d)) + k
    ensures forall i :: 0 <= i < 4 && i != Slot(d) ==> Counter(r, i) == Counter(mv, i)
    ensures Total(r) == Total(mv) + k
  {
    match d
    case Up => (mv.0, mv.1, mv.2 + k, mv.3)
    case Down => (mv.0 + k, mv.1, mv.2, mv.3)
    case Left => (mv.0, mv.1 + k, mv.2, mv.3)
    case Right => (mv.0, mv.1, mv.2, mv.3 + k)
  }

  /** The counter `constriction` adds to the capacity for a frontier point
      at offset `off` from the source (0 for an offset off both axes). */
  function SideCounter(mv: Movement, off: Shift): int
  {
    if off.x == 0 then (if off.y > 0 then mv.2 else mv.0)
    else if off.y == 0 then (if off.x > 0 then mv.1 else mv.3)
    else 0
  }

  /** The counter consulted for a frontier point is the very one a commit
      starting from that point would be charged to. */
  lemma SideMatchesWalk(mv: Movement, p: Point, src: Point)
    requires Aligned(p, src)
    ensures SideCounter(mv, Sub(p, src)) == Counter(mv, Slot(WalkDirection(p, src)))
  {
  }
}
