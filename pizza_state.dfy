/**
  Pizza: the map of cells and the value-level definition of every step the
  allocator takes on it. The class in pizza_map.dfy performs these steps in
  place and is proved to agree with them.

  The map is indexed `[y][x]`: `grid[y]` is a row, `size.x` its length and
  `size.y` the number of rows.
 */
module PizzaState {
  import opened PizzaGeometry

  datatype MapBlock =
    | Pizzeria(num: int, capacity: int, movement: Movement, availableBlocks: seq<Point>)
    | Occupied(owner: int)
    | Unoccupied(candidates: seq<int>)

  datatype MapState = MapState(grid: seq<seq<MapBlock>>, size: Size, free: int, pizzeriasPos: seq<Point>)

  predicate Shaped(s: MapState)
  {
    && 0 <= s.size.x && 0 <= s.size.y
    && |s.grid| == s.size.y
    && forall y :: 0 <= y < |s.grid| ==> |s.grid[y]| == s.size.x
  }

  function At(s: MapState, p: Point): MapBlock
    requires Shaped(s) && Inside(p, s.size)
  {
    s.grid[p.y][p.x]
  }

  /** `self[p] = b`: only the cell at `p` changes. */
  function SetAt(s: MapState, p: Point, b: MapBlock): (r: MapState)
    requires Shaped(s) && Inside(p, s.size)
    ensures Shaped(r) && r.size == s.size && r.free == s.free && r.pizzeriasPos == s.pizzeriasPos
    ensures forall q {:trigger At(r, q)} :: Inside(q, s.size) ==> At(r, q) == if q == p then b else At(s, q)
  {
    s.(grid := s.grid[p.y := s.grid[p.y][p.x := b]])
  }

  predicate IsFree(s: MapState, p: Point)
    requires Shaped(s)
  {
    Inside(p, s.size) && At(s, p).Unoccupied?
  }

  /** `Vec::retain(|x| x != v)`: every copy of `v` goes, the rest keep their order. */
  function Without<T(==, !new)>(xs: seq<T>, v: T): (r: seq<T>)
    ensures forall x :: x in r <==> x in xs && x != v
    ensures v !in xs ==> r == xs
    ensures |r| <= |xs|
  {
    if xs == [] then []
    else (if xs[0] == v then [] else [xs[0]]) + Without(xs[1..], v)
  }

  // ---------------------------------------------------------------------
  // Counting the unoccupied cells

  function CountRow(row: seq<MapBlock>): nat
  {
    if row == [] then 0
    else CountRow(row[..|row| - 1]) + (if row[|row| - 1].Unoccupied? then 1 else 0)
  }

  function CountRows(rows: seq<seq<MapBlock>>): nat
  {
    if rows == [] then 0 else CountRows(rows[..|rows| - 1]) + CountRow(rows[|rows| - 1])
  }

  function CountUnoccupied(s: MapState): nat
  {
    CountRows(s.grid)
  }

  lemma {:induction false} CountRowSet(row: seq<MapBlock>, x: int, b: MapBlock)
    requires 0 <= x < |row|
    ensures CountRow(row[x := b]) + (if row[x].Unoccupied? then 1 else 0)
            == CountRow(row) + (if b.Unoccupied? then 1 else 0)
    decreases |row|
  {
    var last := |row| - 1;
    assert row[x := b][..last] == if x == last then row[..last] else row[..last][x := b];
    if x < last {
      CountRowSet(row[..last], x, b);
    }
  }

  lemma {:induction false} CountRowsSet(rows: seq<seq<MapBlock>>, y: int, row: seq<MapBlock>)
    requires 0 <= y < |rows|
    ensures CountRows(rows[y := row]) + CountRow(rows[y]) == CountRows(rows) + CountRow(row)
    decreases |rows|
  {
    var last := |rows| - 1;
    assert rows[y := row][..last] == if y == last then rows[..last] else rows[..last][y := row];
    if y < last {
      CountRowsSet(rows[..last], y, row);
    }
  }

  /** Writing one cell changes the number of unoccupied cells by at most one,
      exactly as the kinds of the old and the new block say. */
  lemma CountSetAt(s: MapState, p: Point, b: MapBlock)
    requires Shaped(s) && Inside(p, s.size)
    ensures CountUnoccupied(SetAt(s, p, b)) + (if At(s, p).Unoccupied? then 1 else 0)
            == CountUnoccupied(s) + (if b.Unoccupied? then 1 else 0)
  {
    var row := s.grid[p.y];
    CountRowSet(row, p.x, b);
    CountRowsSet(s.grid, p.y, row[p.x := b]);
  }

  // ---------------------------------------------------------------------
  // Map::new

  function NewState(size: Size): (r: MapState)
    requires 0 <= size.x && 0 <= size.y
    ensures Shaped(r) && r.size == size && r.pizzeriasPos == []
    ensures forall p {:trigger At(r, p)} :: Inside(p, size) ==> At(r, p) == Unoccupied([])
  {
    MapState(seq(size.y, _ => seq(size.x, _ => Unoccupied([]))), size, size.x * size.y, [])
  }

  lemma {:induction false} CountFreshRows(w: nat, h: nat)
    ensures CountRows(seq(h, _ => seq(w, _ => Unoccupied([])))) == w * h
  {
    var rows := seq(h, _ => seq(w, _ => Unoccupied([])));
    if h > 0 {
      assert rows[..h - 1] == seq(h - 1, _ => seq(w, _ => Unoccupied([])));
      assert rows[h - 1] == seq(w, _ => Unoccupied([]));
      CountFreshRows(w, h - 1);
      CountFreshRow(w);
      assert w * h == w * (h - 1) + w;
    }
  }

  lemma {:induction false} CountFreshRow(w: nat)
    ensures CountRow(seq(w, _ => Unoccupied([]))) == w
  {
    if w > 0 {
      assert seq(w, _ => Unoccupied([]))[..w - 1] == seq(w - 1, _ => Unoccupied([]));
      CountFreshRow(w - 1);
    }
  }

  /** A new map is all unoccupied, and its free counter counts exactly those cells. */
  lemma NewStateCounts(size: Size)
    requires 0 <= size.x && 0 <= size.y
    ensures NewState(size).free == CountUnoccupied(NewState(size)) == size.x * size.y
  {
    CountFreshRows(size.x, size.y);
  }

  // ---------------------------------------------------------------------
  // expansion

  /** One step of `expansion`: `n` joins the candidates of the cell `p`, and
      `p` joins the frontier of the pizzeria at `q` (if there is one). */
  function Push(s: MapState, q: Point, p: Point, n: int): (r: MapState)
    requires Shaped(s) && Inside(q, s.size) && Inside(p, s.size) && p != q
    requires At(s, p).Unoccupied?
    ensures Shaped(r) && r.size == s.size && r.free == s.free && r.pizzeriasPos == s.pizzeriasPos
    ensures At(r, p) == Unoccupied(At(s, p).candidates + [n])
    ensures At(r, q) == if At(s, q).Pizzeria?
                        then At(s, q).(availableBlocks := At(s, q).availableBlocks + [p])
                        else At(s, q)
    ensures forall c {:trigger At(r, c)} :: Inside(c, s.size) && c != p && c != q ==> At(r, c) == At(s, c)
  {
    var s1 := SetAt(s, p, Unoccupied(At(s, p).candidates + [n]));
    if At(s1, q).Pizzeria? then
      SetAt(s1, q, At(s1, q).(availableBlocks := At(s1, q).availableBlocks + [p]))
    else
      s1
  }

  predicate AllInside(s: MapState, ps: seq<Point>)
  {
    forall p :: p in ps ==> Inside(p, s.size)
  }

  /** The first `Run(s, ps)` points of `ps` are free cells, and the point after them is not. */
  function Run(s: MapState, ps: seq<Point>): (k: nat)
    requires Shaped(s) && AllInside(s, ps)
    ensures k <= |ps|
    ensures forall j :: 0 <= j < k ==> At(s, ps[j]).Unoccupied?
    ensures k < |ps| ==> !At(s, ps[k]).Unoccupied?
    decreases |ps|
  {
    if ps == [] || !At(s, ps[0]).Unoccupied? then 0 else 1 + Run(s, ps[1..])
  }

  /** The inner loop of `expansion` over the points of one direction: each
      free cell is pushed, and the first cell that is not free ends it. */
  function ExpandAlong(s: MapState, q: Point, ps: seq<Point>, n: int): (r: MapState)
    requires Shaped(s) && Inside(q, s.size) && AllInside(s, ps) && q !in ps
    ensures Shaped(r) && r.size == s.size && r.free == s.free && r.pizzeriasPos == s.pizzeriasPos
    decreases |ps|
  {
    if ps == [] || !At(s, ps[0]).Unoccupied? then s
    else ExpandAlong(Push(s, q, ps[0], n), q, ps[1..], n)
  }

  /** A push onto the first point does not change how far the rest reaches. */
  lemma RunAfterPush(s: MapState, q: Point, ps: seq<Point>, n: int)
    requires Shaped(s) && Inside(q, s.size) && AllInside(s, ps) && q !in ps && ps != []
    requires At(s, ps[0]).Unoccupied?
    ensures Run(Push(s, q, ps[0], n), ps[1..]) == Run(s, ps[1..])
  {
    RunSame(s, Push(s, q, ps[0], n), ps[1..]);
  }

  /** Run depends only on which cells are free. */
  lemma {:induction false} RunSame(s: MapState, t: MapState, ps: seq<Point>)
    requires Shaped(s) && Shaped(t) && s.size == t.size && AllInside(s, ps)
    requires forall p :: p in ps ==> At(s, p).Unoccupied? == At(t, p).Unoccupied?
    ensures Run(s, ps) == Run(t, ps)
    decreases |ps|
  {
    if ps != [] {
      RunSame(s, t, ps[1..]);
    }
  }

  /**
    What one direction of `expansion` does to a cell `p` other than the
    pizzeria's own: `p` gets `n` appended to its candidates if it is one of
    the `Run` free points the direction meets, and is unchanged otherwise.
   */
  lemma {:induction false} ExpandAlongCell(s: MapState, q: Point, ps: seq<Point>, n: int, p: Point)
    requires Shaped(s) && Inside(q, s.size) && AllInside(s, ps) && q !in ps && Distinct(ps)
    requires Inside(p, s.size) && p != q
    ensures var r := ExpandAlong(s, q, ps, n);
            && (p in ps[..Run(s, ps)] ==>
                  At(s, p).Unoccupied? && At(r, p) == Unoccupied(At(s, p).candidates + [n]))
            && (p !in ps[..Run(s, ps)] ==> At(r, p) == At(s, p))
    decreases |ps|
  {
    if ps != [] && At(s, ps[0]).Unoccupied? {
      var t := Push(s, q, ps[0], n);
      ExpandAlongCell(t, q, ps[1..], n, p);
      RunAfterPush(s, q, ps, n);
      SliceCons(ps, Run(s, ps));
      if p == ps[0] {
        assert p !in ps[1..];
      }
    }
  }

  /** ... and to the pizzeria's frontier: the same points, in the order they
      were met, are appended to it. */
  lemma {:induction false} ExpandAlongFrontier(s: MapState, q: Point, ps: seq<Point>, n: int)
    requires Shaped(s) && Inside(q, s.size) && AllInside(s, ps) && q !in ps
    ensures var r := ExpandAlong(s, q, ps, n);
            At(r, q) == if At(s, q).Pizzeria?
                        then At(s, q).(availableBlocks := At(s, q).availableBlocks + ps[..Run(s, ps)])
                        else At(s, q)
    decreases |ps|
  {
    if ps != [] && At(s, ps[0]).Unoccupied? {
      var t := Push(s, q, ps[0], n);
      ExpandAlongFrontier(t, q, ps[1..], n);
      RunAfterPush(s, q, ps, n);
      if At(s, q).Pizzeria? {
        AppendSliceCons(At(s, q).availableBlocks, ps, Run(s, ps));
      }
    } else {
      assert ps[..0] == [];
    }
  }

  /** The points one direction of `expansion` visits at most: steps
      `1..=GuaranteedArithmetic(cap, q, size, d)` (none when that is below 1). */
  function Reachable(s: MapState, q: Point, d: Direction, cap: int): (ps: seq<Point>)
    requires Shaped(s) && Inside(q, s.size)
    ensures AllInside(s, ps) && q !in ps && Distinct(ps)
    ensures forall p :: p in ps ==> Aligned(p, q)
    ensures |ps| == if GuaranteedArithmetic(cap, q, s.size, d) < 0 then 0 else GuaranteedArithmetic(cap, q, s.size, d)
  {
    var g := GuaranteedArithmetic(cap, q, s.size, d);
    var len := if g < 0 then 0 else g;
    LineFacts(q, d, 1, len);
    LineInside(q, d, len, s.size);
    LineAligned(q, d, 1, len);
    Line(q, d, 1, len)
  }

  /** `(capacity, num)` of a pizzeria, `(0, 0)` for any other block, as `expansion` reads them. */
  function SourceOf(b: MapBlock): (int, int)
  {
    if b.Pizzeria? then (b.capacity, b.num) else (0, 0)
  }

  /** The directions `ds` of `expansion`, one after the other. */
  function ExpandDirs(s: MapState, q: Point, ds: seq<Direction>, cap: int, n: int): (r: MapState)
    requires Shaped(s) && Inside(q, s.size)
    ensures Shaped(r) && r.size == s.size && r.free == s.free && r.pizzeriasPos == s.pizzeriasPos
    decreases |ds|
  {
    if ds == [] then s
    else ExpandDirs(ExpandAlong(s, q, Reachable(s, q, ds[0], cap), n), q, ds[1..], cap, n)
  }

  /** `expansion(q)`: capacity and number are read once, then Up, Down, Left, Right. */
  function Expanded(s: MapState, q: Point): (r: MapState)
    requires Shaped(s) && Inside(q, s.size)
    ensures Shaped(r) && r.size == s.size && r.free == s.free && r.pizzeriasPos == s.pizzeriasPos
  {
    var (cap, n) := SourceOf(At(s, q));
    ExpandDirs(s, q, AllDirections, cap, n)
  }

  /** The points `expansion` claims from `q` in the directions `ds`, in
      order: in each direction, the free cells met before the first cell
      that is not free. */
  function Claim(s: MapState, q: Point, ds: seq<Direction>, cap: int): (c: seq<Point>)
    requires Shaped(s) && Inside(q, s.size)
    ensures AllInside(s, c) && q !in c
    ensures forall p :: p in c ==> Aligned(p, q) && At(s, p).Unoccupied?
    decreases |ds|
  {
    if ds == [] then []
    else
      var ps := Reachable(s, q, ds[0], cap);
      ps[..Run(s, ps)] + Claim(s, q, ds[1..], cap)
  }

  predicate NoRepeat(ds: seq<Direction>)
  {
    forall i, j :: 0 <= i < j < |ds| ==> ds[i] != ds[j]
  }

  /** `expansion` visits each direction once. */
  lemma AllDirectionsOnce()
    ensures NoRepeat(AllDirections)
  {
    assert AllDirections == [Up, Down, Left, Right];
  }

  /** The claim depends only on which cells are free. */
  lemma {:induction false} ClaimSame(s: MapState, t: MapState, q: Point, ds: seq<Direction>, cap: int)
    requires Shaped(s) && Shaped(t) && s.size == t.size && Inside(q, s.size)
    requires forall p {:trigger At(s, p)} {:trigger At(t, p)} :: Inside(p, s.size) ==> At(s, p).Unoccupied? == At(t, p).Unoccupied?
    ensures Claim(s, q, ds, cap) == Claim(t, q, ds, cap)
    decreases |ds|
  {
    if ds != [] {
      var ps := Reachable(s, q, ds[0], cap);
      assert ps == Reachable(t, q, ds[0], cap);
      RunSame(s, t, ps);
      ClaimSame(s, t, q, ds[1..], cap);
    }
  }

  /** A point reachable in a direction not among `ds` is not claimed in `ds`. */
  lemma {:induction false} ClaimApart(s: MapState, q: Point, ds: seq<Direction>, cap: int, d: Direction, p: Point)
    requires Shaped(s) && Inside(q, s.size) && d !in ds && p in Reachable(s, q, d, cap)
    ensures p !in Claim(s, q, ds, cap)
    decreases |ds|
  {
    if ds != [] {
      var ps := Reachable(s, q, ds[0], cap);
      var i :| 0 <= i < |Reachable(s, q, d, cap)| && Reachable(s, q, d, cap)[i] == p;
      forall j | 0 <= j < |ps|
        ensures ps[j] != p
      {
        LinesApart(q, d, ds[0], 1 + i, 1 + j);
      }
      ClaimApart(s, q, ds[1..], cap, d, p);
    }
  }

  /** One direction of `expansion` keeps every cell's kind. */
  lemma ExpandAlongKinds(s: MapState, q: Point, ps: seq<Point>, n: int, p: Point)
    requires Shaped(s) && Inside(q, s.size) && AllInside(s, ps) && q !in ps && Distinct(ps)
    requires Inside(p, s.size)
    ensures At(ExpandAlong(s, q, ps, n), p).Unoccupied? == At(s, p).Unoccupied?
  {
    if p == q {
      ExpandAlongFrontier(s, q, ps, n);
    } else {
      ExpandAlongCell(s, q, ps, n, p);
    }
  }

  lemma {:induction false} ExpandDirsCell(s: MapState, q: Point, ds: seq<Direction>, cap: int, n: int, p: Point)
    requires Shaped(s) && Inside(q, s.size) && NoRepeat(ds) && Inside(p, s.size) && p != q
    ensures At(ExpandDirs(s, q, ds, cap, n), p)
            == if p in Claim(s, q, ds, cap) then Unoccupied(At(s, p).candidates + [n]) else At(s, p)
    decreases |ds|
  {
    if ds != [] {
      var ps := Reachable(s, q, ds[0], cap);
      var s1 := ExpandAlong(s, q, ps, n);
      forall c | Inside(c, s.size)
        ensures At(s1, c).Unoccupied? == At(s, c).Unoccupied?
      {
        ExpandAlongKinds(s, q, ps, n, c);
      }
      ClaimSame(s, s1, q, ds[1..], cap);
      assert NoRepeat(ds[1..]) && ds[0] !in ds[1..];
      ExpandDirsCell(s1, q, ds[1..], cap, n, p);
      ExpandAlongCell(s, q, ps, n, p);
      if p in ps {
        ClaimApart(s, q, ds[1..], cap, ds[0], p);
      }
    }
  }

  lemma FrontierAppend(a: MapBlock, x: seq<Point>, y: seq<Point>)
    requires a.Pizzeria?
    ensures var b := a.(availableBlocks := a.availableBlocks + x);
            b.(availableBlocks := b.availableBlocks + y) == a.(availableBlocks := a.availableBlocks + (x + y))
  {
    assert (a.availableBlocks + x) + y == a.availableBlocks + (x + y);
  }

  lemma {:induction false} ExpandDirsSource(s: MapState, q: Point, ds: seq<Direction>, cap: int, n: int)
    requires Shaped(s) && Inside(q, s.size)
    ensures At(ExpandDirs(s, q, ds, cap, n), q)
            == if At(s, q).Pizzeria?
               then At(s, q).(availableBlocks := At(s, q).availableBlocks + Claim(s, q, ds, cap))
               else At(s, q)
    decreases |ds|
  {
    if ds != [] {
      var ps := Reachable(s, q, ds[0], cap);
      var s1 := ExpandAlong(s, q, ps, n);
      forall c | Inside(c, s.size)
        ensures At(s1, c).Unoccupied? == At(s, c).Unoccupied?
      {
        ExpandAlongKinds(s, q, ps, n, c);
      }
      ClaimSame(s, s1, q, ds[1..], cap);
      ExpandAlongFrontier(s, q, ps, n);
      ExpandDirsSource(s1, q, ds[1..], cap, n);
      if At(s, q).Pizzeria? {
        FrontierAppend(At(s, q), ps[..Run(s, ps)], Claim(s, q, ds[1..], cap));
      }
    } else {
      assert At(s, q).Pizzeria? ==> At(s, q).availableBlocks + [] == At(s, q).availableBlocks;
    }
  }

  /**
    `expansion(q)` keeps the two views in sync: with `C` the points it
    claims (the free cells in the four directions up to the first obstacle,
    at most capacity steps and never past the edge), the source's frontier
    grows by exactly `C`, and exactly the cells of `C` get the source's
    number appended to their candidates; every other cell is unchanged.
   */
  lemma ExpansionSync(s: MapState, q: Point, p: Point)
    requires Shaped(s) && Inside(q, s.size) && Inside(p, s.size) && p != q
    ensures var (cap, n) := SourceOf(At(s, q));
            var c := Claim(s, q, AllDirections, cap);
            var r := Expanded(s, q);
            && At(r, q) == (if At(s, q).Pizzeria?
                            then At(s, q).(availableBlocks := At(s, q).availableBlocks + c)
                            else At(s, q))
            && At(r, p) == (if p in c then Unoccupied(At(s, p).candidates + [n]) else At(s, p))
  {
    var (cap, n) := SourceOf(At(s, q));
    AllDirectionsOnce();
    ExpandDirsSource(s, q, AllDirections, cap, n);
    ExpandDirsCell(s, q, AllDirections, cap, n, p);
  }

  // ---------------------------------------------------------------------
  // add_pizzeria

  /** The input's 1-based, bottom-origin position in the grid's own
      0-based, top-origin coordinates. */
  function SourcePoint(pos: Point, size: Size): (p: Point)
    ensures 1 <= pos.x <= size.x && 1 <= pos.y <= size.y ==> Inside(p, size)
  {
    SizeP(pos.x - 1, size.y - pos.y)
  }

  /** `add_pizzeria(pos, capacity, num)`. */
  function AddState(s: MapState, pos: Point, capacity: int, num: int): (r: MapState)
    requires Shaped(s) && 1 <= pos.x <= s.size.x && 1 <= pos.y <= s.size.y
    ensures Shaped(r) && r.size == s.size
  {
    var p := SourcePoint(pos, s.size);
    var s1 := SetAt(s, p, Pizzeria(num, capacity, (0, 0, 0, 0), []));
    Expanded(s1.(free := s1.free - 1, pizzeriasPos := s1.pizzeriasPos + [p]), p)
  }

  /**
    `add_pizzeria` stores the source at the flipped position with untouched
    counters and, as frontier, exactly the points its expansion claims;
    the free counter drops by exactly one and the position is appended to
    the list of sources, so source `k` sits at `pizzeriasPos[k]`.
   */
  lemma AddPizzeriaEffect(s: MapState, pos: Point, capacity: int, num: int)
    requires Shaped(s) && 1 <= pos.x <= s.size.x && 1 <= pos.y <= s.size.y
    ensures var p := SourcePoint(pos, s.size);
            var s1 := SetAt(s, p, Pizzeria(num, capacity, (0, 0, 0, 0), []));
            var r := AddState(s, pos, capacity, num);
            && r.free == s.free - 1
            && r.pizzeriasPos == s.pizzeriasPos + [p]
            && r.pizzeriasPos[|s.pizzeriasPos|] == p
            && At(r, p) == Pizzeria(num, capacity, (0, 0, 0, 0), Claim(s1, p, AllDirections, capacity))
  {
    var p := SourcePoint(pos, s.size);
    var s1 := SetAt(s, p, Pizzeria(num, capacity, (0, 0, 0, 0), []));
    var s2 := s1.(free := s1.free - 1, pizzeriasPos := s1.pizzeriasPos + [p]);
    assert At(s2, p) == Pizzeria(num, capacity, (0, 0, 0, 0), []);
    ExpandDirsSource(s2, p, AllDirections, capacity, num);
    ClaimSame(s2, s1, p, AllDirections, capacity);
    assert [] + Claim(s1, p, AllDirections, capacity) == Claim(s1, p, AllDirections, capacity);
  }

  // ---------------------------------------------------------------------
  // count_distance_and_shift and the straight-run commit

  /** The cells met walking from `pos` back to `pPos`, both ends included. */
  function Path(pos: Point, pPos: Point): (ps: seq<Point>)
    ensures |ps| == Manhattan(pos, pPos) + 1
  {
    Line(pos, WalkDirection(pos, pPos), 0, Manhattan(pos, pPos) + 1)
  }

  /** For a cell aligned with its source, the path runs inside the grid from
      the cell to the source without meeting any point twice. */
  lemma PathFacts(pos: Point, pPos: Point, size: Size)
    requires Aligned(pos, pPos) && Inside(pos, size) && Inside(pPos, size)
    ensures var ps := Path(pos, pPos);
            && ps[0] == pos && ps[|ps| - 1] == pPos && Distinct(ps)
            && forall p :: p in ps ==> Inside(p, size)
  {
    var d := WalkDirection(pos, pPos);
    var ps := Path(pos, pPos);
    LineFacts(pos, d, 0, |ps|);
    forall p | p in ps
      ensures Inside(p, size)
    {
      var k :| 0 <= k < |ps| && ps[k] == p;
      WalkStaysInside(pos, pPos, size, k);
    }
  }

  /** The count of `count_distance_and_shift`: 1 for the cell itself plus
      the free cells that follow it on the way to the source. */
  function Distance(s: MapState, pos: Point, pPos: Point): (n: nat)
    requires Shaped(s) && AllInside(s, Path(pos, pPos))
    ensures 1 <= n <= |Path(pos, pPos)|
  {
    1 + Run(s, Path(pos, pPos)[1..])
  }

  /** `self[c] = Occupied(num)` for every cell `c` of `cells`, in order. */
  function Occupy(s: MapState, cells: seq<Point>, num: int): (r: MapState)
    requires Shaped(s) && AllInside(s, cells)
    ensures Shaped(r) && r.size == s.size && r.free == s.free && r.pizzeriasPos == s.pizzeriasPos
    decreases |cells|
  {
    if cells == [] then s else Occupy(SetAt(s, cells[0], Occupied(num)), cells[1..], num)
  }

  /** Exactly the listed cells become `Occupied(num)`. */
  lemma {:induction false} OccupyCell(s: MapState, cells: seq<Point>, num: int, p: Point)
    requires Shaped(s) && AllInside(s, cells) && Inside(p, s.size)
    ensures At(Occupy(s, cells, num), p) == if p in cells then Occupied(num) else At(s, p)
    decreases |cells|
  {
    if cells != [] {
      OccupyCell(SetAt(s, cells[0], Occupied(num)), cells[1..], num, p);
      assert p in cells <==> p == cells[0] || p in cells[1..];
    }
  }

  // ---------------------------------------------------------------------
  // constriction

  /** The test of `constriction`: the point's distance from the source
      exceeds the remaining capacity plus the counter of its side. */
  predicate OutOfReach(b: Point, pPos: Point, cap: int, mv: Movement)
  {
    Abs(Sum(Sub(b, pPos))) > cap + SideCounter(mv, Sub(b, pPos))
  }

  /** `block_pos`: the frontier points found out of reach, in frontier order. */
  function Dropped(avail: seq<Point>, pPos: Point, cap: int, mv: Movement): (r: seq<Point>)
    ensures forall b :: b in r <==> b in avail && OutOfReach(b, pPos, cap, mv)
    decreases |avail|
  {
    if avail == [] then []
    else
      var last := avail[|avail| - 1];
      Dropped(avail[..|avail| - 1], pPos, cap, mv) + (if OutOfReach(last, pPos, cap, mv) then [last] else [])
  }

  /** The `retain` loop: every point listed in `gone` leaves the frontier. */
  function RetainAll(avail: seq<Point>, gone: seq<Point>): (r: seq<Point>)
    ensures forall b :: b in r <==> b in avail && b !in gone
    decreases |gone|
  {
    if gone == [] then avail else RetainAll(Without(avail, gone[0]), gone[1..])
  }

  /** The last loop of `constriction`: `num` leaves the candidates of every
      listed point that is still free (points off the grid are skipped;
      the source would stop there, and a valid map has none). */
  function Unlist(s: MapState, gone: seq<Point>, num: int): (r: MapState)
    requires Shaped(s)
    ensures Shaped(r) && r.size == s.size && r.free == s.free && r.pizzeriasPos == s.pizzeriasPos
    decreases |gone|
  {
    if gone == [] then s
    else
      var b := gone[0];
      var s1 := if Inside(b, s.size) && At(s, b).Unoccupied?
                then SetAt(s, b, Unoccupied(Without(At(s, b).candidates, num)))
                else s;
      Unlist(s1, gone[1..], num)
  }

  lemma {:induction false} UnlistCell(s: MapState, gone: seq<Point>, num: int, p: Point)
    requires Shaped(s) && Inside(p, s.size)
    ensures At(Unlist(s, gone, num), p)
            == if At(s, p).Unoccupied? && p in gone then Unoccupied(Without(At(s, p).candidates, num)) else At(s, p)
    decreases |gone|
  {
    if gone != [] {
      var b := gone[0];
      var s1 := if Inside(b, s.size) && At(s, b).Unoccupied?
                then SetAt(s, b, Unoccupied(Without(At(s, b).candidates, num)))
                else s;
      UnlistCell(s1, gone[1..], num, p);
      assert p in gone <==> p == b || p in gone[1..];
    }
  }

  /** The points `constriction` takes off the frontier of pizzeria block `b`
      at `pPos` after a commit of `diff` cells in direction `d`. */
  function Gone(b: MapBlock, pPos: Point, diff: int, d: Direction): seq<Point>
    requires b.Pizzeria?
  {
    Dropped(b.availableBlocks, pPos, b.capacity - diff, Bump(b.movement, d, diff))
  }

  /**
    The pizzeria block after `constriction`: the number stays, the capacity
    drops by exactly `diff`, exactly the counter of direction `d` rises by
    `diff`, and a frontier point stays exactly when it is not out of reach
    under the new capacity and counters.
   */
  function Narrowed(b: MapBlock, pPos: Point, diff: int, d: Direction): (c: MapBlock)
    requires b.Pizzeria?
    ensures c.Pizzeria? && c.num == b.num
    ensures c.capacity == b.capacity - diff
    ensures Counter(c.movement, Slot(d)) == Counter(b.movement, Slot(d)) + diff
    ensures forall i :: 0 <= i < 4 && i != Slot(d) ==> Counter(c.movement, i) == Counter(b.movement, i)
    ensures c.capacity + Total(c.movement) == b.capacity + Total(b.movement)
    ensures forall x :: x in c.availableBlocks <==>
              x in b.availableBlocks && !OutOfReach(x, pPos, c.capacity, c.movement)
  {
    var cap := b.capacity - diff;
    var mv := Bump(b.movement, d, diff);
    Pizzeria(b.num, cap, mv, RetainAll(b.availableBlocks, Gone(b, pPos, diff, d)))
  }

  /** `constriction(pPos, diff, d)` (nothing happens unless `pPos` holds a pizzeria). */
  function Constrict(s: MapState, pPos: Point, diff: int, d: Direction): (r: MapState)
    requires Shaped(s)
    ensures Shaped(r) && r.size == s.size && r.free == s.free && r.pizzeriasPos == s.pizzeriasPos
  {
    if Inside(pPos, s.size) && At(s, pPos).Pizzeria? then
      var b := At(s, pPos);
      Unlist(SetAt(s, pPos, Narrowed(b, pPos, diff, d)), Gone(b, pPos, diff, d), b.num)
    else
      s
  }

  /** `constriction` leaves the source holding its narrowed block. */
  lemma ConstrictSource(s: MapState, pPos: Point, diff: int, d: Direction)
    requires Shaped(s) && Inside(pPos, s.size) && At(s, pPos).Pizzeria?
    ensures At(Constrict(s, pPos, diff, d), pPos) == Narrowed(At(s, pPos), pPos, diff, d)
  {
    var b := At(s, pPos);
    UnlistCell(SetAt(s, pPos, Narrowed(b, pPos, diff, d)), Gone(b, pPos, diff, d), b.num, pPos);
  }

  /** What `constriction` does to every other cell: a free cell that was an
      out-of-reach frontier point loses the source's number from its
      candidates; every other cell is unchanged. */
  lemma ConstrictCell(s: MapState, pPos: Point, diff: int, d: Direction, p: Point)
    requires Shaped(s) && Inside(pPos, s.size) && At(s, pPos).Pizzeria?
    requires Inside(p, s.size) && p != pPos
    ensures var b := At(s, pPos);
            At(Constrict(s, pPos, diff, d), p)
              == if At(s, p).Unoccupied? && p in b.availableBlocks
                    && OutOfReach(p, pPos, b.capacity - diff, Bump(b.movement, d, diff))
                 then Unoccupied(Without(At(s, p).candidates, b.num))
                 else At(s, p)
  {
    var b := At(s, pPos);
    UnlistCell(SetAt(s, pPos, Narrowed(b, pPos, diff, d)), Gone(b, pPos, diff, d), b.num, p);
  }

  /** Whether `count_distance_and_shift` can walk from `pos` to the source
      of `num`: the number names a source on the grid, on the same row or
      column as `pos`. Every commit of a valid map satisfies it. */
  predicate CanCommit(s: MapState, pos: Point, num: int)
  {
    && 0 <= num < |s.pizzeriasPos|
    && Inside(s.pizzeriasPos[num], s.size)
    && Aligned(pos, s.pizzeriasPos[num])
  }

  /**
    The straight-run commit shared by `fill_obvious_blocks` and `place`:
    walk from `pos` toward the source of `num`, mark the `n` cells of the run
    `Occupied(num)`, lower the free counter by `n` and constrict the source
    by `n` in the walk's direction. (It leaves the map as it is where the
    source would walk off its line, which no valid map allows.)
   */
  function Commit(s: MapState, pos: Point, num: int): (r: MapState)
    requires Shaped(s) && Inside(pos, s.size)
    ensures Shaped(r) && r.size == s.size && r.pizzeriasPos == s.pizzeriasPos
  {
    if !CanCommit(s, pos, num) then s
    else
      var pPos := s.pizzeriasPos[num];
      Constrict(Walked(s, pos, pPos, num), pPos, Distance(s, pos, pPos), WalkDirection(pos, pPos))
  }

  /** The first half of a commit: the run of `count_distance_and_shift`
      is marked `Occupied(num)` and the free counter drops by its length. */
  function Walked(s: MapState, pos: Point, pPos: Point, num: int): (r: MapState)
    requires Shaped(s) && Aligned(pos, pPos) && Inside(pos, s.size) && Inside(pPos, s.size)
    ensures Shaped(r) && r.size == s.size && r.pizzeriasPos == s.pizzeriasPos
    ensures r.free == s.free - Distance(s, pos, pPos)
  {
    PathFacts(pos, pPos, s.size);
    var n := Distance(s, pos, pPos);
    var s1 := Occupy(s, Path(pos, pPos)[..n], num);
    s1.(free := s1.free - n)
  }

  // ---------------------------------------------------------------------
  // What a commit does

  /** For a cell aligned with a pizzeria, the walk stops before the source. */
  lemma DistanceBelowSource(s: MapState, pos: Point, pPos: Point)
    requires Shaped(s) && Aligned(pos, pPos) && Inside(pos, s.size) && Inside(pPos, s.size)
    requires At(s, pPos).Pizzeria?
    ensures AllInside(s, Path(pos, pPos)) && Distance(s, pos, pPos) <= Manhattan(pos, pPos)
  {
    PathFacts(pos, pPos, s.size);
    var ps := Path(pos, pPos)[1..];
    assert ps[|ps| - 1] == pPos;
  }

  /** What `count_distance_and_shift` finds: walking from `pos` toward its
      source, the first cell that is not free lies `Distance` steps away,
      on the grid and at most at the source; every cell before it is free. */
  lemma DistanceStops(s: MapState, pos: Point, pPos: Point)
    requires Shaped(s) && Aligned(pos, pPos) && Inside(pos, s.size) && Inside(pPos, s.size)
    requires At(s, pPos).Pizzeria?
    ensures var d := WalkDirection(pos, pPos);
            var n := Distance(s, pos, pPos);
            && 1 <= n <= Manhattan(pos, pPos)
            && Inside(Toward(pos, d, n), s.size) && !At(s, Toward(pos, d, n)).Unoccupied?
            && forall k :: 1 <= k < n ==> At(s, Toward(pos, d, k)).Unoccupied?
  {
    var d := WalkDirection(pos, pPos);
    var rest := Path(pos, pPos)[1..];
    var n := Distance(s, pos, pPos);
    DistanceBelowSource(s, pos, pPos);
    WalkStaysInside(pos, pPos, s.size, n);
    assert rest[n - 1] == Toward(pos, d, n);
    forall k | 1 <= k < n
      ensures At(s, Toward(pos, d, k)).Unoccupied?
    {
      assert rest[k - 1] == Toward(pos, d, k);
    }
  }

  /** Exactly the cells of the run become `Occupied(num)`; the source is not
      among them. */
  lemma WalkedCell(s: MapState, pos: Point, pPos: Point, num: int, p: Point)
    requires Shaped(s) && Aligned(pos, pPos) && Inside(pos, s.size) && Inside(pPos, s.size)
    requires At(s, pPos).Pizzeria? && Inside(p, s.size)
    ensures pPos !in Path(pos, pPos)[..Distance(s, pos, pPos)]
    ensures At(Walked(s, pos, pPos, num), p)
            == if p in Path(pos, pPos)[..Distance(s, pos, pPos)] then Occupied(num) else At(s, p)
  {
    var path := Path(pos, pPos);
    PathFacts(pos, pPos, s.size);
    DistanceBelowSource(s, pos, pPos);
    var n := Distance(s, pos, pPos);
    assert path[Manhattan(pos, pPos)] == pPos;
    OccupyCell(s, path[..n], num, p);
  }

  /**
    A commit from `pos` toward a pizzeria: the run has `n >= 1` cells and
    never reaches the source; exactly those `n` cells become
    `Occupied(num)`; the free counter drops by exactly `n`; the source
    holds its narrowed block; every other cell is left alone, except that
    a free out-of-reach frontier point loses the source's number.
   */
  lemma CommitEffect(s: MapState, pos: Point, num: int, p: Point)
    requires Shaped(s) && Inside(pos, s.size) && CanCommit(s, pos, num)
    requires At(s, s.pizzeriasPos[num]).Pizzeria? && Inside(p, s.size)
    ensures var pPos := s.pizzeriasPos[num];
            var b := At(s, pPos);
            var n := Distance(s, pos, pPos);
            var d := WalkDirection(pos, pPos);
            var r := Commit(s, pos, num);
            && n <= Manhattan(pos, pPos)
            && r.free == s.free - n
            && (p in Path(pos, pPos)[..n] ==> At(r, p) == Occupied(num))
            && (p == pPos ==> At(r, p) == Narrowed(b, pPos, n, d))
            && (p !in Path(pos, pPos)[..n] && p != pPos ==>
                  At(r, p) == if At(s, p).Unoccupied? && p in b.availableBlocks
                                 && OutOfReach(p, pPos, b.capacity - n, Bump(b.movement, d, n))
                              then Unoccupied(Without(At(s, p).candidates, b.num))
                              else At(s, p))
  {
    var pPos := s.pizzeriasPos[num];
    var n := Distance(s, pos, pPos);
    var w := Walked(s, pos, pPos, num);
    DistanceBelowSource(s, pos, pPos);
    WalkedCell(s, pos, pPos, num, pPos);
    WalkedCell(s, pos, pPos, num, p);
    if p == pPos {
      ConstrictSource(w, pPos, n, WalkDirection(pos, pPos));
    } else {
      ConstrictCell(w, pPos, n, WalkDirection(pos, pPos), p);
    }
  }

  /** The number of free cells among `ps`. */
  function FreeAmong(s: MapState, ps: seq<Point>): (k: nat)
    requires Shaped(s) && AllInside(s, ps)
    ensures k <= |ps|
    ensures (forall j :: 0 <= j < |ps| ==> At(s, ps[j]).Unoccupied?) ==> k == |ps|
    decreases |ps|
  {
    if ps == [] then 0 else (if At(s, ps[0]).Unoccupied? then 1 else 0) + FreeAmong(s, ps[1..])
  }

  lemma {:induction false} FreeAmongSame(s: MapState, t: MapState, ps: seq<Point>)
    requires Shaped(s) && Shaped(t) && s.size == t.size && AllInside(s, ps)
    requires forall p :: p in ps ==> At(s, p).Unoccupied? == At(t, p).Unoccupied?
    ensures FreeAmong(s, ps) == FreeAmong(t, ps)
    decreases |ps|
  {
    if ps != [] {
      FreeAmongSame(s, t, ps[1..]);
    }
  }

  /** Occupying distinct cells removes exactly the free ones among them. */
  lemma {:induction false} OccupyCount(s: MapState, cells: seq<Point>, num: int)
    requires Shaped(s) && AllInside(s, cells) && Distinct(cells)
    ensures CountUnoccupied(Occupy(s, cells, num)) + FreeAmong(s, cells) == CountUnoccupied(s)
    decreases |cells|
  {
    if cells != [] {
      var t := SetAt(s, cells[0], Occupied(num));
      CountSetAt(s, cells[0], Occupied(num));
      assert forall p :: p in cells[1..] ==> p != cells[0];
      FreeAmongSame(s, t, cells[1..]);
      OccupyCount(t, cells[1..], num);
    }
  }

  /** The run holds the starting cell and then `n - 1` free cells. */
  lemma RunFreeAmong(s: MapState, pos: Point, pPos: Point)
    requires Shaped(s) && Aligned(pos, pPos) && Inside(pos, s.size) && Inside(pPos, s.size)
    ensures var cells := Path(pos, pPos)[..Distance(s, pos, pPos)];
            && AllInside(s, cells) && Distinct(cells)
            && FreeAmong(s, cells) == Distance(s, pos, pPos) - 1 + (if At(s, pos).Unoccupied? then 1 else 0)
  {
    var path := Path(pos, pPos);
    PathFacts(pos, pPos, s.size);
    var n := Distance(s, pos, pPos);
    var cells := path[..n];
    SliceCons(path, n);
    var rest := path[1..][..n - 1];
    assert forall j :: 0 <= j < |rest| ==> At(s, rest[j]).Unoccupied?;
    assert cells[1..] == rest;
  }

  lemma {:induction false} UnlistCount(s: MapState, gone: seq<Point>, num: int)
    requires Shaped(s)
    ensures CountUnoccupied(Unlist(s, gone, num)) == CountUnoccupied(s)
    decreases |gone|
  {
    if gone != [] {
      var b := gone[0];
      if Inside(b, s.size) && At(s, b).Unoccupied? {
        CountSetAt(s, b, Unoccupied(Without(At(s, b).candidates, num)));
      }
      var s1 := if Inside(b, s.size) && At(s, b).Unoccupied?
                then SetAt(s, b, Unoccupied(Without(At(s, b).candidates, num)))
                else s;
      UnlistCount(s1, gone[1..], num);
    }
  }

  /** `constriction` never changes which cells are free. */
  lemma ConstrictCount(s: MapState, pPos: Point, diff: int, d: Direction)
    requires Shaped(s)
    ensures CountUnoccupied(Constrict(s, pPos, diff, d)) == CountUnoccupied(s)
  {
    if Inside(pPos, s.size) && At(s, pPos).Pizzeria? {
      var b := At(s, pPos);
      CountSetAt(s, pPos, Narrowed(b, pPos, diff, d));
      UnlistCount(SetAt(s, pPos, Narrowed(b, pPos, diff, d)), Gone(b, pPos, diff, d), b.num);
    }
  }

  /**
    A commit of a run of `n` cells frees up exactly `n - 1` cells past the
    starting one, plus the starting cell when it was free: so the number
    of free cells drops by exactly `n` when the commit starts on a free
    cell, as the free counter does.
   */
  lemma CommitCount(s: MapState, pos: Point, num: int)
    requires Shaped(s) && Inside(pos, s.size) && CanCommit(s, pos, num)
    ensures var n := Distance(s, pos, s.pizzeriasPos[num]);
            CountUnoccupied(Commit(s, pos, num)) + (n - 1) + (if At(s, pos).Unoccupied? then 1 else 0)
              == CountUnoccupied(s)
  {
    var pPos := s.pizzeriasPos[num];
    PathFacts(pos, pPos, s.size);
    var n := Distance(s, pos, pPos);
    RunFreeAmong(s, pos, pPos);
    OccupyCount(s, Path(pos, pPos)[..n], num);
    var w := Walked(s, pos, pPos, num);
    assert CountUnoccupied(w) == CountUnoccupied(Occupy(s, Path(pos, pPos)[..n], num));
    ConstrictCount(w, pPos, n, WalkDirection(pos, pPos));
  }
}
