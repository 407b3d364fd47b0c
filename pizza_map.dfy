/**
  Pizza: the map as the program keeps it, an object whose grid, free
  counter and list of sources are updated in place. Every method is
  proved to leave the object in the state the value-level definition of
  its step gives (pizza_state.dfy, pizza_fill.dfy), and the filling
  methods on a valid map (pizza_valid.dfy).
 */
module PizzaMap {
  import opened PizzaGeometry
  import opened PizzaState
  import opened PizzaFill
  import opened PizzaValid

  /** Every number of `nums` can be committed from every cell of `pos`:
      it names a source on the grid, on the cell's row or column. */
  ghost predicate Aims(s: MapState, pos: seq<Point>, nums: seq<int>)
  {
    forall p, m :: p in pos && m in nums ==> CanCommit(s, p, m)
  }

  class Map {
    var grid: seq<seq<MapBlock>>
    var size: Size
    var freeBlockCounter: int
    var pizzeriasPos: seq<Point>

    /** The map as a value. */
    function State(): MapState
      reads this
    {
      MapState(grid, size, freeBlockCounter, pizzeriasPos)
    }

    /** `Map::new(size)`: every cell free with no candidate, all of them
        counted free, no source yet. */
    constructor(size: Size)
      requires 0 <= size.x && 0 <= size.y
      ensures State() == NewState(size)
    {
      grid := seq(size.y, _ => seq(size.x, _ => Unoccupied([])));
      this.size := size;
      freeBlockCounter := size.x * size.y;
      pizzeriasPos := [];
    }

    /** `clone()`. */
    constructor Copy(other: Map)
      ensures State() == other.State()
    {
      grid := other.grid;
      size := other.size;
      freeBlockCounter := other.freeBlockCounter;
      pizzeriasPos := other.pizzeriasPos;
    }

    /** `self[p] = b`. */
    method Set(p: Point, b: MapBlock)
      modifies this
      requires Shaped(State()) && Inside(p, size)
      ensures State() == SetAt(old(State()), p, b)
    {
      grid := grid[p.y := grid[p.y][p.x := b]];
    }

    // -------------------------------------------------------------------
    // add_pizzeria and expansion

    /** `add_pizzeria(pos, capacity, num)`. */
    method AddPizzeria(pos: Point, capacity: int, num: int)
      modifies this
      requires Shaped(State()) && 1 <= pos.x <= size.x && 1 <= pos.y <= size.y
      ensures State() == AddState(old(State()), pos, capacity, num)
    {
      var p := SourcePoint(pos, size);
      Set(p, Pizzeria(num, capacity, (0, 0, 0, 0), []));
      freeBlockCounter := freeBlockCounter - 1;
      pizzeriasPos := pizzeriasPos + [p];
      Expansion(p);
    }

    /** One step of `expansion`: the free cell `p` gets candidate `n`,
        and the pizzeria at `q`, if there is one, gets `p` on its frontier. */
    method PushCell(q: Point, p: Point, n: int)
      modifies this
      requires Shaped(State()) && Inside(q, size) && Inside(p, size) && p != q
      requires At(State(), p).Unoccupied?
      ensures State() == Push(old(State()), q, p, n)
    {
      Set(p, Unoccupied(At(State(), p).candidates + [n]));
      if At(State(), q).Pizzeria? {
        Set(q, At(State(), q).(availableBlocks := At(State(), q).availableBlocks + [p]));
      }
    }

    /** The inner loop of `expansion` for one direction. */
    method ExpandDirection(q: Point, d: Direction, cap: int, n: int)
      modifies this
      requires Shaped(State()) && Inside(q, size)
      ensures State() == ExpandAlong(old(State()), q, Reachable(old(State()), q, d, cap), n)
    {
      ghost var s0 := State();
      ghost var ps := Reachable(s0, q, d, cap);
      var shift := GetShift(d);
      var g := GuaranteedArithmetic(cap, q, size, d);
      var i := 1;
      while i <= g
        invariant 1 <= i <= |ps| + 1
        invariant Shaped(State()) && size == s0.size && freeBlockCounter == s0.free && pizzeriasPos == s0.pizzeriasPos
        invariant ExpandAlong(State(), q, ps[i - 1..], n) == ExpandAlong(s0, q, ps, n)
      {
        var p := Add(q, Mul(shift, i));
        StepsAlong(q, d, i);
        assert p == ps[i - 1];
        if !At(State(), p).Unoccupied? {
          break;
        }
        PushCell(q, p, n);
        assert ps[i - 1..][1..] == ps[i..];
        i := i + 1;
      }
    }

    /** `expansion(q)`: the source's capacity and number are read once, then
        each direction in turn pushes its reachable free cells. */
    method Expansion(q: Point)
      modifies this
      requires Shaped(State()) && Inside(q, size)
      ensures State() == Expanded(old(State()), q)
    {
      ghost var s0 := State();
      var cap := 0;
      var n := 0;
      if At(State(), q).Pizzeria? {
        cap := At(State(), q).capacity;
        n := At(State(), q).num;
      }
      var dirs := AllDirections;
      var t := 0;
      while t < |dirs|
        invariant 0 <= t <= |dirs|
        invariant Shaped(State()) && size == s0.size && freeBlockCounter == s0.free && pizzeriasPos == s0.pizzeriasPos
        invariant ExpandDirs(State(), q, dirs[t..], cap, n) == Expanded(s0, q)
      {
        ExpandDirection(q, dirs[t], cap, n);
        assert dirs[t..][1..] == dirs[t + 1..];
        t := t + 1;
      }
    }

    // -------------------------------------------------------------------
    // count_distance_and_shift, the commit of a run, constriction

    /** `count_distance_and_shift(pos, pPos)`: the walk direction and the
        number of cells from `pos` up to the first cell that is not free. */
    method CountDistanceAndShift(pos: Point, pPos: Point) returns (count: int, dir: Direction)
      requires Shaped(State()) && Inside(pos, size) && Inside(pPos, size) && Aligned(pos, pPos)
      requires At(State(), pPos).Pizzeria?
      ensures dir == WalkDirection(pos, pPos)
      ensures AllInside(State(), Path(pos, pPos))
      ensures count == Distance(State(), pos, pPos)
      ensures 1 <= count <= Manhattan(pos, pPos)
      ensures Inside(Toward(pos, dir, count), size) && !At(State(), Toward(pos, dir, count)).Unoccupied?
      ensures forall k :: 1 <= k < count ==> At(State(), Toward(pos, dir, k)).Unoccupied?
    {
      ghost var s := State();
      dir := WalkDirection(pos, pPos);
      DistanceBelowSource(s, pos, pPos);
      DistanceStops(s, pos, pPos);
      var shift := GetShift(dir);
      count := 1;
      StepsAlong(pos, dir, 1);
      while At(State(), Add(pos, Mul(shift, count))).Unoccupied?
        invariant 1 <= count <= Distance(s, pos, pPos)
        invariant Add(pos, Mul(shift, count)) == Toward(pos, dir, count)
        decreases Manhattan(pos, pPos) - count
      {
        count := count + 1;
        StepsAlong(pos, dir, count);
      }
    }

    /**
      The straight-run commit of `fill_obvious_blocks` and `place`: walk
      from `pos` toward the source of `num`, mark the run `Occupied(num)`,
      take its length off the free counter and constrict the source.
     */
    method CommitRun(pos: Point, num: int)
      modifies this
      requires Shaped(State()) && Inside(pos, size) && CanCommit(State(), pos, num)
      requires At(State(), pizzeriasPos[num]).Pizzeria?
      ensures State() == Commit(old(State()), pos, num)
    {
      var pPos := pizzeriasPos[num];
      var n, dir := WalkRun(pos, pPos, num);
      Constriction(pPos, n, dir);
    }

    /** The first half of a commit: the run is marked `Occupied(num)` and
        the free counter drops by its length. */
    method WalkRun(pos: Point, pPos: Point, num: int) returns (n: int, dir: Direction)
      modifies this
      requires Shaped(State()) && Inside(pos, size) && Inside(pPos, size) && Aligned(pos, pPos)
      requires At(State(), pPos).Pizzeria?
      ensures State() == Walked(old(State()), pos, pPos, num)
      ensures n == Distance(old(State()), pos, pPos) && dir == WalkDirection(pos, pPos)
    {
      ghost var s0 := State();
      n, dir := CountDistanceAndShift(pos, pPos);
      var shift := GetShift(dir);
      ghost var run := Path(pos, pPos)[..n];
      var k := 0;
      while k < n
        invariant 0 <= k <= n
        invariant Shaped(State()) && size == s0.size && freeBlockCounter == s0.free && pizzeriasPos == s0.pizzeriasPos
        invariant Occupy(State(), run[k..], num) == Occupy(s0, run, num)
      {
        StepsAlong(pos, dir, k);
        assert Add(pos, Mul(shift, k)) == run[k];
        Set(Add(pos, Mul(shift, k)), Occupied(num));
        assert run[k..][1..] == run[k + 1..];
        k := k + 1;
      }
      freeBlockCounter := freeBlockCounter - n;
    }

    /** The first loop of `constriction`: the frontier points out of
        reach under the new capacity and counters, in frontier order. */
    static method OutOfReachPoints(avail: seq<Point>, pPos: Point, capacity: int, movement: Movement)
      returns (blockPos: seq<Point>)
      ensures blockPos == Dropped(avail, pPos, capacity, movement)
      ensures forall b :: b in blockPos <==> b in avail && OutOfReach(b, pPos, capacity, movement)
    {
      blockPos := [];
      var i := 0;
      while i < |avail|
        invariant 0 <= i <= |avail|
        invariant blockPos == Dropped(avail[..i], pPos, capacity, movement)
      {
        var block := avail[i];
        var mov := SideCounter(movement, Sub(block, pPos));
        if Abs(Sum(Sub(block, pPos))) > capacity + mov {
          blockPos := blockPos + [block];
        }
        assert avail[..i + 1][..i] == avail[..i];
        i := i + 1;
      }
      assert avail[..i] == avail;
    }

    /** The `retain` loop of `constriction`: each listed point leaves the
        frontier. */
    static method RetainEach(avail: seq<Point>, blockPos: seq<Point>) returns (kept: seq<Point>)
      ensures kept == RetainAll(avail, blockPos)
      ensures forall b :: b in kept <==> b in avail && b !in blockPos
    {
      kept := avail;
      var j := 0;
      while j < |blockPos|
        invariant 0 <= j <= |blockPos|
        invariant RetainAll(kept, blockPos[j..]) == RetainAll(avail, blockPos)
      {
        kept := Without(kept, blockPos[j]);
        assert blockPos[j..][1..] == blockPos[j + 1..];
        j := j + 1;
      }
    }

    /** The last loop of `constriction`: `n` leaves the candidates of every
        listed point that is still free. */
    method UnlistEach(blockPos: seq<Point>, n: int)
      modifies this
      requires Shaped(State())
      ensures State() == Unlist(old(State()), blockPos, n)
    {
      ghost var s0 := State();
      var k := 0;
      while k < |blockPos|
        invariant 0 <= k <= |blockPos|
        invariant Shaped(State()) && size == s0.size && freeBlockCounter == s0.free && pizzeriasPos == s0.pizzeriasPos
        invariant Unlist(State(), blockPos[k..], n) == Unlist(s0, blockPos, n)
      {
        var block := blockPos[k];
        if Inside(block, size) && At(State(), block).Unoccupied? {
          Set(block, Unoccupied(Without(At(State(), block).candidates, n)));
        }
        assert blockPos[k..][1..] == blockPos[k + 1..];
        k := k + 1;
      }
    }

    /** `constriction(pPos, diff, dir)`. */
    method Constriction(pPos: Point, diff: int, dir: Direction)
      modifies this
      requires Shaped(State()) && Inside(pPos, size)
      ensures State() == Constrict(old(State()), pPos, diff, dir)
    {
      var n := -1;
      var blockPos: seq<Point> := [];
      if At(State(), pPos).Pizzeria? {
        var b := At(State(), pPos);
        n := b.num;
        var capacity := b.capacity - diff;
        var movement := Bump(b.movement, dir, diff);
        blockPos := OutOfReachPoints(b.availableBlocks, pPos, capacity, movement);
        var kept := RetainEach(b.availableBlocks, blockPos);
        Set(pPos, Pizzeria(b.num, capacity, movement, kept));
      }
      UnlistEach(blockPos, n);
    }

    // -------------------------------------------------------------------
    // place, clear_unoccupied_and_pizzerias, correct_check, try_to_fill

    /** `place(pos, nums)`: cell `pos[i]` is committed toward source
        `nums[i]`, in order. */
    method Place(pos: seq<Point>, nums: seq<int>)
      modifies this
      requires Valid(State()) && Startable(State(), pos) && |nums| == |pos|
      requires forall i :: 0 <= i < |pos| ==> CanCommit(State(), pos[i], nums[i])
      ensures State() == PlaceState(old(State()), pos, nums)
    {
      ghost var s0 := State();
      var i := 0;
      while i < |pos|
        invariant 0 <= i <= |pos|
        invariant Valid(State()) && Startable(State(), pos)
        invariant State().size == s0.size && State().pizzeriasPos == s0.pizzeriasPos
        invariant PlaceState(State(), pos[i..], nums[i..]) == PlaceState(s0, pos, nums)
      {
        ghost var s := State();
        assert CanCommit(s, pos[i], nums[i]);
        CommitRun(pos[i], nums[i]);
        CommitDescends(s, pos[i], nums[i]);
        DescendsValid(s, State());
        StartableKept(s, State(), pos);
        assert pos[i..][1..] == pos[i + 1..] && nums[i..][1..] == nums[i + 1..];
        i := i + 1;
      }
    }

    /** `clear_unoccupied_and_pizzerias()`. */
    method ClearUnoccupiedAndPizzerias()
      modifies this
      requires Shaped(State())
      ensures State() == Cleared(old(State()))
    {
      ghost var s0 := State();
      var y := 0;
      while y < size.y
        invariant 0 <= y <= size.y
        invariant Shaped(State()) && size == s0.size && freeBlockCounter == s0.free && pizzeriasPos == s0.pizzeriasPos
        invariant ClearFrom(State(), y, 0) == Cleared(s0)
      {
        var x := 0;
        while x < size.x
          invariant 0 <= x <= size.x
          invariant Shaped(State()) && size == s0.size && freeBlockCounter == s0.free && pizzeriasPos == s0.pizzeriasPos
          invariant ClearFrom(State(), y, x) == Cleared(s0)
        {
          ghost var s := State();
          var p := SizeP(x, y);
          var b := At(State(), p);
          if b.Unoccupied? {
            Set(p, Unoccupied([]));
          } else if b.Pizzeria? {
            Set(p, b.(availableBlocks := []));
          } else {
            assert s.grid[y][x := b] == s.grid[y];
            assert SetAt(s, p, b) == s;
          }
          x := x + 1;
        }
        y := y + 1;
      }
    }

    /** One step of the first loop of `correct_check`: expand source `i`
        and take its share off `possible`; false when its capacity is
        negative, which fails the check. */
    method ExpandSource(i: nat, possible: int) returns (cont: bool, rest: int)
      modifies this
      requires Shaped(State()) && i < |pizzeriasPos| && Inside(pizzeriasPos[i], size)
      ensures Shaped(State()) && size == old(size) && pizzeriasPos == old(pizzeriasPos)
      ensures cont ==> CheckFrom(old(State()), i, possible) == CheckFrom(State(), i + 1, rest)
      ensures !cont ==> !CheckFrom(old(State()), i, possible)
    {
      ghost var s := State();
      var q := pizzeriasPos[i];
      Expansion(q);
      assert CheckFrom(s, i, possible)
             == (Contribution(At(State(), q)).Some? && CheckFrom(State(), i + 1, possible - Contribution(At(State(), q)).value));
      rest := possible;
      cont := true;
      if At(State(), q).Pizzeria? {
        var b := At(State(), q);
        rest := possible - Min(b.capacity, |b.availableBlocks|);
        if b.capacity < 0 {
          cont := false;
        }
      }
    }

    /** The last loop of `correct_check`: no free cell is left without a
        candidate. */
    method NoStarvedCell() returns (ok: bool)
      requires Shaped(State())
      ensures ok == NoneStarved(State())
    {
      var y := 0;
      while y < size.y
        invariant 0 <= y <= size.y
        invariant forall yy, xx | 0 <= yy < y && 0 <= xx < size.x ::
                    At(State(), SizeP(xx, yy)).Unoccupied? ==> At(State(), SizeP(xx, yy)).candidates != []
      {
        var x := 0;
        while x < size.x
          invariant 0 <= x <= size.x
          invariant forall xx | 0 <= xx < x ::
                      At(State(), SizeP(xx, y)).Unoccupied? ==> At(State(), SizeP(xx, y)).candidates != []
        {
          if At(State(), SizeP(x, y)).Unoccupied? && At(State(), SizeP(x, y)).candidates == [] {
            return false;
          }
          x := x + 1;
        }
        y := y + 1;
      }
      return true;
    }

    /** `correct_check(map)`, run on this map (a copy the caller gives up):
        the verdict on the map as it was. */
    method CorrectCheck() returns (ok: bool)
      modifies this
      requires Shaped(State()) && AllInside(State(), pizzeriasPos)
      ensures ok == Verdict(old(State()))
    {
      ghost var s0 := State();
      ClearUnoccupiedAndPizzerias();
      var possible := freeBlockCounter;
      var i := 0;
      while i < |pizzeriasPos|
        invariant 0 <= i <= |pizzeriasPos|
        invariant Shaped(State()) && size == s0.size && pizzeriasPos == s0.pizzeriasPos
        invariant CheckFrom(State(), i, possible) == Verdict(s0)
      {
        var cont;
        cont, possible := ExpandSource(i, possible);
        if !cont {
          return false;
        }
        i := i + 1;
      }
      ok := NoStarvedCell();
      ok := ok && possible == 0;
    }

    /** One trial of `try_to_fill`: place `pos` with `nums` on a copy of
        this map and check the copy; this map is left as it is. */
    method Trial(pos: seq<Point>, nums: seq<int>) returns (ok: bool)
      requires Valid(State()) && Startable(State(), pos) && |nums| == |pos|
      requires forall i :: 0 <= i < |pos| ==> CanCommit(State(), pos[i], nums[i])
      ensures ok == Verdict(PlaceState(State(), pos, nums))
    {
      var mapC := new Map.Copy(this);
      mapC.Place(pos, nums);
      ok := mapC.CorrectCheck();
    }

    /** The body of the loop of `try_to_fill` once the positions are
        rotated: a trial, and on success the same placement on this map. */
    method TryRotation(pos: seq<Point>, nums: seq<int>) returns (ok: bool)
      modifies this
      requires Valid(State()) && Startable(State(), pos) && |pos| <= |nums|
      requires Aims(State(), pos, nums)
      ensures ok == Passes(old(State()), pos, nums)
      ensures State() == if ok then PlaceState(old(State()), pos, nums[..|pos|]) else old(State())
    {
      var picked := nums[..|pos|];
      assert forall i :: 0 <= i < |pos| ==> pos[i] in pos && picked[i] in nums;
      ok := Trial(pos, picked);
      if ok {
        Place(pos, picked);
      }
    }

    /** `try_to_fill(pos, nums)`: for each number, rotate the positions
        right, place them on a copy with the first `|pos|` numbers and
        check the copy; the first rotation that passes is placed here. */
    method TryToFill(pos: seq<Point>, nums: seq<int>) returns (globalRes: bool)
      modifies this
      requires Valid(State()) && Startable(State(), pos) && (nums == [] || |pos| <= |nums|)
      requires Aims(State(), pos, nums)
      ensures (State(), globalRes) == TryFill(old(State()), pos, nums)
    {
      ghost var s0 := State();
      globalRes := false;
      var cur := pos;
      var t := 0;
      while t < |nums|
        invariant 0 <= t <= |nums|
        invariant State() == s0
        invariant |cur| == |pos| && Startable(s0, cur) && Aims(s0, cur, nums)
        invariant nums != [] ==> TryFrom(s0, cur, nums, t) == TryFill(s0, pos, nums)
      {
        ghost var prev := cur;
        cur := RotateRight(cur);
        var ok := TryRotation(cur, nums);
        assert TryFrom(s0, prev, nums, t)
               == if ok then (PlaceState(s0, cur, nums[..|cur|]), true) else TryFrom(s0, cur, nums, t + 1);
        if ok {
          globalRes := true;
          return;
        }
        t := t + 1;
      }
    }

    // -------------------------------------------------------------------
    // find_pair

    /** `find_pair(list, pos)`: the first free cell in row-major order,
        other than `pos`, that shares exactly two numbers with `list`,
        with those numbers; `(-1, -1)` and nothing if there is none. */
    method FindPair(list: seq<int>, pos: Point) returns (r: SizeP, v: seq<int>)
      requires Shaped(State())
      ensures (r, v) == FindPairOf(State(), list, pos)
      ensures r == SizeP(-1, -1) ==> v == [] && forall p {:trigger PairAt(State(), list, pos, p)} :: Inside(p, size) ==> !PairAt(State(), list, pos, p)
      ensures r != SizeP(-1, -1) ==> Inside(r, size) && PairAt(State(), list, pos, r)
                                     && v == Intersection(list, At(State(), r).candidates) && |v| == 2
    {
      var y := 0;
      while y < size.y
        invariant 0 <= y <= size.y
        invariant FindPairFrom(State(), list, pos, y, 0) == FindPairOf(State(), list, pos)
      {
        var x := 0;
        while x < size.x
          invariant 0 <= x <= size.x
          invariant FindPairFrom(State(), list, pos, y, x) == FindPairOf(State(), list, pos)
        {
          var p := SizeP(x, y);
          if p != pos && At(State(), p).Unoccupied? {
            var vi := Intersection(list, At(State(), p).candidates);
            if |vi| == 2 {
              return p, vi;
            }
          }
          x := x + 1;
        }
        y := y + 1;
      }
      return SizeP(-1, -1), [];
    }

    // -------------------------------------------------------------------
    // fill_obvious_blocks

    /** The body of the sweep of `fill_obvious_blocks` at cell `p`. */
    method ObviousCell(p: Point) returns (c: bool)
      modifies this
      requires Valid(State()) && Inside(p, size)
      ensures (State(), c) == ObviousAt(old(State()), p)
    {
      var num := -1;
      var b := At(State(), p);
      if b.Unoccupied? && |b.candidates| == 1 {
        num := b.candidates[0];
      }
      if num != -1 {
        CandidateCommits(State(), p, num);
        CommitRun(p, num);
        c := true;
      } else {
        c := false;
      }
    }

    /** One row of the sweep of `fill_obvious_blocks`; `f` tells whether
        the sweep has committed anything yet. */
    method ObviousRow(y: int, f: bool) returns (res: bool)
      modifies this
      requires Valid(State()) && 0 <= y < size.y
      ensures Valid(State()) && size == old(size)
      ensures SweepFrom(State(), y + 1, 0, res) == SweepFrom(old(State()), y, 0, f)
    {
      ghost var s0 := State();
      res := f;
      var x := 0;
      while x < size.x
        invariant 0 <= x <= size.x
        invariant Valid(State()) && size == s0.size
        invariant SweepFrom(State(), y, x, res) == SweepFrom(s0, y, 0, f)
      {
        ghost var s := State();
        var c := ObviousCell(SizeP(x, y));
        assert SweepFrom(s, y, x, res) == SweepFrom(State(), y, x + 1, res || c);
        ObviousDescends(s, SizeP(x, y));
        DescendsValid(s, State());
        res := res || c;
        x := x + 1;
      }
    }

    /** One row-major sweep of `fill_obvious_blocks`: whether it committed
        any cell. */
    method ObviousSweep() returns (res: bool)
      modifies this
      requires Valid(State())
      ensures (State(), res) == SweepFrom(old(State()), 0, 0, false)
    {
      ghost var s0 := State();
      res := false;
      var y := 0;
      while y < size.y
        invariant 0 <= y <= size.y
        invariant Valid(State()) && size == s0.size
        invariant SweepFrom(State(), y, 0, res) == SweepFrom(s0, 0, 0, false)
      {
        res := ObviousRow(y, res);
        y := y + 1;
      }
    }

    /** `fill_obvious_blocks()`: sweep until a sweep commits nothing; true
        when anything was committed. */
    method FillObviousBlocks() returns (globalRes: bool)
      modifies this
      requires Valid(State())
      ensures (State(), globalRes) == FillObvious(old(State()))
    {
      ghost var s0 := State();
      globalRes := false;
      var res := true;
      while res
        invariant Valid(State())
        invariant res ==> RoundsFrom(State(), globalRes) == RoundsFrom(s0, false)
        invariant !res ==> (State(), globalRes) == RoundsFrom(s0, false)
        decreases if res then CountUnoccupied(State()) + 1 else 0
      {
        ghost var s := State();
        res := ObviousSweep();
        SweepDescends(s, 0, 0, false);
        DescendsValid(s, State());
        globalRes := globalRes || res;
      }
    }

    // -------------------------------------------------------------------
    // try_to_find_pairs, the single-cell pass and fill_map

    /** The body of `try_to_find_pairs` at cell `p`. */
    method PairCell(p: Point)
      modifies this
      requires Valid(State()) && Inside(p, size)
      ensures State() == PairTrial(old(State()), p)
    {
      ghost var s := State();
      var pairPos := SizeP(-1, -1);
      var nums: seq<int> := [];
      if At(State(), p).Unoccupied? {
        pairPos, nums := FindPair(At(State(), p).candidates, p);
      }
      if pairPos != SizeP(-1, -1) {
        forall c, m | c in [p, pairPos] && m in nums
          ensures CanCommit(s, c, m)
        {
          CandidateCommits(s, c, m);
        }
        var _ := TryToFill([p, pairPos], nums);
      }
    }

    /** `try_to_find_pairs()`. */
    method TryToFindPairs()
      modifies this
      requires Valid(State())
      ensures State() == PairsFrom(old(State()), 0, 0)
    {
      ghost var s0 := State();
      var y := 0;
      while y < size.y
        invariant 0 <= y <= size.y
        invariant Valid(State()) && size == s0.size
        invariant PairsFrom(State(), y, 0) == PairsFrom(s0, 0, 0)
      {
        var x := 0;
        while x < size.x
          invariant 0 <= x <= size.x
          invariant Valid(State()) && size == s0.size
          invariant PairsFrom(State(), y, x) == PairsFrom(s0, 0, 0)
        {
          ghost var s := State();
          PairCell(SizeP(x, y));
          PairTrialDescends(s, SizeP(x, y));
          DescendsValid(s, State());
          x := x + 1;
        }
        y := y + 1;
      }
    }

    /** The body of the single-cell pass of `fill_map` at cell `p`. */
    method SingleCell(p: Point) returns (ok: bool)
      modifies this
      requires Valid(State()) && Inside(p, size)
      ensures (State(), ok) == SingleTrial(old(State()), p)
    {
      ghost var s := State();
      var pList: seq<int> := [];
      if At(State(), p).Unoccupied? {
        pList := At(State(), p).candidates;
      }
      ok := false;
      if pList != [] {
        forall c, m | c in [p] && m in pList
          ensures CanCommit(s, c, m)
        {
          CandidateCommits(s, c, m);
        }
        ok := TryToFill([p], pList);
      }
    }

    /** One row of the single-cell pass of `fill_map`. */
    method SinglesRow(y: int, g: bool) returns (res: bool)
      modifies this
      requires Valid(State()) && 0 <= y < size.y
      ensures Valid(State()) && size == old(size)
      ensures SinglesFrom(State(), y + 1, 0, res) == SinglesFrom(old(State()), y, 0, g)
    {
      ghost var s0 := State();
      res := g;
      var x := 0;
      while x < size.x
        invariant 0 <= x <= size.x
        invariant Valid(State()) && size == s0.size
        invariant SinglesFrom(State(), y, x, res) == SinglesFrom(s0, y, 0, g)
      {
        ghost var s := State();
        var ok := SingleCell(SizeP(x, y));
        assert SinglesFrom(s, y, x, res) == SinglesFrom(State(), y, x + 1, res || ok);
        SingleTrialProgress(s, SizeP(x, y));
        DescendsValid(s, State());
        res := res || ok;
        x := x + 1;
      }
    }

    /** The single-cell pass of `fill_map`, `g` being the outcome of
        `fill_obvious_blocks`. */
    method SinglesPass(g: bool) returns (globalRes: bool)
      modifies this
      requires Valid(State())
      ensures (State(), globalRes) == SinglesFrom(old(State()), 0, 0, g)
    {
      ghost var s0 := State();
      globalRes := g;
      var y := 0;
      while y < size.y
        invariant 0 <= y <= size.y
        invariant Valid(State()) && size == s0.size
        invariant SinglesFrom(State(), y, 0, globalRes) == SinglesFrom(s0, 0, 0, g)
      {
        globalRes := SinglesRow(y, globalRes);
        y := y + 1;
      }
    }

    /** One pass of the loop of `fill_map`. */
    method FillRound() returns (globalRes: bool)
      modifies this
      requires Valid(State())
      ensures (State(), globalRes) == Round(old(State()))
    {
      ghost var s0 := State();
      var g1 := FillObviousBlocks();
      RoundsDescends(s0, false);
      DescendsValid(s0, State());
      TryToFindPairs();
      ghost var s2 := State();
      PairsDescends(FillObvious(s0).0, 0, 0);
      DescendsValid(FillObvious(s0).0, s2);
      globalRes := SinglesPass(g1);
    }

    /** `fill_map()`. */
    method FillMap()
      modifies this
      requires Valid(State())
      ensures State() == FillFrom(old(State()))
    {
      ghost var s0 := State();
      var globalRes := true;
      while freeBlockCounter != 0 && globalRes
        invariant Valid(State())
        invariant globalRes ==> FillFrom(State()) == FillFrom(s0)
        invariant !globalRes ==> State() == FillFrom(s0)
        decreases CountUnoccupied(State()) + (if globalRes then 1 else 0)
      {
        globalRes := FillRound();
      }
    }
  }
}
