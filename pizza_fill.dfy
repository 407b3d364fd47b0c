/**
  Pizza: the value-level definition of the trial machinery (`place`,
  `clear_unoccupied_and_pizzerias`, `correct_check`, `try_to_fill`,
  `find_pair`) and of the row-major sweeps of `fill_obvious_blocks`,
  `try_to_find_pairs` and the single-cell pass of `fill_map`.
 */
module PizzaFill {
  import opened PizzaGeometry
  import opened PizzaState

  datatype Option<T> = None | Some(value: T)

  /** `p` comes before the cell `(x, y)` in row-major order. */
  predicate Before(p: Point, y: int, x: int)
  {
    p.y < y || (p.y == y && p.x < x)
  }

  // ---------------------------------------------------------------------
  // place

  /** `place(pos, nums)`: one commit per position, in order, each toward
      the source numbered alongside it. */
  function PlaceState(s: MapState, pos: seq<Point>, nums: seq<int>): (r: MapState)
    requires Shaped(s) && AllInside(s, pos) && |nums| == |pos|
    ensures Shaped(r) && r.size == s.size && r.pizzeriasPos == s.pizzeriasPos
    decreases |pos|
  {
    if pos == [] then s else PlaceState(Commit(s, pos[0], nums[0]), pos[1..], nums[1..])
  }

  // ---------------------------------------------------------------------
  // clear_unoccupied_and_pizzerias

  /** Candidate lists and frontiers are emptied; everything else stays. */
  function ClearBlock(b: MapBlock): (c: MapBlock)
    ensures c.Unoccupied? == b.Unoccupied? && c.Pizzeria? == b.Pizzeria? && c.Occupied? == b.Occupied?
    ensures c.Unoccupied? ==> c.candidates == []
    ensures c.Pizzeria? ==> c == b.(availableBlocks := [])
    ensures c.Occupied? ==> c == b
  {
    match b
    case Unoccupied(_) => Unoccupied([])
    case Pizzeria(n, cap, mv, _) => Pizzeria(n, cap, mv, [])
    case Occupied(_) => b
  }

  /** The clearing scan from cell `(x, y)` on. */
  function ClearFrom(s: MapState, y: int, x: int): (r: MapState)
    requires Shaped(s) && 0 <= y <= s.size.y && 0 <= x <= s.size.x
    ensures Shaped(r) && r.size == s.size && r.free == s.free && r.pizzeriasPos == s.pizzeriasPos
    decreases s.size.y - y, s.size.x - x
  {
    if y == s.size.y then s
    else if x == s.size.x then ClearFrom(s, y + 1, 0)
    else ClearFrom(SetAt(s, SizeP(x, y), ClearBlock(At(s, SizeP(x, y)))), y, x + 1)
  }

  function Cleared(s: MapState): (r: MapState)
    requires Shaped(s)
    ensures Shaped(r) && r.size == s.size && r.free == s.free && r.pizzeriasPos == s.pizzeriasPos
  {
    ClearFrom(s, 0, 0)
  }

  /** The scan clears exactly the cells from `(x, y)` on. */
  lemma {:induction false} ClearFromCell(s: MapState, y: int, x: int, p: Point)
    requires Shaped(s) && 0 <= y <= s.size.y && 0 <= x <= s.size.x && Inside(p, s.size)
    ensures At(ClearFrom(s, y, x), p) == if Before(p, y, x) then At(s, p) else ClearBlock(At(s, p))
    decreases s.size.y - y, s.size.x - x
  {
    if y == s.size.y {
    } else if x == s.size.x {
      ClearFromCell(s, y + 1, 0, p);
    } else {
      ClearFromCell(SetAt(s, SizeP(x, y), ClearBlock(At(s, SizeP(x, y)))), y, x + 1, p);
    }
  }

  /** `clear_unoccupied_and_pizzerias` empties every candidate list and
      every frontier and changes nothing else. */
  lemma ClearedCell(s: MapState, p: Point)
    requires Shaped(s) && Inside(p, s.size)
    ensures At(Cleared(s), p) == ClearBlock(At(s, p))
  {
    ClearFromCell(s, 0, 0, p);
  }

  // ---------------------------------------------------------------------
  // correct_check

  /** No free cell is left without a candidate. */
  predicate NoneStarved(s: MapState)
    requires Shaped(s)
  {
    forall y, x | 0 <= y < s.size.y && 0 <= x < s.size.x ::
      At(s, SizeP(x, y)).Unoccupied? ==> At(s, SizeP(x, y)).candidates != []
  }

  /** What the block found at a source takes from the free counter in
      `correct_check`: `min(capacity, |frontier|)` for a pizzeria, nothing
      for any other block, and `None` (the check fails) for a pizzeria whose
      capacity has gone negative. */
  function Contribution(b: MapBlock): (r: Option<int>)
    ensures r.None? <==> b.Pizzeria? && b.capacity < 0
    ensures r.Some? ==> 0 <= r.value
    ensures r.Some? && b.Pizzeria? ==> r.value <= b.capacity && r.value <= |b.availableBlocks|
    ensures r.Some? && b.Pizzeria? ==> r.value == b.capacity || r.value == |b.availableBlocks|
  {
    if !b.Pizzeria? then Some(0)
    else if b.capacity < 0 then None
    else Some(Min(b.capacity, |b.availableBlocks|))
  }

  /**
    The loop of `correct_check` from source `i` on, with `possible` free
    cells not yet accounted for: expand source `i`, charge
    `min(capacity, |frontier|)` and fail on a negative capacity; after
    the last source, require no starved cell and nothing left over. (A
    source off the grid fails; the source program would stop there.)
   */
  function CheckFrom(s: MapState, i: nat, possible: int): bool
    requires Shaped(s) && i <= |s.pizzeriasPos|
    decreases |s.pizzeriasPos| - i
  {
    if i == |s.pizzeriasPos| then NoneStarved(s) && possible == 0
    else if !Inside(s.pizzeriasPos[i], s.size) then false
    else
      var s1 := Expanded(s, s.pizzeriasPos[i]);
      var c := Contribution(At(s1, s.pizzeriasPos[i]));
      c.Some? && CheckFrom(s1, i + 1, possible - c.value)
  }

  /** `correct_check(map)`: run on the cleared copy of the map. */
  predicate Verdict(s: MapState)
    requires Shaped(s)
  {
    CheckFrom(Cleared(s), 0, s.free)
  }

  /** The map `correct_check` reaches: sources `i..` expanded in turn. */
  function ExpandAll(s: MapState, i: nat): (r: MapState)
    requires Shaped(s) && AllInside(s, s.pizzeriasPos) && i <= |s.pizzeriasPos|
    ensures Shaped(r) && r.size == s.size && r.free == s.free && r.pizzeriasPos == s.pizzeriasPos
    decreases |s.pizzeriasPos| - i
  {
    if i == |s.pizzeriasPos| then s else ExpandAll(Expanded(s, s.pizzeriasPos[i]), i + 1)
  }

  /** Whether the block at source position `k` is a pizzeria. */
  predicate SourceAt(s: MapState, k: int)
    requires Shaped(s)
  {
    0 <= k < |s.pizzeriasPos| && Inside(s.pizzeriasPos[k], s.size) && At(s, s.pizzeriasPos[k]).Pizzeria?
  }

  /** What source `k` of `s` takes from the free counter. */
  function Share(s: MapState, k: int): Option<int>
    requires Shaped(s)
  {
    if SourceAt(s, k) then Contribution(At(s, s.pizzeriasPos[k])) else Some(0)
  }

  /** No source from `i` on has a negative capacity. */
  predicate CapacitiesOk(s: MapState, i: nat)
    requires Shaped(s)
  {
    forall k :: i <= k < |s.pizzeriasPos| ==> Share(s, k).Some?
  }

  /** The free cells the sources from `i` on can still take:
      `min(capacity, |frontier|)` each. */
  function Claimed(s: MapState, i: nat): int
    requires Shaped(s) && CapacitiesOk(s, i)
    decreases |s.pizzeriasPos| - i
  {
    if i >= |s.pizzeriasPos| then 0 else Share(s, i).value + Claimed(s, i + 1)
  }

  /** The condition `correct_check` tests, stated on the fully expanded map `e`. */
  predicate Meets(e: MapState, i: nat, possible: int)
    requires Shaped(e)
  {
    CapacitiesOk(e, i) && NoneStarved(e) && possible == Claimed(e, i)
  }

  /** Expanding other sources never changes a cell that is not free, and
      a free cell stays free. */
  lemma {:induction false} ExpandAllKeeps(s: MapState, i: nat, p: Point)
    requires Shaped(s) && AllInside(s, s.pizzeriasPos) && i <= |s.pizzeriasPos|
    requires Inside(p, s.size) && p !in s.pizzeriasPos[i..]
    ensures At(s, p).Unoccupied? ==> At(ExpandAll(s, i), p).Unoccupied?
    ensures !At(s, p).Unoccupied? ==> At(ExpandAll(s, i), p) == At(s, p)
    decreases |s.pizzeriasPos| - i
  {
    if i < |s.pizzeriasPos| {
      var q := s.pizzeriasPos[i];
      assert p != q;
      ExpansionSync(s, q, p);
      assert s.pizzeriasPos[i + 1..] == s.pizzeriasPos[i..][1..];
      ExpandAllKeeps(Expanded(s, q), i + 1, p);
    }
  }

  /** A source's block is final once it has been expanded: the later
      expansions leave it as it is, so what it takes can be read off the
      fully expanded map. */
  lemma ExpandAllSource(s: MapState, i: nat)
    requires Shaped(s) && AllInside(s, s.pizzeriasPos) && Distinct(s.pizzeriasPos) && i < |s.pizzeriasPos|
    ensures var q := s.pizzeriasPos[i];
            var s1 := Expanded(s, q);
            var e := ExpandAll(s, i);
            && e == ExpandAll(s1, i + 1)
            && Share(e, i) == Contribution(At(s1, q))
  {
    var q := s.pizzeriasPos[i];
    assert q !in s.pizzeriasPos[i + 1..];
    ExpandAllKeeps(Expanded(s, q), i + 1, q);
  }

  lemma MeetsStep(e: MapState, i: nat, possible: int)
    requires Shaped(e) && i < |e.pizzeriasPos|
    ensures var c := Share(e, i);
            Meets(e, i, possible) == (c.Some? && Meets(e, i + 1, possible - c.value))
  {
  }

  /** One round of `correct_check`, read forwards ... */
  lemma CheckFromNext(s: MapState, i: nat, possible: int)
    requires Shaped(s) && AllInside(s, s.pizzeriasPos) && i < |s.pizzeriasPos|
    ensures var s1 := Expanded(s, s.pizzeriasPos[i]);
            var c := Contribution(At(s1, s.pizzeriasPos[i]));
            CheckFrom(s, i, possible) ==> c.Some? && CheckFrom(s1, i + 1, possible - c.value)
  {
  }

  /** ... and backwards. */
  lemma CheckFromBack(s: MapState, i: nat, possible: int)
    requires Shaped(s) && AllInside(s, s.pizzeriasPos) && i < |s.pizzeriasPos|
    ensures var s1 := Expanded(s, s.pizzeriasPos[i]);
            var c := Contribution(At(s1, s.pizzeriasPos[i]));
            c.Some? && CheckFrom(s1, i + 1, possible - c.value) ==> CheckFrom(s, i, possible)
  {
  }

  lemma {:induction false} CheckFromMeaning(s: MapState, i: nat, possible: int)
    requires Shaped(s) && AllInside(s, s.pizzeriasPos) && Distinct(s.pizzeriasPos) && i <= |s.pizzeriasPos|
    ensures CheckFrom(s, i, possible) == Meets(ExpandAll(s, i), i, possible)
    decreases |s.pizzeriasPos| - i
  {
    if i < |s.pizzeriasPos| {
      var q := s.pizzeriasPos[i];
      var s1 := Expanded(s, q);
      var c := Contribution(At(s1, q));
      ExpandAllSource(s, i);
      MeetsStep(ExpandAll(s, i), i, possible);
      CheckFromNext(s, i, possible);
      CheckFromBack(s, i, possible);
      if c.Some? {
        CheckFromMeaning(s1, i + 1, possible - c.value);
      }
    }
  }

  /**
    What `correct_check` decides: with every source of the cleared map
    expanded in turn, no capacity is negative, every free cell keeps a
    candidate, and the free counter equals the sum over the sources of
    `min(capacity, |frontier|)`.
   */
  lemma VerdictMeaning(s: MapState)
    requires Shaped(s) && AllInside(s, s.pizzeriasPos) && Distinct(s.pizzeriasPos)
    ensures Verdict(s) == Meets(ExpandAll(Cleared(s), 0), 0, s.free)
  {
    CheckFromMeaning(Cleared(s), 0, s.free);
  }

  // ---------------------------------------------------------------------
  // try_to_fill

  /** `Vec::rotate_right(1)`: the last element moves to the front and the
      others move one place up. */
  function RotateRight<T(==, !new)>(xs: seq<T>): (r: seq<T>)
    ensures |r| == |xs|
    ensures xs != [] ==> r[0] == xs[|xs| - 1] && forall i :: 0 <= i < |xs| - 1 ==> r[i + 1] == xs[i]
    ensures forall x :: x in r <==> x in xs
  {
    if xs == [] then []
    else
      assert xs == xs[..|xs| - 1] + [xs[|xs| - 1]];
      [xs[|xs| - 1]] + xs[..|xs| - 1]
  }

  /** `xs` rotated right `k` times. */
  function Rotated<T(==, !new)>(xs: seq<T>, k: nat): (r: seq<T>)
    ensures |r| == |xs|
    ensures forall x :: x in r <==> x in xs
  {
    if k == 0 then xs else RotateRight(Rotated(xs, k - 1))
  }

  /** One trial: place the rotated positions on a copy and check it. */
  predicate Passes(s: MapState, pos: seq<Point>, nums: seq<int>)
    requires Shaped(s)
  {
    AllInside(s, pos) && |pos| <= |nums| && Verdict(PlaceState(s, pos, nums[..|pos|]))
  }

  /** The trials of `try_to_fill` from trial `t` on, `pos` being the
      positions as rotated so far: the first rotation whose placement
      passes is placed on the live map; if none does, it stays as it was. */
  function TryFrom(s: MapState, pos: seq<Point>, nums: seq<int>, t: nat): (r: (MapState, bool))
    requires Shaped(s) && AllInside(s, pos) && |pos| <= |nums| && t <= |nums|
    ensures Shaped(r.0) && r.0.size == s.size && r.0.pizzeriasPos == s.pizzeriasPos
    ensures !r.1 ==> r.0 == s
    decreases |nums| - t
  {
    if t == |nums| then (s, false)
    else
      var rot := RotateRight(pos);
      if Passes(s, rot, nums) then (PlaceState(s, rot, nums[..|rot|]), true)
      else TryFrom(s, rot, nums, t + 1)
  }

  /** `try_to_fill(pos, nums)`; with no numbers there is no trial at all. */
  function TryFill(s: MapState, pos: seq<Point>, nums: seq<int>): (r: (MapState, bool))
    requires Shaped(s) && AllInside(s, pos) && (nums == [] || |pos| <= |nums|)
    ensures Shaped(r.0) && r.0.size == s.size && r.0.pizzeriasPos == s.pizzeriasPos
    ensures !r.1 ==> r.0 == s
  {
    if nums == [] then (s, false) else TryFrom(s, pos, nums, 0)
  }

  lemma {:induction false} TryFromPassed(s: MapState, pos: seq<Point>, nums: seq<int>, t: nat)
    requires Shaped(s) && AllInside(s, pos) && |pos| <= |nums| && t <= |nums|
    ensures TryFrom(s, pos, nums, t).1 ==> Verdict(TryFrom(s, pos, nums, t).0)
    decreases |nums| - t
  {
    if t < |nums| && !Passes(s, RotateRight(pos), nums) {
      TryFromPassed(s, RotateRight(pos), nums, t + 1);
    }
  }

  /** A trial of `try_to_fill` changes the live map only to a map that
      passed the check. */
  lemma TryFillPassed(s: MapState, pos: seq<Point>, nums: seq<int>)
    requires Shaped(s) && AllInside(s, pos) && (nums == [] || |pos| <= |nums|)
    ensures TryFill(s, pos, nums).1 ==> Verdict(TryFill(s, pos, nums).0)
  {
    if nums != [] {
      TryFromPassed(s, pos, nums, 0);
    }
  }

  lemma {:induction false} RotatedSingle<T(!new)>(x: T, k: nat)
    ensures Rotated([x], k) == [x]
  {
    if k > 0 {
      RotatedSingle(x, k - 1);
    }
  }

  lemma {:induction false} TryFromSingle(s: MapState, p: Point, nums: seq<int>, t: nat)
    requires Shaped(s) && Inside(p, s.size) && 1 <= |nums| && t <= |nums|
    ensures TryFrom(s, [p], nums, t)
            == if t < |nums| && Passes(s, [p], nums) then (PlaceState(s, [p], [nums[0]]), true) else (s, false)
    decreases |nums| - t
  {
    if t < |nums| {
      RotatedSingle(p, 1);
      assert nums[..1] == [nums[0]];
      TryFromSingle(s, p, nums, t + 1);
    }
  }

  /** The single-cell quirk: with one position the rotation changes nothing
      and the numbers are cut to the first, so every trial places the
      cell for its first candidate; the others are never tried. */
  lemma SingleTriesFirstOnly(s: MapState, p: Point, nums: seq<int>)
    requires Shaped(s) && Inside(p, s.size) && nums != []
    ensures TryFill(s, [p], nums)
            == if Verdict(PlaceState(s, [p], [nums[0]])) then (PlaceState(s, [p], [nums[0]]), true) else (s, false)
  {
    TryFromSingle(s, p, nums, 0);
    assert nums[..1] == [nums[0]];
  }

  // ---------------------------------------------------------------------
  // find_pair

  /** `vector_intersection(v1, v2)`: the entries of `v1` also in `v2`, in
      `v1`'s order. */
  function Intersection(v1: seq<int>, v2: seq<int>): (r: seq<int>)
    ensures forall x :: x in r <==> x in v1 && x in v2
    ensures |r| <= |v1|
  {
    if v1 == [] then []
    else (if v1[0] in v2 then [v1[0]] else []) + Intersection(v1[1..], v2)
  }

  /** A cell `find_pair` accepts: another free cell sharing exactly two
      numbers with `list`. */
  predicate PairAt(s: MapState, list: seq<int>, pos: Point, p: Point)
    requires Shaped(s) && Inside(p, s.size)
  {
    p != pos && At(s, p).Unoccupied? && |Intersection(list, At(s, p).candidates)| == 2
  }

  /** The `find_pair` scan from cell `(x, y)` on: the first accepted cell in
      row-major order with the shared numbers, or `(-1, -1)` and nothing. */
  function FindPairFrom(s: MapState, list: seq<int>, pos: Point, y: int, x: int): (r: (SizeP, seq<int>))
    requires Shaped(s) && 0 <= y <= s.size.y && 0 <= x <= s.size.x
    ensures r.0 == SizeP(-1, -1) ==>
              r.1 == [] && forall p {:trigger PairAt(s, list, pos, p)} :: Inside(p, s.size) && !Before(p, y, x) ==> !PairAt(s, list, pos, p)
    ensures r.0 != SizeP(-1, -1) ==>
              && Inside(r.0, s.size) && !Before(r.0, y, x) && PairAt(s, list, pos, r.0)
              && r.1 == Intersection(list, At(s, r.0).candidates)
              && forall p {:trigger PairAt(s, list, pos, p)} :: Inside(p, s.size) && !Before(p, y, x) && Before(p, r.0.y, r.0.x)
                             ==> !PairAt(s, list, pos, p)
    decreases s.size.y - y, s.size.x - x
  {
    if y == s.size.y then (SizeP(-1, -1), [])
    else if x == s.size.x then FindPairFrom(s, list, pos, y + 1, 0)
    else if PairAt(s, list, pos, SizeP(x, y)) then (SizeP(x, y), Intersection(list, At(s, SizeP(x, y)).candidates))
    else FindPairFrom(s, list, pos, y, x + 1)
  }

  function FindPairOf(s: MapState, list: seq<int>, pos: Point): (r: (SizeP, seq<int>))
    requires Shaped(s)
  {
    FindPairFrom(s, list, pos, 0, 0)
  }

  // ---------------------------------------------------------------------
  // fill_obvious_blocks

  /** A cell `fill_obvious_blocks` commits: free, with exactly one
      candidate, which names a source it can walk to. */
  predicate Obvious(s: MapState, p: Point)
    requires Shaped(s) && Inside(p, s.size)
  {
    var b := At(s, p);
    b.Unoccupied? && |b.candidates| == 1 && b.candidates[0] != -1 && CanCommit(s, p, b.candidates[0])
  }

  /** One cell of the sweep: commit it if it is obvious. */
  function ObviousAt(s: MapState, p: Point): (r: (MapState, bool))
    requires Shaped(s) && Inside(p, s.size)
    ensures Shaped(r.0) && r.0.size == s.size && r.0.pizzeriasPos == s.pizzeriasPos
    ensures r.1 == Obvious(s, p)
    ensures r.1 ==> CountUnoccupied(r.0) < CountUnoccupied(s)
    ensures !r.1 ==> r.0 == s
  {
    if Obvious(s, p) then
      CommitCount(s, p, At(s, p).candidates[0]);
      (Commit(s, p, At(s, p).candidates[0]), true)
    else (s, false)
  }

  /** One row-major sweep from cell `(x, y)` on, `f` telling whether it
      has committed anything yet. It commits exactly when the number of
      free cells drops, and a sweep that commits nothing found no obvious
      cell. */
  function SweepFrom(s: MapState, y: int, x: int, f: bool): (r: (MapState, bool))
    requires Shaped(s) && 0 <= y <= s.size.y && 0 <= x <= s.size.x
    ensures Shaped(r.0) && r.0.size == s.size && r.0.pizzeriasPos == s.pizzeriasPos
    ensures CountUnoccupied(r.0) <= CountUnoccupied(s)
    ensures r.1 <==> f || CountUnoccupied(r.0) < CountUnoccupied(s)
    ensures !r.1 ==> r.0 == s && forall p {:trigger Obvious(s, p)} :: Inside(p, s.size) && !Before(p, y, x) ==> !Obvious(s, p)
    decreases s.size.y - y, s.size.x - x
  {
    if y == s.size.y then (s, f)
    else if x == s.size.x then SweepFrom(s, y + 1, 0, f)
    else
      var (s1, c) := ObviousAt(s, SizeP(x, y));
      SweepFrom(s1, y, x + 1, f || c)
  }

  /** The `while res` loop of `fill_obvious_blocks`: sweep until a sweep
      commits nothing; `g` tells whether anything was committed so far.
      At the end no obvious cell is left. */
  function RoundsFrom(s: MapState, g: bool): (r: (MapState, bool))
    requires Shaped(s)
    ensures Shaped(r.0) && r.0.size == s.size && r.0.pizzeriasPos == s.pizzeriasPos
    ensures CountUnoccupied(r.0) <= CountUnoccupied(s)
    ensures r.1 <==> g || CountUnoccupied(r.0) < CountUnoccupied(s)
    ensures forall p {:trigger Obvious(r.0, p)} :: Inside(p, r.0.size) ==> !Obvious(r.0, p)
    decreases CountUnoccupied(s)
  {
    var (s1, f) := SweepFrom(s, 0, 0, false);
    if f then RoundsFrom(s1, true) else (s1, g)
  }

  /** `fill_obvious_blocks()`: true exactly when it committed some cell,
      and when it returns no obvious cell is left. */
  function FillObvious(s: MapState): (r: (MapState, bool))
    requires Shaped(s)
    ensures Shaped(r.0) && r.0.size == s.size && r.0.pizzeriasPos == s.pizzeriasPos
    ensures r.1 <==> CountUnoccupied(r.0) < CountUnoccupied(s)
    ensures forall p {:trigger Obvious(r.0, p)} :: Inside(p, r.0.size) ==> !Obvious(r.0, p)
  {
    RoundsFrom(s, false)
  }

  // ---------------------------------------------------------------------
  // try_to_find_pairs and the single-cell pass of fill_map

  /** The pair trial at cell `p`, if `find_pair` finds a partner for it. */
  function PairTrial(s: MapState, p: Point): (r: MapState)
    requires Shaped(s) && Inside(p, s.size)
    ensures Shaped(r) && r.size == s.size && r.pizzeriasPos == s.pizzeriasPos
  {
    if !At(s, p).Unoccupied? then s
    else
      var (q, nums) := FindPairOf(s, At(s, p).candidates, p);
      if q == SizeP(-1, -1) then s else TryFill(s, [p, q], nums).0
  }

  /** `try_to_find_pairs` from cell `(x, y)` on; its trials' outcomes are dropped. */
  function PairsFrom(s: MapState, y: int, x: int): (r: MapState)
    requires Shaped(s) && 0 <= y <= s.size.y && 0 <= x <= s.size.x
    ensures Shaped(r) && r.size == s.size && r.pizzeriasPos == s.pizzeriasPos
    decreases s.size.y - y, s.size.x - x
  {
    if y == s.size.y then s
    else if x == s.size.x then PairsFrom(s, y + 1, 0)
    else PairsFrom(PairTrial(s, SizeP(x, y)), y, x + 1)
  }

  /** The single-cell trial at `p`: a free cell with candidates is tried
      with its candidate list. */
  function SingleTrial(s: MapState, p: Point): (r: (MapState, bool))
    requires Shaped(s) && Inside(p, s.size)
    ensures Shaped(r.0) && r.0.size == s.size && r.0.pizzeriasPos == s.pizzeriasPos
    ensures !r.1 ==> r.0 == s
  {
    if At(s, p).Unoccupied? && At(s, p).candidates != [] then TryFill(s, [p], At(s, p).candidates)
    else (s, false)
  }

  /** The single-cell pass of `fill_map` from cell `(x, y)` on; `g`
      collects the outcomes with a non-short-circuit or. A pass that
      reports nothing changed nothing, and every trial in it failed. */
  function SinglesFrom(s: MapState, y: int, x: int, g: bool): (r: (MapState, bool))
    requires Shaped(s) && 0 <= y <= s.size.y && 0 <= x <= s.size.x
    ensures Shaped(r.0) && r.0.size == s.size && r.0.pizzeriasPos == s.pizzeriasPos
    ensures g ==> r.1
    ensures !r.1 ==> r.0 == s && forall p {:trigger SingleTrial(s, p)} :: Inside(p, s.size) && !Before(p, y, x) ==> !SingleTrial(s, p).1
    decreases s.size.y - y, s.size.x - x
  {
    if y == s.size.y then (s, g)
    else if x == s.size.x then SinglesFrom(s, y + 1, 0, g)
    else
      var (s1, ok) := SingleTrial(s, SizeP(x, y));
      SinglesFrom(s1, y, x + 1, g || ok)
  }
}
