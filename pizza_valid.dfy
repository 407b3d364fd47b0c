/**
  Pizza: the invariant of a map built by `Map::new` and `add_pizzeria`, the
  proof that every step of the filling keeps it, and the loop of `fill_map`
  built on it.

  A valid map has source `k` at `pizzeriasPos[k]`, holding the pizzeria
  numbered `k`, every candidate of a free cell names a source on that
  cell's row or column, and a free cell lists `k` exactly when it lies on
  the frontier of source `k`. The filling only ever moves a cell "down" in
  the order free -> occupied, shrinks candidate lists, leaves each
  pizzeria a pizzeria with its number, and keeps candidates and frontiers
  in agreement; so the number of free cells never grows, every commit it
  makes is well aimed, and `fill_map` stops.
 */
module PizzaValid {
  import opened PizzaGeometry
  import opened PizzaState
  import opened PizzaFill

  /** Source `k` lies on the grid and holds the pizzeria numbered `k`. */
  ghost predicate SourcesPlaced(s: MapState)
    requires Shaped(s)
  {
    forall k :: 0 <= k < |s.pizzeriasPos| ==>
      && Inside(s.pizzeriasPos[k], s.size)
      && At(s, s.pizzeriasPos[k]).Pizzeria?
      && At(s, s.pizzeriasPos[k]).num == k
  }

  /** If the cell at `p` is free, each of its candidates names a source on
      its row or column. */
  ghost predicate Aimed(s: MapState, p: Point)
    requires Shaped(s) && Inside(p, s.size)
  {
    At(s, p).Unoccupied? ==>
      forall m :: m in At(s, p).candidates ==> 0 <= m < |s.pizzeriasPos| && Aligned(p, s.pizzeriasPos[m])
  }

  /** Every candidate of a free cell names a source on its row or column. */
  ghost predicate CandidatesAligned(s: MapState)
    requires Shaped(s)
  {
    forall p {:trigger Aimed(s, p)} :: Inside(p, s.size) ==> Aimed(s, p)
  }

  /** The two views of source `k` and the cell at `p` agree: if the cell is
      free, it lists `k` among its candidates exactly when it lies on the
      frontier (`available_blocks`) of the pizzeria at `pizzeriasPos[k]`. */
  ghost predicate SyncedAt(s: MapState, p: Point, k: int)
    requires Shaped(s)
  {
    && Inside(p, s.size) && At(s, p).Unoccupied?
    && 0 <= k < |s.pizzeriasPos| && Inside(s.pizzeriasPos[k], s.size) && At(s, s.pizzeriasPos[k]).Pizzeria?
    ==> (k in At(s, p).candidates <==> p in At(s, s.pizzeriasPos[k]).availableBlocks)
  }

  /** Every free cell's candidate list agrees with every source's frontier. */
  ghost predicate Synced(s: MapState)
    requires Shaped(s)
  {
    forall p, k {:trigger SyncedAt(s, p, k)} :: SyncedAt(s, p, k)
  }

  ghost predicate Valid(s: MapState)
  {
    Shaped(s) && SourcesPlaced(s) && CandidatesAligned(s) && Synced(s)
  }

  /** On a valid map a free cell lists source `k` among its candidates
      exactly when it lies on that source's frontier. */
  lemma FrontierAgrees(s: MapState, p: Point, k: int)
    requires Valid(s) && Inside(p, s.size) && At(s, p).Unoccupied? && 0 <= k < |s.pizzeriasPos|
    ensures At(s, s.pizzeriasPos[k]).Pizzeria?
    ensures k in At(s, p).candidates <==> p in At(s, s.pizzeriasPos[k]).availableBlocks
  {
    assert SyncedAt(s, p, k);
  }

  /** On a valid map, a free cell's candidate can always be committed:
      it names a pizzeria on the cell's row or column. */
  lemma CandidateCommits(s: MapState, p: Point, m: int)
    requires Valid(s) && Inside(p, s.size) && At(s, p).Unoccupied? && m in At(s, p).candidates
    ensures CanCommit(s, p, m) && At(s, s.pizzeriasPos[m]).Pizzeria?
  {
    assert Aimed(s, p);
  }

  /** On a valid map the extra guard of `Obvious` (the candidate names a
      source the cell can walk to) always holds: a cell is obvious exactly
      when it is free with a single candidate that is not -1, the test
      `fill_obvious_blocks` makes. */
  lemma ObviousIsSourceTest(s: MapState, p: Point)
    requires Valid(s) && Inside(p, s.size)
    ensures Obvious(s, p) <==>
              At(s, p).Unoccupied? && |At(s, p).candidates| == 1 && At(s, p).candidates[0] != -1
  {
    var b := At(s, p);
    if b.Unoccupied? && |b.candidates| == 1 {
      CandidateCommits(s, p, b.candidates[0]);
    }
  }

  /** The sources of a valid map sit at distinct points. */
  lemma SourcesDistinct(s: MapState)
    requires Valid(s)
    ensures AllInside(s, s.pizzeriasPos) && Distinct(s.pizzeriasPos)
  {
    forall i, j | 0 <= i < j < |s.pizzeriasPos|
      ensures s.pizzeriasPos[i] != s.pizzeriasPos[j]
    {
      assert At(s, s.pizzeriasPos[i]).num != At(s, s.pizzeriasPos[j]).num;
    }
  }

  // ---------------------------------------------------------------------
  // Descent: the only way the filling changes a map

  /** How a cell may change from `a` to `b`: a pizzeria stays a pizzeria
      with its number and nothing else becomes one, and a cell free
      afterwards was free before, with no new candidates. */
  predicate Keeps(a: MapBlock, b: MapBlock)
  {
    && a.Pizzeria? == b.Pizzeria?
    && (a.Pizzeria? ==> b.num == a.num)
    && (b.Unoccupied? ==> a.Unoccupied? && forall m :: m in b.candidates ==> m in a.candidates)
  }

  /** The cell at `p`, if on the grid, changes from `s` to `r` as `Keeps` allows. */
  ghost predicate KeptAt(s: MapState, r: MapState, p: Point)
    requires Shaped(s) && Shaped(r) && r.size == s.size
  {
    Inside(p, s.size) ==> Keeps(At(s, p), At(r, p))
  }

  /** `r` is reached from `s` by cell changes that `Keeps` allows, and
      candidates and frontiers that agree in `s` still agree in `r`. */
  ghost predicate Descends(s: MapState, r: MapState)
  {
    && Shaped(s) && Shaped(r) && r.size == s.size && r.pizzeriasPos == s.pizzeriasPos
    && (forall p :: KeptAt(s, r, p))
    && (Synced(s) ==> Synced(r))
  }

  lemma DescendsRefl(s: MapState)
    requires Shaped(s)
    ensures Descends(s, s)
  {
  }

  /** Descent to a map is descent to any map equal to it; stated once so
      that a proof about an unfolded scan does not unfold `Descends`. */
  lemma DescendsTo(s: MapState, t: MapState, r: MapState)
    requires Descends(s, t) && t == r
    ensures Descends(s, r)
  {
  }

  lemma DescendsTrans(s: MapState, t: MapState, r: MapState)
    requires Descends(s, t) && Descends(t, r)
    ensures Descends(s, r)
  {
    forall p
      ensures KeptAt(s, r, p)
    {
      assert KeptAt(s, t, p) && KeptAt(t, r, p);
    }
  }

  /** Descent keeps a map valid. */
  lemma DescendsValid(s: MapState, r: MapState)
    requires Valid(s) && Descends(s, r)
    ensures Valid(r)
  {
    forall k | 0 <= k < |r.pizzeriasPos|
      ensures Inside(r.pizzeriasPos[k], r.size) && At(r, r.pizzeriasPos[k]).Pizzeria?
              && At(r, r.pizzeriasPos[k]).num == k
    {
      assert KeptAt(s, r, s.pizzeriasPos[k]);
    }
    forall p | Inside(p, r.size)
      ensures Aimed(r, p)
    {
      assert KeptAt(s, r, p) && Aimed(s, p);
    }
  }

  lemma {:induction false} CountRowMono(a: seq<MapBlock>, b: seq<MapBlock>)
    requires |a| == |b|
    requires forall x :: 0 <= x < |b| && b[x].Unoccupied? ==> a[x].Unoccupied?
    ensures CountRow(b) <= CountRow(a)
    decreases |a|
  {
    if a != [] {
      CountRowMono(a[..|a| - 1], b[..|b| - 1]);
    }
  }

  lemma {:induction false} CountRowsMono(a: seq<seq<MapBlock>>, b: seq<seq<MapBlock>>)
    requires |a| == |b|
    requires forall y :: 0 <= y < |b| ==> |a[y]| == |b[y]|
    requires forall y, x :: 0 <= y < |b| && 0 <= x < |b[y]| && b[y][x].Unoccupied? ==> a[y][x].Unoccupied?
    ensures CountRows(b) <= CountRows(a)
    decreases |a|
  {
    if a != [] {
      var last := |a| - 1;
      CountRowsMono(a[..last], b[..last]);
      CountRowMono(a[last], b[last]);
    }
  }

  /** Descent never adds a free cell. */
  lemma DescendsCount(s: MapState, r: MapState)
    requires Descends(s, r)
    ensures CountUnoccupied(r) <= CountUnoccupied(s)
  {
    forall y, x | 0 <= y < |r.grid| && 0 <= x < |r.grid[y]| && r.grid[y][x].Unoccupied?
      ensures s.grid[y][x].Unoccupied?
    {
      assert KeptAt(s, r, SizeP(x, y));
    }
    CountRowsMono(s.grid, r.grid);
  }

  // ---------------------------------------------------------------------
  // Commits descend

  /** Past its starting cell, a run covers free cells only. */
  lemma RunIsFree(s: MapState, pos: Point, pPos: Point, p: Point)
    requires Shaped(s) && Aligned(pos, pPos) && Inside(pos, s.size) && Inside(pPos, s.size)
    requires p in Path(pos, pPos)[..Distance(s, pos, pPos)]
    ensures Inside(p, s.size) && (p == pos || At(s, p).Unoccupied?)
  {
    var path := Path(pos, pPos);
    PathFacts(pos, pPos, s.size);
    var n := Distance(s, pos, pPos);
    SliceCons(path, n);
    var rest := path[1..][..n - 1];
    assert forall j :: 0 <= j < |rest| ==> At(s, rest[j]).Unoccupied?;
  }

  lemma CommitKeeps(s: MapState, pos: Point, num: int, p: Point)
    requires Shaped(s) && Inside(pos, s.size) && CanCommit(s, pos, num)
    requires At(s, s.pizzeriasPos[num]).Pizzeria? && !At(s, pos).Pizzeria? && Inside(p, s.size)
    ensures Keeps(At(s, p), At(Commit(s, pos, num), p))
  {
    var pPos := s.pizzeriasPos[num];
    CommitEffect(s, pos, num, p);
    if p in Path(pos, pPos)[..Distance(s, pos, pPos)] {
      RunIsFree(s, pos, pPos, p);
    }
  }

  /** A commit from a cell that is not a pizzeria descends. */
  lemma CommitDescends(s: MapState, pos: Point, num: int)
    requires Valid(s) && Inside(pos, s.size) && !At(s, pos).Pizzeria?
    ensures Descends(s, Commit(s, pos, num))
  {
    DescendsRefl(s);
    if CanCommit(s, pos, num) {
      forall p
        ensures KeptAt(s, Commit(s, pos, num), p)
      {
        if Inside(p, s.size) {
          CommitKeeps(s, pos, num, p);
        }
      }
      forall p, k
        ensures SyncedAt(Commit(s, pos, num), p, k)
      {
        CommitSyncedAt(s, pos, num, p, k);
      }
    }
  }

  /**
    A commit keeps candidates and frontiers in agreement: the cells of the
    run stop being free, and `constriction` takes off the source's frontier
    exactly the points (free or not) found out of reach, while exactly the
    free ones among them lose the source's number. No other source and no
    other number is touched.
   */
  lemma CommitSyncedAt(s: MapState, pos: Point, num: int, p: Point, k: int)
    requires Valid(s) && Inside(pos, s.size) && !At(s, pos).Pizzeria? && CanCommit(s, pos, num)
    ensures SyncedAt(Commit(s, pos, num), p, k)
  {
    var r := Commit(s, pos, num);
    var pPos := s.pizzeriasPos[num];
    var b := At(s, pPos);
    var n := Distance(s, pos, pPos);
    var d := WalkDirection(pos, pPos);
    if Inside(p, s.size) && At(r, p).Unoccupied? && 0 <= k < |r.pizzeriasPos| {
      CommitEffect(s, pos, num, p);
      assert p !in Path(pos, pPos)[..n] && p != pPos;
      assert At(s, p).Unoccupied? && SyncedAt(s, p, k);
      var q := s.pizzeriasPos[k];
      if k == num {
        var c := Narrowed(b, pPos, n, d);
        assert c.capacity == b.capacity - n && c.movement == Bump(b.movement, d, n);
        CommitEffect(s, pos, num, q);
      } else {
        SourcesDistinct(s);
        CommitEffect(s, pos, num, q);
        if q in Path(pos, pPos)[..n] {
          RunIsFree(s, pos, pPos, q);
        }
        assert At(r, q) == At(s, q);
      }
    }
  }

  /** Cells a trial may start from: on the grid and not a pizzeria. */
  ghost predicate Startable(s: MapState, pos: seq<Point>)
    requires Shaped(s)
  {
    forall p :: p in pos ==> Inside(p, s.size) && !At(s, p).Pizzeria?
  }

  lemma StartableKept(s: MapState, r: MapState, pos: seq<Point>)
    requires Descends(s, r) && Startable(s, pos)
    ensures Startable(r, pos)
  {
    forall p | p in pos
      ensures Inside(p, r.size) && !At(r, p).Pizzeria?
    {
      assert KeptAt(s, r, p);
    }
  }

  lemma {:induction false} PlaceDescends(s: MapState, pos: seq<Point>, nums: seq<int>)
    requires Valid(s) && Startable(s, pos) && |nums| == |pos|
    ensures Descends(s, PlaceState(s, pos, nums))
    decreases |pos|
  {
    DescendsRefl(s);
    if pos != [] {
      var s1 := Commit(s, pos[0], nums[0]);
      CommitDescends(s, pos[0], nums[0]);
      DescendsValid(s, s1);
      StartableKept(s, s1, pos);
      PlaceDescends(s1, pos[1..], nums[1..]);
      DescendsTrans(s, s1, PlaceState(s1, pos[1..], nums[1..]));
    }
  }

  lemma {:induction false} TryFromDescends(s: MapState, pos: seq<Point>, nums: seq<int>, t: nat)
    requires Valid(s) && Startable(s, pos) && |pos| <= |nums| && t <= |nums|
    ensures Descends(s, TryFrom(s, pos, nums, t).0)
    decreases |nums| - t, 1
  {
    if t == |nums| {
      DescendsRefl(s);
      DescendsTo(s, s, TryFrom(s, pos, nums, t).0);
    } else if Passes(s, RotateRight(pos), nums) {
      TryFromPlacedDescends(s, pos, nums, t);
    } else {
      TryFromSkippedDescends(s, pos, nums, t);
    }
  }

  lemma TryFromPlacedDescends(s: MapState, pos: seq<Point>, nums: seq<int>, t: nat)
    requires Valid(s) && Startable(s, pos) && |pos| <= |nums| && t < |nums|
    requires Passes(s, RotateRight(pos), nums)
    ensures Descends(s, TryFrom(s, pos, nums, t).0)
  {
    var rot := RotateRight(pos);
    assert Startable(s, rot);
    PlaceDescends(s, rot, nums[..|rot|]);
    DescendsTo(s, PlaceState(s, rot, nums[..|rot|]), TryFrom(s, pos, nums, t).0);
  }

  lemma {:induction false} TryFromSkippedDescends(s: MapState, pos: seq<Point>, nums: seq<int>, t: nat)
    requires Valid(s) && Startable(s, pos) && |pos| <= |nums| && t < |nums|
    requires !Passes(s, RotateRight(pos), nums)
    ensures Descends(s, TryFrom(s, pos, nums, t).0)
    decreases |nums| - t, 0
  {
    var rot := RotateRight(pos);
    assert Startable(s, rot);
    TryFromDescends(s, rot, nums, t + 1);
    DescendsTo(s, TryFrom(s, rot, nums, t + 1).0, TryFrom(s, pos, nums, t).0);
  }

  /** A trial of `try_to_fill` on cells that are not pizzerias descends. */
  lemma TryFillDescends(s: MapState, pos: seq<Point>, nums: seq<int>)
    requires Valid(s) && Startable(s, pos) && (nums == [] || |pos| <= |nums|)
    ensures Descends(s, TryFill(s, pos, nums).0)
  {
    DescendsRefl(s);
    if nums != [] {
      TryFromDescends(s, pos, nums, 0);
    }
  }

  // ---------------------------------------------------------------------
  // The sweeps descend

  lemma ObviousDescends(s: MapState, p: Point)
    requires Valid(s) && Inside(p, s.size)
    ensures Descends(s, ObviousAt(s, p).0)
  {
    DescendsRefl(s);
    if Obvious(s, p) {
      CommitDescends(s, p, At(s, p).candidates[0]);
    }
  }

  lemma {:induction false} SweepDescends(s: MapState, y: int, x: int, f: bool)
    requires Valid(s) && 0 <= y <= s.size.y && 0 <= x <= s.size.x
    ensures Descends(s, SweepFrom(s, y, x, f).0)
    decreases s.size.y - y, s.size.x - x, 1
  {
    if y == s.size.y {
      DescendsRefl(s);
    } else if x == s.size.x {
      SweepDescends(s, y + 1, 0, f);
    } else {
      SweepStepDescends(s, y, x, f);
    }
  }

  lemma {:induction false} SweepStepDescends(s: MapState, y: int, x: int, f: bool)
    requires Valid(s) && 0 <= y < s.size.y && 0 <= x < s.size.x
    ensures Descends(s, SweepFrom(s, y, x, f).0)
    decreases s.size.y - y, s.size.x - x, 0
  {
    var r := ObviousAt(s, SizeP(x, y));
    SweepUnfold(s, y, x, f);
    ObviousDescends(s, SizeP(x, y));
    DescendsValid(s, r.0);
    SweepDescends(r.0, y, x + 1, f || r.1);
    DescendsTrans(s, r.0, SweepFrom(r.0, y, x + 1, f || r.1).0);
  }

  lemma SweepUnfold(s: MapState, y: int, x: int, f: bool)
    requires Shaped(s) && 0 <= y < s.size.y && 0 <= x < s.size.x
    ensures var r := ObviousAt(s, SizeP(x, y));
            SweepFrom(s, y, x, f) == SweepFrom(r.0, y, x + 1, f || r.1)
  {
  }

  lemma {:induction false} RoundsDescends(s: MapState, g: bool)
    requires Valid(s)
    ensures Descends(s, RoundsFrom(s, g).0)
    decreases CountUnoccupied(s)
  {
    var (s1, f) := SweepFrom(s, 0, 0, false);
    SweepDescends(s, 0, 0, false);
    if f {
      DescendsValid(s, s1);
      RoundsDescends(s1, true);
      DescendsTrans(s, s1, RoundsFrom(s1, true).0);
    }
  }

  lemma PairTrialDescends(s: MapState, p: Point)
    requires Valid(s) && Inside(p, s.size)
    ensures Descends(s, PairTrial(s, p))
  {
    DescendsRefl(s);
    if At(s, p).Unoccupied? {
      var (q, nums) := FindPairOf(s, At(s, p).candidates, p);
      if q != SizeP(-1, -1) {
        TryFillDescends(s, [p, q], nums);
      }
    }
  }

  lemma {:induction false} PairsDescends(s: MapState, y: int, x: int)
    requires Valid(s) && 0 <= y <= s.size.y && 0 <= x <= s.size.x
    ensures Descends(s, PairsFrom(s, y, x))
    decreases s.size.y - y, s.size.x - x, 1
  {
    if y == s.size.y {
      PairsDoneDescends(s, y, x);
    } else if x == s.size.x {
      PairsRowDescends(s, y, x);
    } else {
      PairsStepDescends(s, y, x);
    }
  }

  lemma PairsDoneDescends(s: MapState, y: int, x: int)
    requires Valid(s) && y == s.size.y && 0 <= x <= s.size.x
    ensures Descends(s, PairsFrom(s, y, x))
  {
    DescendsRefl(s);
    DescendsTo(s, s, PairsFrom(s, y, x));
  }

  lemma {:induction false} PairsRowDescends(s: MapState, y: int, x: int)
    requires Valid(s) && 0 <= y < s.size.y && x == s.size.x
    ensures Descends(s, PairsFrom(s, y, x))
    decreases s.size.y - y, s.size.x - x, 0
  {
    PairsDescends(s, y + 1, 0);
    DescendsTo(s, PairsFrom(s, y + 1, 0), PairsFrom(s, y, x));
  }

  lemma {:induction false} PairsStepDescends(s: MapState, y: int, x: int)
    requires Valid(s) && 0 <= y < s.size.y && 0 <= x < s.size.x
    ensures Descends(s, PairsFrom(s, y, x))
    decreases s.size.y - y, s.size.x - x, 0
  {
    var s1 := PairTrial(s, SizeP(x, y));
    PairTrialDescends(s, SizeP(x, y));
    DescendsValid(s, s1);
    PairsDescends(s1, y, x + 1);
    DescendsTrans(s, s1, PairsFrom(s1, y, x + 1));
    DescendsTo(s, PairsFrom(s1, y, x + 1), PairsFrom(s, y, x));
  }

  /** A single-cell trial descends, and one that succeeds commits its cell:
      the number of free cells drops. */
  lemma SingleTrialProgress(s: MapState, p: Point)
    requires Valid(s) && Inside(p, s.size)
    ensures Descends(s, SingleTrial(s, p).0)
    ensures SingleTrial(s, p).1 ==> CountUnoccupied(SingleTrial(s, p).0) < CountUnoccupied(s)
  {
    DescendsRefl(s);
    var b := At(s, p);
    if b.Unoccupied? && b.candidates != [] {
      var m := b.candidates[0];
      TryFillDescends(s, [p], b.candidates);
      SingleTriesFirstOnly(s, p, b.candidates);
      if SingleTrial(s, p).1 {
        assert PlaceState(s, [p], [m]) == Commit(s, p, m);
        CandidateCommits(s, p, m);
        CommitCount(s, p, m);
      }
    }
  }

  lemma {:induction false} SinglesProgress(s: MapState, y: int, x: int, g: bool)
    requires Valid(s) && 0 <= y <= s.size.y && 0 <= x <= s.size.x
    ensures Descends(s, SinglesFrom(s, y, x, g).0)
    ensures SinglesFrom(s, y, x, g).1 ==> g || CountUnoccupied(SinglesFrom(s, y, x, g).0) < CountUnoccupied(s)
    decreases s.size.y - y, s.size.x - x, 1
  {
    if y == s.size.y {
      DescendsRefl(s);
    } else if x == s.size.x {
      SinglesProgress(s, y + 1, 0, g);
    } else {
      SinglesStepProgress(s, y, x, g);
    }
  }

  lemma {:induction false} SinglesStepProgress(s: MapState, y: int, x: int, g: bool)
    requires Valid(s) && 0 <= y < s.size.y && 0 <= x < s.size.x
    ensures Descends(s, SinglesFrom(s, y, x, g).0)
    ensures SinglesFrom(s, y, x, g).1 ==> g || CountUnoccupied(SinglesFrom(s, y, x, g).0) < CountUnoccupied(s)
    decreases s.size.y - y, s.size.x - x, 0
  {
    var (s1, ok) := SingleTrial(s, SizeP(x, y));
    assert SinglesFrom(s, y, x, g) == SinglesFrom(s1, y, x + 1, g || ok);
    SingleTrialProgress(s, SizeP(x, y));
    DescendsValid(s, s1);
    SinglesProgress(s1, y, x + 1, g || ok);
    var r := SinglesFrom(s1, y, x + 1, g || ok).0;
    DescendsTrans(s, s1, r);
    DescendsCount(s1, r);
  }


  // ---------------------------------------------------------------------
  // fill_map

  /** No free cell with candidates passes the check when committed to its
      first candidate, the only one `try_to_fill` tries for a single cell. */
  ghost predicate Stuck(s: MapState)
    requires Shaped(s)
  {
    forall p :: StuckAt(s, p)
  }

  /** The cell at `p`, if free with candidates, fails the check when
      committed to its first candidate. */
  ghost predicate StuckAt(s: MapState, p: Point)
    requires Shaped(s)
  {
    Inside(p, s.size) && At(s, p).Unoccupied? && At(s, p).candidates != [] ==>
      !Verdict(PlaceState(s, [p], [At(s, p).candidates[0]]))
  }

  lemma StuckWhenAllFail(s: MapState)
    requires Shaped(s)
    requires forall p {:trigger SingleTrial(s, p)} :: Inside(p, s.size) ==> !SingleTrial(s, p).1
    ensures Stuck(s)
  {
    forall p
      ensures StuckAt(s, p)
    {
      if Inside(p, s.size) && At(s, p).Unoccupied? && At(s, p).candidates != [] {
        assert !SingleTrial(s, p).1;
        SingleTriesFirstOnly(s, p, At(s, p).candidates);
      }
    }
  }

  /**
    One pass of the `while` loop of `fill_map`: `fill_obvious_blocks`,
    then `try_to_find_pairs`, then a single-cell trial at every free cell
    with candidates, the outcomes joined with a non-short-circuit or. A
    pass that reports progress has committed some cell, so the number of
    free cells drops; one that does not leaves a map on which no
    single-cell trial passes.
   */
  function Round(s: MapState): (r: (MapState, bool))
    requires Valid(s)
    ensures Valid(r.0) && Descends(s, r.0)
    ensures r.1 ==> CountUnoccupied(r.0) < CountUnoccupied(s)
    ensures !r.1 ==> Stuck(r.0)
  {
    var (s1, g1) := FillObvious(s);
    RoundsDescends(s, false);
    DescendsValid(s, s1);
    var s2 := PairsFrom(s1, 0, 0);
    PairsDescends(s1, 0, 0);
    DescendsValid(s1, s2);
    DescendsCount(s1, s2);
    var (s3, g) := SinglesFrom(s2, 0, 0, g1);
    SinglesProgress(s2, 0, 0, g1);
    DescendsValid(s2, s3);
    DescendsCount(s2, s3);
    DescendsTrans(s, s1, s2);
    DescendsTrans(s, s2, s3);
    if g then (s3, g)
    else
      StuckWhenAllFail(s3);
      (s3, g)
  }

  /**
    The `while` loop of `fill_map`: while the free counter is not zero and
    the last round made progress, run another round. The number of free
    cells measures the loop, so it ends, and when it ends the free counter
    is zero or no single-cell trial passes.
   */
  function FillFrom(s: MapState): (r: MapState)
    requires Valid(s)
    ensures Valid(r) && Descends(s, r) && CountUnoccupied(r) <= CountUnoccupied(s)
    ensures r.free == 0 || Stuck(r)
    decreases CountUnoccupied(s)
  {
    if s.free == 0 then
      DescendsRefl(s);
      s
    else
      var (s1, g) := Round(s);
      if g then
        var r := FillFrom(s1);
        DescendsTrans(s, s1, r);
        r
      else
        DescendsCount(s, s1);
        s1
  }

  // ---------------------------------------------------------------------
  // Building a valid map

  lemma NewValid(size: Size)
    requires 0 <= size.x && 0 <= size.y
    ensures Valid(NewState(size))
  {
  }

  /** `add_pizzeria` keeps a map valid when it is given the next number and
      a cell that is not already a pizzeria. */
  lemma AddValid(s: MapState, pos: Point, capacity: int, num: int)
    requires Valid(s) && 1 <= pos.x <= s.size.x && 1 <= pos.y <= s.size.y
    requires num == |s.pizzeriasPos| && !At(s, SourcePoint(pos, s.size)).Pizzeria?
    ensures Valid(AddState(s, pos, capacity, num))
  {
    var p := SourcePoint(pos, s.size);
    var s1 := SetAt(s, p, Pizzeria(num, capacity, (0, 0, 0, 0), []));
    var s2 := s1.(free := s1.free - 1, pizzeriasPos := s1.pizzeriasPos + [p]);
    var r := AddState(s, pos, capacity, num);
    AddPizzeriaEffect(s, pos, capacity, num);
    forall k | 0 <= k < |r.pizzeriasPos|
      ensures Inside(r.pizzeriasPos[k], r.size) && At(r, r.pizzeriasPos[k]).Pizzeria?
              && At(r, r.pizzeriasPos[k]).num == k
    {
      if k < num {
        AddKeepsSource(s, pos, capacity, num, k);
      }
    }
    forall q | Inside(q, r.size)
      ensures Aimed(r, q)
    {
      forall m | At(r, q).Unoccupied? && m in At(r, q).candidates
        ensures 0 <= m < |r.pizzeriasPos| && Aligned(q, r.pizzeriasPos[m])
      {
        AddCandidate(s, pos, capacity, num, q, m);
      }
    }
    forall q, k
      ensures SyncedAt(r, q, k)
    {
      AddSyncedAt(s, pos, capacity, num, q, k);
    }
  }

  /** `add_pizzeria` keeps candidates and frontiers in agreement: the new
      source's frontier is exactly the set of cells that get its number,
      which no free cell listed before; the old sources and the other
      numbers are untouched. */
  lemma AddSyncedAt(s: MapState, pos: Point, capacity: int, num: int, q: Point, k: int)
    requires Valid(s) && 1 <= pos.x <= s.size.x && 1 <= pos.y <= s.size.y
    requires num == |s.pizzeriasPos| && !At(s, SourcePoint(pos, s.size)).Pizzeria?
    ensures SyncedAt(AddState(s, pos, capacity, num), q, k)
  {
    var p := SourcePoint(pos, s.size);
    var s1 := SetAt(s, p, Pizzeria(num, capacity, (0, 0, 0, 0), []));
    var s2 := s1.(free := s1.free - 1, pizzeriasPos := s1.pizzeriasPos + [p]);
    var r := AddState(s, pos, capacity, num);
    AddPizzeriaEffect(s, pos, capacity, num);
    if Inside(q, r.size) && At(r, q).Unoccupied? && 0 <= k < |r.pizzeriasPos| {
      assert q != p;
      AddCell(s, pos, capacity, num, q);
      assert At(s, q).Unoccupied? && Aimed(s, q) && SyncedAt(s, q, k);
      assert num !in At(s, q).candidates;
      if k < num {
        AddKeepsSource(s, pos, capacity, num, k);
      } else {
        ClaimSame(s2, s1, p, AllDirections, capacity);
      }
    }
  }

  /** What `add_pizzeria` does to a cell other than the new source: a
      claimed cell (free, on the source's row or column) gets the new number
      appended to its candidates; any other cell is left alone. */
  lemma AddCell(s: MapState, pos: Point, capacity: int, num: int, q: Point)
    requires Shaped(s) && 1 <= pos.x <= s.size.x && 1 <= pos.y <= s.size.y
    requires Inside(q, s.size) && q != SourcePoint(pos, s.size)
    ensures var p := SourcePoint(pos, s.size);
            var s1 := SetAt(s, p, Pizzeria(num, capacity, (0, 0, 0, 0), []));
            var s2 := s1.(free := s1.free - 1, pizzeriasPos := s1.pizzeriasPos + [p]);
            var r := AddState(s, pos, capacity, num);
            && (q in Claim(s2, p, AllDirections, capacity) ==>
                  Aligned(q, p) && At(s, q).Unoccupied? && At(r, q) == Unoccupied(At(s, q).candidates + [num]))
            && (q !in Claim(s2, p, AllDirections, capacity) ==> At(r, q) == At(s, q))
  {
    var p := SourcePoint(pos, s.size);
    var s1 := SetAt(s, p, Pizzeria(num, capacity, (0, 0, 0, 0), []));
    var s2 := s1.(free := s1.free - 1, pizzeriasPos := s1.pizzeriasPos + [p]);
    assert At(s2, q) == At(s, q);
    assert At(s2, p) == Pizzeria(num, capacity, (0, 0, 0, 0), []);
    assert SourceOf(At(s2, p)) == (capacity, num);
    assert AddState(s, pos, capacity, num) == Expanded(s2, p);
    ExpansionSync(s2, p, q);
  }

  lemma AddKeepsSource(s: MapState, pos: Point, capacity: int, num: int, k: int)
    requires Valid(s) && 1 <= pos.x <= s.size.x && 1 <= pos.y <= s.size.y
    requires num == |s.pizzeriasPos| && !At(s, SourcePoint(pos, s.size)).Pizzeria?
    requires 0 <= k < num
    ensures var q := s.pizzeriasPos[k];
            Inside(q, s.size) && At(AddState(s, pos, capacity, num), q) == At(s, q)
  {
    AddCell(s, pos, capacity, num, s.pizzeriasPos[k]);
  }

  lemma AddCandidate(s: MapState, pos: Point, capacity: int, num: int, q: Point, m: int)
    requires Valid(s) && 1 <= pos.x <= s.size.x && 1 <= pos.y <= s.size.y
    requires num == |s.pizzeriasPos| && !At(s, SourcePoint(pos, s.size)).Pizzeria?
    requires var r := AddState(s, pos, capacity, num);
             Inside(q, r.size) && At(r, q).Unoccupied? && m in At(r, q).candidates
    ensures var r := AddState(s, pos, capacity, num);
            0 <= m < |r.pizzeriasPos| && Aligned(q, r.pizzeriasPos[m])
  {
    var p := SourcePoint(pos, s.size);
    AddPizzeriaEffect(s, pos, capacity, num);
    assert q != p;
    AddCell(s, pos, capacity, num, q);
    assert Aimed(s, q);
    if m != num {
      assert m in At(s, q).candidates;
    }
  }
}
