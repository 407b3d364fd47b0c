/**
  Pattern erasure on a character matrix.

  Every window of the matrix that equals the pattern, scanned in row-major
  order of its top-left corner, is rewritten in place ('1' becomes '2',
  anything else becomes '*'), and every later window overlapping it is
  disabled in a boolean availability map, so rewritten windows never
  overlap. Windows are identified by their top-left corner (row, column).
 */
module DigitalLab {

  /** What a rewritten cell becomes. */
  function Mark(ch: char): (r: char)
    ensures r != '1'
    ensures r == '2' <==> ch == '1'
  {
    if ch == '1' then '2' else '*'
  }

  /** `m` has `rows` rows of `cols` entries each. */
  ghost predicate Rect<T>(m: seq<seq<T>>, rows: nat, cols: nat)
  {
    |m| == rows && forall i :: 0 <= i < rows ==> |m[i]| == cols
  }

  /** A prows x pcols window with corner w fits in a rows x cols matrix. */
  predicate Fits(w: (nat, nat), rows: nat, cols: nat, prows: nat, pcols: nat)
  {
    w.0 + prows <= rows && w.1 + pcols <= cols
  }

  /** (y, x) is an entry of a map of the given size. */
  predicate InMap(y: nat, x: nat, size: (nat, nat))
  {
    y < size.0 && x < size.1
  }

  /** Cell (i, j) lies in the window with corner w. */
  predicate InWindow(i: int, j: int, w: (nat, nat), prows: nat, pcols: nat)
  {
    w.0 <= i < w.0 + prows && w.1 <= j < w.1 + pcols
  }

  /** Two windows of the pattern's size share a cell. */
  predicate Overlap(v: (nat, nat), w: (nat, nat), prows: nat, pcols: nat)
  {
    -(prows as int) < v.0 - w.0 < prows && -(pcols as int) < v.1 - w.1 < pcols
  }

  /** Every cell of the window with corner w exists in `data`. */
  ghost predicate WindowIn(data: seq<seq<char>>, w: (nat, nat), prows: nat, pcols: nat)
  {
    w.0 + prows <= |data| && forall i :: w.0 <= i < w.0 + prows ==> w.1 + pcols <= |data[i]|
  }

  /** The window with corner w equals the pattern cell for cell. */
  ghost predicate Matches(data: seq<seq<char>>, pattern: seq<seq<char>>, prows: nat, pcols: nat, w: (nat, nat))
    requires Rect(pattern, prows, pcols)
    requires WindowIn(data, w, prows, pcols)
  {
    forall i, j :: 0 <= i < prows && 0 <= j < pcols ==> CellMatches(data, pattern, w, i, j)
  }

  /** Cell (i, j) of the window with corner w equals the pattern's. */
  ghost predicate CellMatches(data: seq<seq<char>>, pattern: seq<seq<char>>, w: (nat, nat), i: nat, j: nat)
  {
    && i < |pattern| && j < |pattern[i]| && w.0 + i < |data| && w.1 + j < |data[w.0 + i]|
    && pattern[i][j] == data[w.0 + i][w.1 + j]
  }

  /**
    Size of the availability map: one entry per window position that fits,
    or (0, 0) when the pattern is larger than the matrix in either dimension.
   */
  function MapSize(rows: nat, cols: nat, prows: nat, pcols: nat): (r: (nat, nat))
    ensures r.0 == 0 <==> r.1 == 0
    ensures forall y: nat, x: nat :: InMap(y, x, r) <==> Fits((y, x), rows, cols, prows, pcols)
  {
    var h := rows - prows + 1;
    var w := cols - pcols + 1;
    if h <= 0 || w <= 0 then (0, 0) else (h, w)
  }

  function Min(a: nat, b: nat): nat
  {
    if a < b then a else b
  }

  /** The disabled region after a match at (r, c): rows r..min(r+prows, maprows)-1
      and columns max(0, c-pcols+1)..min(c+pcols, mapcols)-1. */
  predicate Disabled(y: nat, x: nat, r: nat, c: nat, prows: nat, pcols: nat, size: (nat, nat))
  {
    && r <= y < Min(r + prows, size.0)
    && (if c + 1 >= pcols then c + 1 - pcols else 0) <= x < Min(c + pcols, size.1)
  }

  /** (y, x) comes at or after (r, c) in row-major order. */
  predicate NotBefore(y: nat, x: nat, r: nat, c: nat)
  {
    y > r || (y == r && x >= c)
  }

  /** Corners (0, 0) .. up to but excluding (y, x) in row-major order, for maps
      with `cols` columns. */
  function Prefix(cols: nat, y: nat, x: nat): (s: seq<(nat, nat)>)
    requires x <= cols
    ensures forall t :: 0 <= t < |s| ==> InMap(s[t].0, s[t].1, (y + 1, cols)) && !NotBefore(s[t].0, s[t].1, y, x)
    decreases y, x
  {
    if x > 0 then Prefix(cols, y, x - 1) + [(y, x - 1)]
    else if y > 0 then Prefix(cols, y - 1, cols)
    else []
  }

  /** No window in `picks` overlaps w. */
  ghost predicate Clear(picks: seq<(nat, nat)>, w: (nat, nat), prows: nat, pcols: nat)
  {
    forall t :: 0 <= t < |picks| ==> !Overlap(picks[t], w, prows, pcols)
  }

  ghost predicate AllFit(data: seq<seq<char>>, cands: seq<(nat, nat)>, prows: nat, pcols: nat)
  {
    forall t :: 0 <= t < |cands| ==> WindowIn(data, cands[t], prows, pcols)
  }

  /**
    The greedy selection the scan performs, stated on the ORIGINAL matrix:
    a candidate is taken when it matches the pattern and overlaps none of the
    windows taken before it.
   */
  ghost function Picks(data: seq<seq<char>>, pattern: seq<seq<char>>, prows: nat, pcols: nat,
                       cands: seq<(nat, nat)>): (r: seq<(nat, nat)>)
    requires Rect(pattern, prows, pcols)
    requires AllFit(data, cands, prows, pcols)
    ensures |r| <= |cands| && forall w :: w in r ==> w in cands
  {
    if cands == [] then []
    else
      var p := Picks(data, pattern, prows, pcols, cands[..|cands| - 1]);
      var w := cands[|cands| - 1];
      if Matches(data, pattern, prows, pcols, w) && Clear(p, w, prows, pcols) then p + [w] else p
  }

  /** Cell (i, j) lies in some picked window. */
  ghost predicate Covered(picks: seq<(nat, nat)>, i: int, j: int, prows: nat, pcols: nat)
  {
    exists t :: 0 <= t < |picks| && InWindow(i, j, picks[t], prows, pcols)
  }

  /** `data` is `orig` with exactly the cells of the picked windows rewritten. */
  ghost predicate IsErased(data: seq<seq<char>>, orig: seq<seq<char>>, picks: seq<(nat, nat)>, prows: nat, pcols: nat)
  {
    && |data| == |orig|
    && (forall i :: 0 <= i < |orig| ==> |data[i]| == |orig[i]|)
    && forall i, j :: 0 <= i < |orig| && 0 <= j < |orig[i]| ==>
         data[i][j] == if Covered(picks, i, j, prows, pcols) then Mark(orig[i][j]) else orig[i][j]
  }

  /** No two windows of `picks` overlap. */
  predicate Disjoint(picks: seq<(nat, nat)>, prows: nat, pcols: nat)
  {
    forall s, t :: 0 <= s < t < |picks| ==> !Overlap(picks[s], picks[t], prows, pcols)
  }

  /** Picked windows are pairwise disjoint, and each is a candidate that
      matches the original matrix. */
  lemma {:induction false} PicksSound(data: seq<seq<char>>, pattern: seq<seq<char>>, prows: nat, pcols: nat,
                                      cands: seq<(nat, nat)>)
    requires Rect(pattern, prows, pcols)
    requires AllFit(data, cands, prows, pcols)
    ensures Disjoint(Picks(data, pattern, prows, pcols, cands), prows, pcols)
    ensures forall w {:trigger w in Picks(data, pattern, prows, pcols, cands)} :: w in Picks(data, pattern, prows, pcols, cands) ==>
              w in cands && Matches(data, pattern, prows, pcols, w)
  {
    if cands != [] {
      var init := cands[..|cands| - 1];
      PicksSound(data, pattern, prows, pcols, init);
      var p := Picks(data, pattern, prows, pcols, init);
      var w := cands[|cands| - 1];
      assert cands == init + [w];
      if Matches(data, pattern, prows, pcols, w) && Clear(p, w, prows, pcols) {
        var q := p + [w];
        forall s, t | 0 <= s < t < |q|
          ensures !Overlap(q[s], q[t], prows, pcols)
        {
          assert q[s] == p[s];
          if t < |p| {
            assert q[t] == p[t];
            assert !Overlap(q[s], q[t], prows, pcols);
          } else {
            assert q[t] == w;
            assert !Overlap(p[s], w, prows, pcols);
            assert !Overlap(q[s], q[t], prows, pcols);
          }
        }
      }
    }
  }

  /** No corner occurs twice. */
  predicate Distinct(cands: seq<(nat, nat)>)
  {
    forall s, t :: 0 <= s < t < |cands| ==> cands[s] != cands[t]
  }

  /** The selection is greedy: a candidate is picked exactly when it matches
      and overlaps none of the windows picked before it. */
  lemma {:induction false} PicksMaximal(data: seq<seq<char>>, pattern: seq<seq<char>>, prows: nat, pcols: nat,
                                        cands: seq<(nat, nat)>, k: nat)
    requires Rect(pattern, prows, pcols)
    requires AllFit(data, cands, prows, pcols)
    requires Distinct(cands)
    requires k < |cands|
    ensures var before := Picks(data, pattern, prows, pcols, cands[..k]);
      cands[k] in Picks(data, pattern, prows, pcols, cands) <==>
        Matches(data, pattern, prows, pcols, cands[k]) && Clear(before, cands[k], prows, pcols)
    decreases |cands|
  {
    var n := |cands|;
    var init := cands[..n - 1];
    var w := cands[k];
    var before := Picks(data, pattern, prows, pcols, cands[..k]);
    PicksSound(data, pattern, prows, pcols, cands[..k]);
    assert w !in cands[..k] by {
      forall i | 0 <= i < k
        ensures cands[..k][i] != w
      {
        assert cands[..k][i] == cands[i];
      }
    }
    if k == n - 1 {
      assert cands[..k] == init;
      PicksLast(data, pattern, prows, pcols, cands);
    } else {
      assert init[..k] == cands[..k];
      assert Distinct(init) by {
        forall s, t | 0 <= s < t < |init|
          ensures init[s] != init[t]
        {
          assert init[s] == cands[s] && init[t] == cands[t];
        }
      }
      PicksMaximal(data, pattern, prows, pcols, init, k);
      assert cands[n - 1] != w;
      PicksOther(data, pattern, prows, pcols, cands, w);
    }
  }

  /** The last candidate, if not picked already, is picked exactly when it
      matches and overlaps none of the windows picked before it. */
  lemma PicksLast(data: seq<seq<char>>, pattern: seq<seq<char>>, prows: nat, pcols: nat,
                  cands: seq<(nat, nat)>)
    requires Rect(pattern, prows, pcols)
    requires AllFit(data, cands, prows, pcols)
    requires cands != []
    requires cands[|cands| - 1] !in Picks(data, pattern, prows, pcols, cands[..|cands| - 1])
    ensures var before := Picks(data, pattern, prows, pcols, cands[..|cands| - 1]);
            var w := cands[|cands| - 1];
            w in Picks(data, pattern, prows, pcols, cands) <==>
              Matches(data, pattern, prows, pcols, w) && Clear(before, w, prows, pcols)
  {
  }

  /** Whether a window other than the last candidate is picked does not
      depend on the last candidate. */
  lemma PicksOther(data: seq<seq<char>>, pattern: seq<seq<char>>, prows: nat, pcols: nat,
                   cands: seq<(nat, nat)>, w: (nat, nat))
    requires Rect(pattern, prows, pcols)
    requires AllFit(data, cands, prows, pcols)
    requires cands != [] && w != cands[|cands| - 1]
    ensures w in Picks(data, pattern, prows, pcols, cands) <==>
            w in Picks(data, pattern, prows, pcols, cands[..|cands| - 1])
  {
    var p := Picks(data, pattern, prows, pcols, cands[..|cands| - 1]);
    assert Picks(data, pattern, prows, pcols, cands) == p
        || Picks(data, pattern, prows, pcols, cands) == p + [cands[|cands| - 1]];
  }

  class MatrixMap {
    var avail: seq<seq<bool>>
    var size: (nat, nat)

    ghost predicate Valid()
      reads this
    {
      Rect(avail, size.0, size.1)
    }

    constructor (size: (nat, nat))
      ensures Valid() && this.size == size
      ensures forall y, x :: 0 <= y < size.0 && 0 <= x < size.1 ==> avail[y][x]
    {
      this.size := size;
      avail := seq(size.0, _ => seq(size.1, _ => true));
    }

    /**
      After a match at `coords`, marks unavailable every window whose corner
      lies in rows coords.0 .. coords.0+prows-1 and columns
      coords.1-pcols+1 .. coords.1+pcols-1, clipped to the avail.
     */
    method SuccessPattern(coords: (nat, nat), pattern: Matrix)
      requires Valid() && pattern.Valid()
      requires coords.0 < size.0 && coords.1 < size.1
      requires pattern.size.1 >= 1
      modifies this
      ensures Valid() && size == old(size)
      ensures forall y, x :: 0 <= y < size.0 && 0 <= x < size.1 ==>
                avail[y][x] == (old(avail[y][x]) && !Disabled(y, x, coords.0, coords.1, pattern.size.0, pattern.size.1, size))
    {
      var height := if pattern.size.0 < size.0 - coords.0 then pattern.size.0 else size.0 - coords.0;
      // how far the region reaches to the left of coords.1
      var back := pattern.size.1 - 1;
      var i := 0;
      while i < pattern.size.1
        invariant 0 <= i <= pattern.size.1
        invariant back == pattern.size.1 - 1 && i <= coords.1 + 1
      {
        if coords.1 < i {
          back := i - 1;
          break;
        }
        i := i + 1;
      }
      assert back == if coords.1 < pattern.size.1 - 1 then coords.1 else pattern.size.1 - 1;
      var wStart := coords.1 - back;
      var width := (if size.1 - coords.1 < pattern.size.1 then size.1 - coords.1 else pattern.size.1) + (coords.1 - wStart);

      var y := coords.0;
      while y < coords.0 + height
        invariant coords.0 <= y <= coords.0 + height
        invariant Valid() && size == old(size)
        invariant forall r, x :: 0 <= r < size.0 && 0 <= x < size.1 ==>
                    avail[r][x] == (old(avail[r][x]) && !(coords.0 <= r < y && wStart <= x < wStart + width))
      {
        var x := wStart;
        while x < wStart + width
          invariant wStart <= x <= wStart + width
          invariant Valid() && size == old(size)
          invariant forall r, x' :: 0 <= r < size.0 && 0 <= x' < size.1 ==>
                      avail[r][x'] == (old(avail[r][x']) && !(coords.0 <= r < y && wStart <= x' < wStart + width)
                                                      && !(r == y && wStart <= x' < x))
        {
          avail := avail[y := avail[y][x := false]];
          x := x + 1;
        }
        y := y + 1;
      }
    }
  }

  class Matrix {
    var size: (nat, nat)
    var data: seq<seq<char>>

    ghost predicate Valid()
      reads this
    {
      Rect(data, size.0, size.1)
    }

    /** The availability avail for `pattern`: every window position that fits,
        all available. */
    method CreateMap(pattern: Matrix) returns (m: MatrixMap)
      ensures fresh(m) && m.Valid()
      ensures m.size == MapSize(size.0, size.1, pattern.size.0, pattern.size.1)
      ensures forall y, x :: 0 <= y < m.size.0 && 0 <= x < m.size.1 ==> m.avail[y][x]
    {
      m := new MatrixMap(MapSize(size.0, size.1, pattern.size.0, pattern.size.1));
    }

    /** Whether the window at (y, x) equals the pattern cell for cell (the
        comparison loop of the scan). */
    method WindowMatches(pattern: Matrix, y: nat, x: nat) returns (ok: bool)
      requires Valid() && pattern.Valid()
      requires Fits((y, x), size.0, size.1, pattern.size.0, pattern.size.1)
      ensures ok <==> Matches(data, pattern.data, pattern.size.0, pattern.size.1, (y, x))
    {
      ok := true;
      var i := 0;
      while i < pattern.size.0
        invariant 0 <= i <= pattern.size.0
        invariant ok <==> forall i', j :: 0 <= i' < i && 0 <= j < pattern.size.1 ==> CellMatches(data, pattern.data, (y, x), i', j)
      {
        var j := 0;
        while j < pattern.size.1
          invariant 0 <= j <= pattern.size.1
          invariant ok ==> forall i', j' :: 0 <= i' < i && 0 <= j' < pattern.size.1 ==> CellMatches(data, pattern.data, (y, x), i', j')
          invariant ok <==> (forall i', j' :: 0 <= i' < i && 0 <= j' < pattern.size.1 ==> CellMatches(data, pattern.data, (y, x), i', j'))
                            && forall j' :: 0 <= j' < j ==> CellMatches(data, pattern.data, (y, x), i, j')
        {
          if pattern.data[i][j] != data[y + i][x + j] {
            assert !CellMatches(data, pattern.data, (y, x), i, j);
            ok := false;
            break;
          }
          j := j + 1;
        }
        if !ok {
          break;
        }
        i := i + 1;
      }
    }

    /**
      Rewrites the pattern-sized window at `coords` ('1' to '2', anything else
      to '*') and disables the overlapping windows in `avail`.
     */
    method ChangeMatrix(pattern: Matrix, coords: (nat, nat), avail: MatrixMap)
      requires Valid() && pattern.Valid() && avail.Valid() && pattern != this
      requires Fits(coords, size.0, size.1, pattern.size.0, pattern.size.1)
      requires coords.0 < avail.size.0 && coords.1 < avail.size.1
      requires pattern.size.1 >= 1
      modifies this, avail
      ensures Valid() && size == old(size)
      ensures forall i, j :: 0 <= i < size.0 && 0 <= j < size.1 ==>
                data[i][j] == if InWindow(i, j, coords, pattern.size.0, pattern.size.1) then Mark(old(data[i][j])) else old(data[i][j])
      ensures avail.Valid() && avail.size == old(avail.size)
      ensures forall y, x :: 0 <= y < avail.size.0 && 0 <= x < avail.size.1 ==>
                avail.avail[y][x] == (old(avail.avail[y][x]) && !Disabled(y, x, coords.0, coords.1, pattern.size.0, pattern.size.1, avail.size))
    {
      var i := coords.0;
      while i < coords.0 + pattern.size.0
        invariant coords.0 <= i <= coords.0 + pattern.size.0
        invariant Valid() && size == old(size) && unchanged(avail)
        invariant forall r, j :: 0 <= r < size.0 && 0 <= j < size.1 ==>
                    data[r][j] == if coords.0 <= r < i && coords.1 <= j < coords.1 + pattern.size.1 then Mark(old(data[r][j])) else old(data[r][j])
      {
        var j := coords.1;
        while j < coords.1 + pattern.size.1
          invariant coords.1 <= j <= coords.1 + pattern.size.1
          invariant Valid() && size == old(size) && unchanged(avail)
          invariant forall r, j' :: 0 <= r < size.0 && 0 <= j' < size.1 ==>
                      data[r][j'] == if (coords.0 <= r < i && coords.1 <= j' < coords.1 + pattern.size.1) || (r == i && coords.1 <= j' < j)
                                     then Mark(old(data[r][j'])) else old(data[r][j'])
        {
          data := data[i := data[i][j := if data[i][j] == '1' then '2' else '*']];
          j := j + 1;
        }
        i := i + 1;
      }
      avail.SuccessPattern(coords, pattern);
    }
  }

  /** A later window is disabled by a match exactly when it overlaps it. */
  lemma DisabledIsOverlap(y: nat, x: nat, r: nat, c: nat, prows: nat, pcols: nat, size: (nat, nat))
    requires y < size.0 && x < size.1 && pcols >= 1
    requires NotBefore(y, x, r, c) && (y, x) != (r, c)
    ensures Disabled(y, x, r, c, prows, pcols, size) <==> Overlap((r, c), (y, x), prows, pcols)
  {
  }

  /** Cells of a window that overlaps no pick are not covered. */
  lemma ClearWindowUncovered(picks: seq<(nat, nat)>, w: (nat, nat), prows: nat, pcols: nat)
    requires Clear(picks, w, prows, pcols)
    ensures forall i, j :: InWindow(i, j, w, prows, pcols) ==> !Covered(picks, i, j, prows, pcols)
  {
    forall i, j, t | InWindow(i, j, w, prows, pcols) && 0 <= t < |picks|
      ensures !InWindow(i, j, picks[t], prows, pcols)
    {
      assert !Overlap(picks[t], w, prows, pcols);
    }
  }

  lemma ClearAppend(picks: seq<(nat, nat)>, w: (nat, nat), v: (nat, nat), prows: nat, pcols: nat)
    ensures Clear(picks + [w], v, prows, pcols) <==> Clear(picks, v, prows, pcols) && !Overlap(w, v, prows, pcols)
  {
    var q := picks + [w];
    assert q[|picks|] == w;
    assert forall t :: 0 <= t < |picks| ==> q[t] == picks[t];
  }

  lemma CoveredAppend(picks: seq<(nat, nat)>, w: (nat, nat), i: int, j: int, prows: nat, pcols: nat)
    ensures Covered(picks + [w], i, j, prows, pcols) <==> Covered(picks, i, j, prows, pcols) || InWindow(i, j, w, prows, pcols)
  {
    var q := picks + [w];
    if Covered(picks, i, j, prows, pcols) {
      var t :| 0 <= t < |picks| && InWindow(i, j, picks[t], prows, pcols);
      assert q[t] == picks[t];
    }
    if InWindow(i, j, w, prows, pcols) {
      assert q[|picks|] == w;
    }
    if Covered(q, i, j, prows, pcols) {
      var t :| 0 <= t < |q| && InWindow(i, j, q[t], prows, pcols);
      if t < |picks| {
        assert q[t] == picks[t];
      }
    }
  }

  /** Corners before (y, x) in the scan are windows that fit the matrix. */
  lemma PrefixFits(orig: seq<seq<char>>, rows: nat, cols: nat, prows: nat, pcols: nat, y: nat, x: nat)
    requires Rect(orig, rows, cols)
    requires var size := MapSize(rows, cols, prows, pcols);
      (y < size.0 && x <= size.1) || (y == size.0 && x == 0)
    ensures AllFit(orig, Prefix(MapSize(rows, cols, prows, pcols).1, y, x), prows, pcols)
  {
    var size := MapSize(rows, cols, prows, pcols);
    var p := Prefix(size.1, y, x);
    forall t | 0 <= t < |p|
      ensures WindowIn(orig, p[t], prows, pcols)
    {
      assert InMap(p[t].0, p[t].1, size);
    }
  }

  /**
    The state of the scan before corner (y, x): the rewritten windows are the
    greedy selection among the corners before (y, x), the matrix holds
    exactly their rewrites, and a later corner is still available exactly
    when it overlaps none of them.
   */
  ghost predicate ScanInv(data: seq<seq<char>>, avail: seq<seq<bool>>, size: (nat, nat), orig: seq<seq<char>>,
                          pattern: seq<seq<char>>, prows: nat, pcols: nat, picks: seq<(nat, nat)>, y: nat, x: nat)
  {
    && x <= size.1
    && Rect(avail, size.0, size.1)
    && Rect(pattern, prows, pcols)
    && AllFit(orig, Prefix(size.1, y, x), prows, pcols)
    && picks == Picks(orig, pattern, prows, pcols, Prefix(size.1, y, x))
    && IsErased(data, orig, picks, prows, pcols)
    && forall y': nat, x': nat :: InMap(y', x', size) && NotBefore(y', x', y, x) ==>
         (avail[y'][x'] <==> Clear(picks, (y', x'), prows, pcols))
  }

  /** One corner of the scan: if it is still available and the window there
      equals the pattern, rewrite it. */
  method ScanCorner(pattern: Matrix, matrix: Matrix, avail: MatrixMap, y: nat, x: nat,
                    ghost orig: seq<seq<char>>, ghost picks: seq<(nat, nat)>) returns (ghost picks': seq<(nat, nat)>)
    requires pattern.Valid() && matrix.Valid() && avail.Valid() && pattern != matrix
    requires pattern.size.1 >= 1
    requires Rect(orig, matrix.size.0, matrix.size.1)
    requires avail.size == MapSize(matrix.size.0, matrix.size.1, pattern.size.0, pattern.size.1)
    requires InMap(y, x, avail.size)
    requires ScanInv(matrix.data, avail.avail, avail.size, orig, pattern.data, pattern.size.0, pattern.size.1, picks, y, x)
    modifies matrix, avail
    ensures matrix.Valid() && matrix.size == old(matrix.size)
    ensures avail.Valid() && avail.size == old(avail.size)
    ensures ScanInv(matrix.data, avail.avail, avail.size, orig, pattern.data, pattern.size.0, pattern.size.1, picks', y, x + 1)
  {
    ghost var prows, pcols := pattern.size.0, pattern.size.1;
    ghost var before := Prefix(avail.size.1, y, x);
    assert Prefix(avail.size.1, y, x + 1) == before + [(y, x)];
    assert (before + [(y, x)])[..|before|] == before;
    PrefixFits(orig, matrix.size.0, matrix.size.1, prows, pcols, y, x + 1);
    picks' := picks;
    if avail.avail[y][x] {
      ClearWindowUncovered(picks, (y, x), prows, pcols);
      var ok := matrix.WindowMatches(pattern, y, x);
      forall i, j | 0 <= i < prows && 0 <= j < pcols
        ensures CellMatches(matrix.data, pattern.data, (y, x), i, j) == CellMatches(orig, pattern.data, (y, x), i, j)
      {
        assert matrix.data[y + i][x + j] == orig[y + i][x + j];
      }
      assert ok <==> Matches(orig, pattern.data, prows, pcols, (y, x));
      if ok {
        ghost var av0 := avail.avail;
        matrix.ChangeMatrix(pattern, (y, x), avail);
        forall i, j | 0 <= i < |orig| && 0 <= j < |orig[i]|
          ensures matrix.data[i][j] == if Covered(picks + [(y, x)], i, j, prows, pcols) then Mark(orig[i][j]) else orig[i][j]
        {
          CoveredAppend(picks, (y, x), i, j, prows, pcols);
        }
        forall y': nat, x': nat | InMap(y', x', avail.size) && NotBefore(y', x', y, x + 1)
          ensures avail.avail[y'][x'] <==> Clear(picks + [(y, x)], (y', x'), prows, pcols)
        {
          assert av0[y'][x'] <==> Clear(picks, (y', x'), prows, pcols);
          DisabledIsOverlap(y', x', y, x, prows, pcols, avail.size);
          ClearAppend(picks, (y, x), (y', x'), prows, pcols);
        }
        picks' := picks + [(y, x)];
      }
    }
  }

  /** The inner loop of the scan: every corner of row `y` in turn. */
  method ScanRow(pattern: Matrix, matrix: Matrix, avail: MatrixMap, y: nat,
                 ghost orig: seq<seq<char>>, ghost picks: seq<(nat, nat)>) returns (ghost picks': seq<(nat, nat)>)
    requires pattern.Valid() && matrix.Valid() && avail.Valid() && pattern != matrix
    requires pattern.size.1 >= 1
    requires Rect(orig, matrix.size.0, matrix.size.1)
    requires avail.size == MapSize(matrix.size.0, matrix.size.1, pattern.size.0, pattern.size.1)
    requires y < avail.size.0
    requires ScanInv(matrix.data, avail.avail, avail.size, orig, pattern.data, pattern.size.0, pattern.size.1, picks, y, 0)
    modifies matrix, avail
    ensures matrix.Valid() && matrix.size == old(matrix.size)
    ensures avail.Valid() && avail.size == old(avail.size)
    ensures ScanInv(matrix.data, avail.avail, avail.size, orig, pattern.data, pattern.size.0, pattern.size.1,
                    picks', y, avail.size.1)
  {
    picks' := picks;
    var x := 0;
    while x < avail.size.1
      invariant 0 <= x <= avail.size.1
      invariant avail.Valid() && avail.size == old(avail.size)
      invariant matrix.Valid() && matrix.size == old(matrix.size)
      invariant ScanInv(matrix.data, avail.avail, avail.size, orig, pattern.data, pattern.size.0, pattern.size.1, picks', y, x)
    {
      picks' := ScanCorner(pattern, matrix, avail, y, x, orig, picks');
      x := x + 1;
    }
  }

  /**
    The scan of the program's main routine: every available window that
    equals the pattern is rewritten and its overlapping successors disabled.
    `picks` are the rewritten windows, in scan order.
   */
  method ErasePatterns(pattern: Matrix, matrix: Matrix) returns (ghost picks: seq<(nat, nat)>)
    requires pattern.Valid() && matrix.Valid() && pattern != matrix
    requires pattern.size.1 >= 1
    modifies matrix
    ensures matrix.Valid() && matrix.size == old(matrix.size)
    // the rewritten windows are the greedy selection on the original matrix ...
    ensures var size := MapSize(matrix.size.0, matrix.size.1, pattern.size.0, pattern.size.1);
      AllFit(old(matrix.data), Prefix(size.1, size.0, 0), pattern.size.0, pattern.size.1) &&
      picks == Picks(old(matrix.data), pattern.data, pattern.size.0, pattern.size.1, Prefix(size.1, size.0, 0))
    // ... which never overlap one another
    ensures Disjoint(picks, pattern.size.0, pattern.size.1)
    // and exactly their cells are rewritten
    ensures IsErased(matrix.data, old(matrix.data), picks, pattern.size.0, pattern.size.1)
  {
    var avail := matrix.CreateMap(pattern);
    ghost var orig := matrix.data;
    ghost var prows, pcols := pattern.size.0, pattern.size.1;
    PrefixFits(orig, matrix.size.0, matrix.size.1, prows, pcols, 0, 0);
    picks := [];
    var y := 0;
    while y < avail.size.0
      invariant 0 <= y <= avail.size.0
      invariant avail.Valid() && avail.size == MapSize(matrix.size.0, matrix.size.1, prows, pcols)
      invariant matrix.Valid() && matrix.size == old(matrix.size)
      invariant ScanInv(matrix.data, avail.avail, avail.size, orig, pattern.data, prows, pcols, picks, y, 0)
    {
      picks := ScanRow(pattern, matrix, avail, y, orig, picks);
      assert Prefix(avail.size.1, y + 1, 0) == Prefix(avail.size.1, y, avail.size.1);
      PrefixFits(orig, matrix.size.0, matrix.size.1, prows, pcols, y + 1, 0);
      y := y + 1;
    }
    PicksSound(orig, pattern.data, prows, pcols, Prefix(avail.size.1, y, 0));
  }
}
