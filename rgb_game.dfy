/**
  A SameGame-style board of 10 rows and 15 columns of coloured balls.

  Row 0 is the bottom row, column 0 the left column; a blank cell holds ' '.
  A move finds the largest group of 4-connected balls of one colour
  (ties go to the group found first in a column-major scan), removes it,
  lets the balls of every column fall down, and shifts the non-empty
  columns to the left.
 */
module RGBGame {

  const Rows: int := 10
  const Cols: int := 15
  const Blank: char := ' '
  /** The label of a cell that belongs to no cluster yet. */
  const Unlabelled: int := -1

  /** A cell (row, column). */
  type Cell = (int, int)

  predicate InBoard(p: Cell)
  {
    0 <= p.0 < Rows && 0 <= p.1 < Cols
  }

  /** `g` is Rows x Cols. */
  predicate Grid<T>(g: seq<seq<T>>)
  {
    |g| == Rows && forall i :: 0 <= i < Rows ==> |g[i]| == Cols
  }

  function At<T>(g: seq<seq<T>>, p: Cell): T
    requires Grid(g) && InBoard(p)
  {
    g[p.0][p.1]
  }

  function Set<T>(g: seq<seq<T>>, p: Cell, v: T): (r: seq<seq<T>>)
    requires Grid(g) && InBoard(p)
    ensures Grid(r)
    ensures forall q :: InBoard(q) ==> At(r, q) == if q == p then v else At(g, q)
  {
    g[p.0 := g[p.0][p.1 := v]]
  }

  /** p and q are 4-neighbours. */
  predicate Adjacent(p: Cell, q: Cell)
  {
    || (p.0 == q.0 && (p.1 - q.1 == 1 || q.1 - p.1 == 1))
    || (p.1 == q.1 && (p.0 - q.0 == 1 || q.0 - p.0 == 1))
  }

  /** The neighbours on the board, in the order the search visits them:
      the row below in the array (index - 1), the row above, left, right. */
  function Nbrs(p: Cell): (r: seq<Cell>)
    requires InBoard(p)
    ensures forall q :: q in r <==> InBoard(q) && Adjacent(p, q)
  {
    (if p.0 != 0 then [(p.0 - 1, p.1)] else [])
    + (if p.0 != Rows - 1 then [(p.0 + 1, p.1)] else [])
    + (if p.1 != 0 then [(p.0, p.1 - 1)] else [])
    + (if p.1 != Cols - 1 then [(p.0, p.1 + 1)] else [])
  }

  /** The four directions the search looks in, in the order it looks. */
  datatype Direction = Up | Down | Left | Right

  /** p has a neighbour on the board in direction d (the source's guards
      `pos.0 != 0`, `pos.0 != 9`, `pos.1 != 0`, `pos.1 != 14`). */
  predicate HasNbr(p: Cell, d: Direction)
  {
    match d
    case Up => p.0 != 0
    case Down => p.0 != Rows - 1
    case Left => p.1 != 0
    case Right => p.1 != Cols - 1
  }

  function Toward(p: Cell, d: Direction): Cell
  {
    match d
    case Up => (p.0 - 1, p.1)
    case Down => (p.0 + 1, p.1)
    case Left => (p.0, p.1 - 1)
    case Right => (p.0, p.1 + 1)
  }

  /** The neighbours are exactly the four directions that have one. */
  lemma NbrDirections(p: Cell)
    requires InBoard(p)
    ensures forall q :: q in Nbrs(p) <==>
      (HasNbr(p, Up) && q == Toward(p, Up)) || (HasNbr(p, Down) && q == Toward(p, Down)) ||
      (HasNbr(p, Left) && q == Toward(p, Left)) || (HasNbr(p, Right) && q == Toward(p, Right))
  {
  }

  // ---------------------------------------------------------------------
  // Counting unlabelled cells (the termination measure of the search)

  function CountRow(r: seq<int>): nat
  {
    if r == [] then 0 else (if r[0] == Unlabelled then 1 else 0) + CountRow(r[1..])
  }

  function CountGrid(g: seq<seq<int>>): nat
  {
    if g == [] then 0 else CountRow(g[0]) + CountGrid(g[1..])
  }

  lemma {:induction false} CountRowUpdate(r: seq<int>, j: nat, v: int)
    requires j < |r|
    ensures CountRow(r[j := v]) + (if r[j] == Unlabelled then 1 else 0)
         == CountRow(r) + (if v == Unlabelled then 1 else 0)
  {
    if j > 0 {
      assert r[j := v][1..] == r[1..][j - 1 := v];
      CountRowUpdate(r[1..], j - 1, v);
    } else {
      assert r[j := v][1..] == r[1..];
    }
  }

  lemma {:induction false} CountGridUpdate(g: seq<seq<int>>, i: nat, row: seq<int>)
    requires i < |g|
    ensures CountGrid(g[i := row]) + CountRow(g[i]) == CountGrid(g) + CountRow(row)
  {
    if i > 0 {
      assert g[i := row][1..] == g[1..][i - 1 := row];
      CountGridUpdate(g[1..], i - 1, row);
    } else {
      assert g[i := row][1..] == g[1..];
    }
  }

  /** Labelling one unlabelled cell lowers the count by exactly one. */
  lemma LabelOne(g: seq<seq<int>>, p: Cell, v: int)
    requires Grid(g) && InBoard(p) && At(g, p) == Unlabelled && v != Unlabelled
    ensures CountGrid(Set(g, p, v)) + 1 == CountGrid(g)
  {
    CountRowUpdate(g[p.0], p.1, v);
    CountGridUpdate(g, p.0, g[p.0][p.1 := v]);
  }

  // ---------------------------------------------------------------------
  // What a search finds

  predicate Distinct(cells: seq<Cell>)
  {
    forall s, t :: 0 <= s < t < |cells| ==> cells[s] != cells[t]
  }

  /** The m-th cell taken from the search's queue: the start, then the
      labelled cells in order. */
  function Source(start: Cell, cells: seq<Cell>, m: int): Cell
    requires 0 <= m <= |cells|
  {
    if m == 0 then start else cells[m - 1]
  }

  /** cells[k] was reached from the parent[k]-th cell taken from the queue,
      which is the start or a cell labelled before it. */
  ghost predicate Linked(start: Cell, cells: seq<Cell>, parent: seq<int>, k: int)
    requires InBoard(start) && 0 <= k < |cells| && |parent| == |cells|
    requires forall m :: 0 <= m < |cells| ==> InBoard(cells[m])
  {
    0 <= parent[k] <= k && cells[k] in Nbrs(Source(start, cells, parent[k]))
  }

  ghost predicate AllInBoard(cells: seq<Cell>)
  {
    forall k :: 0 <= k < |cells| ==> InBoard(cells[k])
  }

  /** Each of `cells` was unlabelled before and has the start cell's colour. */
  ghost predicate Members(desk: seq<seq<char>>, before: seq<seq<int>>, start: Cell, cells: seq<Cell>)
    requires Grid(desk) && Grid(before) && InBoard(start) && AllInBoard(cells)
  {
    forall k :: 0 <= k < |cells| ==> At(before, cells[k]) == Unlabelled && At(desk, cells[k]) == At(desk, start)
  }

  /** Each of `cells` was reached from the start or from a cell before it. */
  ghost predicate AllLinked(start: Cell, cells: seq<Cell>, parent: seq<int>)
    requires InBoard(start) && AllInBoard(cells)
  {
    |parent| == |cells| && forall k :: 0 <= k < |cells| ==> Linked(start, cells, parent, k)
  }

  /** `after` is `before` with exactly `cells` labelled `num`. */
  ghost predicate Relabelled(before: seq<seq<int>>, after: seq<seq<int>>, cells: seq<Cell>, num: int)
    requires Grid(before) && Grid(after)
  {
    forall q :: InBoard(q) ==> At(after, q) == if q in cells then num else At(before, q)
  }

  /**
    `cells` are the cells a search from `start` labelled `num`, in the order
    it labelled them: distinct, unlabelled before, of the start cell's
    colour, each a neighbour of the start or of a cell labelled before it;
    every other label is unchanged.
   */
  ghost predicate Found(desk: seq<seq<char>>, before: seq<seq<int>>, after: seq<seq<int>>,
                        start: Cell, num: int, cells: seq<Cell>, parent: seq<int>)
  {
    && Grid(desk) && Grid(before) && Grid(after) && InBoard(start) && AllInBoard(cells)
    && Distinct(cells)
    && Members(desk, before, start, cells)
    && AllLinked(start, cells, parent)
    && Relabelled(before, after, cells, num)
  }

  /** The cells met going from `cells[k]` back to the start, each step to
      the cell it was reached from: a walk between 4-neighbours that stays
      among the start and `cells`. */
  ghost function Chain(start: Cell, cells: seq<Cell>, parent: seq<int>, k: int): (w: seq<Cell>)
    requires InBoard(start) && AllInBoard(cells) && AllLinked(start, cells, parent) && 0 <= k < |cells|
    ensures |w| >= 2 && w[0] == cells[k] && w[|w| - 1] == start
    ensures forall i :: 0 <= i < |w| ==> w[i] == start || w[i] in cells
    ensures forall i :: 0 <= i < |w| - 1 ==> Adjacent(w[i], w[i + 1])
    decreases k
  {
    assert Linked(start, cells, parent, k);
    if parent[k] == 0 then [cells[k], start]
    else [cells[k]] + Chain(start, cells, parent, parent[k] - 1)
  }

  lemma NotYetFound(before: seq<seq<int>>, labels: seq<seq<int>>, cells: seq<Cell>, num: int, q: Cell)
    requires Grid(before) && Grid(labels) && Relabelled(before, labels, cells, num)
    requires num != Unlabelled && InBoard(q) && At(labels, q) == Unlabelled
    ensures q !in cells && At(before, q) == Unlabelled
  {
  }

  lemma DistinctAppend(cells: seq<Cell>, q: Cell)
    requires Distinct(cells) && q !in cells
    ensures Distinct(cells + [q])
  {
  }

  lemma MembersAppend(desk: seq<seq<char>>, before: seq<seq<int>>, start: Cell, cells: seq<Cell>, q: Cell)
    requires Grid(desk) && Grid(before) && InBoard(start) && AllInBoard(cells) && InBoard(q)
    requires Members(desk, before, start, cells)
    requires At(before, q) == Unlabelled && At(desk, q) == At(desk, start)
    ensures AllInBoard(cells + [q]) && Members(desk, before, start, cells + [q])
  {
    var cells' := cells + [q];
    assert forall k :: 0 <= k < |cells| ==> cells'[k] == cells[k];
  }

  lemma LinkedAppend(start: Cell, cells: seq<Cell>, parent: seq<int>, head: int, q: Cell)
    requires InBoard(start) && AllInBoard(cells) && InBoard(q) && AllLinked(start, cells, parent)
    requires 0 <= head < |cells| + 1 && q in Nbrs(Source(start, cells, head))
    ensures AllInBoard(cells + [q]) && AllLinked(start, cells + [q], parent + [head])
  {
    var cells' := cells + [q];
    var parent' := parent + [head];
    assert AllInBoard(cells') by {
      assert forall k :: 0 <= k < |cells| ==> cells'[k] == cells[k];
    }
    forall k | 0 <= k < |cells'|
      ensures Linked(start, cells', parent', k)
    {
      if k < |cells| {
        assert cells'[k] == cells[k] && parent'[k] == parent[k];
        assert Linked(start, cells, parent, k);
        assert Source(start, cells', parent[k]) == Source(start, cells, parent[k]);
      } else {
        assert Source(start, cells', head) == Source(start, cells, head);
      }
    }
  }

  lemma RelabelledAppend(before: seq<seq<int>>, labels: seq<seq<int>>, cells: seq<Cell>, num: int, q: Cell)
    requires Grid(before) && Grid(labels) && InBoard(q) && Relabelled(before, labels, cells, num)
    ensures Relabelled(before, Set(labels, q, num), cells + [q], num)
  {
  }

  /** Every neighbour of p with colour c carries a label (vacuous for a
      blank p, which the search skips). */
  ghost predicate Closed(desk: seq<seq<char>>, labels: seq<seq<int>>, p: Cell, c: char)
    requires Grid(desk) && Grid(labels) && InBoard(p)
  {
    At(desk, p) == Blank || forall q :: q in Nbrs(p) && At(desk, q) == c ==> At(labels, q) != Unlabelled
  }

  /** The start cell is blank, or no neighbour of its colour is unlabelled. */
  ghost predicate Isolated(desk: seq<seq<char>>, labels: seq<seq<int>>, p: Cell)
    requires Grid(desk) && Grid(labels) && InBoard(p)
  {
    At(desk, p) == Blank ||
    forall q :: q in Nbrs(p) ==> At(desk, q) != At(desk, p) || At(labels, q) != Unlabelled
  }

  /** Labels only go from unlabelled to labelled. */
  ghost predicate Grows(before: seq<seq<int>>, after: seq<seq<int>>)
    requires Grid(before) && Grid(after)
  {
    forall q :: InBoard(q) && At(before, q) != Unlabelled ==> At(after, q) == At(before, q)
  }

  /** The search's loop invariant: the first `head` cells taken from the
      queue are Closed. */
  ghost predicate SearchInv(desk: seq<seq<char>>, before: seq<seq<int>>, labels: seq<seq<int>>,
                            start: Cell, num: int, cells: seq<Cell>, parent: seq<int>, head: int)
  {
    && Found(desk, before, labels, start, num, cells, parent)
    && num != Unlabelled
    && At(before, start) == Unlabelled
    && 0 <= head <= |cells| + 1
    && (forall m :: 0 <= m < head ==> Closed(desk, labels, Source(start, cells, m), At(desk, start)))
    && (At(desk, start) == Blank ==> cells == [])
  }

  lemma ClosedGrows(desk: seq<seq<char>>, labels: seq<seq<int>>, labels': seq<seq<int>>, p: Cell, c: char)
    requires Grid(desk) && Grid(labels) && Grid(labels') && InBoard(p)
    requires Closed(desk, labels, p, c) && Grows(labels, labels')
    ensures Closed(desk, labels', p, c)
  {
  }

  /** Labelling a reachable cell of the right colour keeps the search invariant. */
  lemma VisitKeeps(desk: seq<seq<char>>, before: seq<seq<int>>, labels: seq<seq<int>>,
                   start: Cell, num: int, cells: seq<Cell>, parent: seq<int>, head: int, q: Cell)
    requires SearchInv(desk, before, labels, start, num, cells, parent, head)
    requires head < |cells| + 1 && InBoard(q) && q in Nbrs(Source(start, cells, head))
    requires At(desk, Source(start, cells, head)) != Blank
    requires At(labels, q) == Unlabelled && At(desk, q) == At(desk, start)
    ensures Grows(labels, Set(labels, q, num))
    ensures SearchInv(desk, before, Set(labels, q, num), start, num, cells + [q], parent + [head], head)
  {
    var labels' := Set(labels, q, num);
    var cells' := cells + [q];
    FoundAppend(desk, before, labels, start, num, cells, parent, head, q);
    forall m | 0 <= m < head
      ensures Closed(desk, labels', Source(start, cells', m), At(desk, start))
    {
      assert Source(start, cells', m) == Source(start, cells, m);
      ClosedGrows(desk, labels, labels', Source(start, cells, m), At(desk, start));
    }
  }

  lemma FoundAppend(desk: seq<seq<char>>, before: seq<seq<int>>, labels: seq<seq<int>>,
                    start: Cell, num: int, cells: seq<Cell>, parent: seq<int>, head: int, q: Cell)
    requires Found(desk, before, labels, start, num, cells, parent) && num != Unlabelled
    requires 0 <= head < |cells| + 1 && InBoard(q) && q in Nbrs(Source(start, cells, head))
    requires At(labels, q) == Unlabelled && At(desk, q) == At(desk, start)
    ensures Found(desk, before, Set(labels, q, num), start, num, cells + [q], parent + [head])
  {
    NotYetFound(before, labels, cells, num, q);
    DistinctAppend(cells, q);
    MembersAppend(desk, before, start, cells, q);
    LinkedAppend(start, cells, parent, head, q);
    RelabelledAppend(before, labels, cells, num, q);
  }

  // ---------------------------------------------------------------------
  // What the clustering pass establishes

  /** The result of a pass that found no cluster. */
  const NoCluster: (int, int, char) := (Unlabelled, Unlabelled, Blank)

  /** No two neighbouring balls share a colour: the game is over. */
  ghost predicate NoMove(desk: seq<seq<char>>)
    requires Grid(desk)
  {
    forall p, q :: InBoard(p) && InBoard(q) && Adjacent(p, q) && At(desk, p) != Blank ==> At(desk, p) != At(desk, q)
  }

  /** A ball whose same-coloured neighbours all carry its own label, which
      is a real one when there is such a neighbour. */
  ghost predicate Settled(desk: seq<seq<char>>, labels: seq<seq<int>>, p: Cell)
    requires Grid(desk) && Grid(labels) && InBoard(p)
  {
    At(desk, p) == Blank ||
    forall q :: q in Nbrs(p) && At(desk, q) == At(desk, p) ==> At(labels, q) == At(labels, p) != Unlabelled
  }

  /** Cell p comes before (i, j) in the column-major scan. */
  predicate Scanned(p: Cell, i: int, j: int)
  {
    p.1 < j || (p.1 == j && p.0 < i)
  }

  /** Every labelled cell and every cell the scan has passed is Settled. */
  ghost predicate ScannedSettled(desk: seq<seq<char>>, labels: seq<seq<int>>, i: int, j: int)
    requires Grid(desk) && Grid(labels)
  {
    forall p :: InBoard(p) && (At(labels, p) != Unlabelled || Scanned(p, i, j)) ==> Settled(desk, labels, p)
  }

  /** Label k is carried by exactly the cells of groups[k]. */
  ghost predicate GroupsLabelled(labels: seq<seq<int>>, groups: seq<seq<Cell>>)
    requires Grid(labels)
  {
    && (forall k, q :: 0 <= k < |groups| && q in groups[k] ==> InBoard(q) && At(labels, q) == k)
    && (forall q :: InBoard(q) && At(labels, q) != Unlabelled ==> 0 <= At(labels, q) < |groups| && q in groups[At(labels, q)])
  }

  /** `cells` is one cluster grown from `start`: its cells have the start
      cell's colour, each was reached from the start or from an earlier
      one, and when it is not empty the start is among them and is a ball. */
  ghost predicate Cluster(desk: seq<seq<char>>, start: Cell, cells: seq<Cell>, parent: seq<int>)
    requires Grid(desk)
  {
    && InBoard(start) && AllInBoard(cells)
    && AllLinked(start, cells, parent)
    && (forall k :: 0 <= k < |cells| ==> At(desk, cells[k]) == At(desk, start))
    && (cells != [] ==> start in cells && At(desk, start) != Blank)
  }

  /** Every group is a cluster, grown from `starts[k]` with links `parents[k]`. */
  ghost predicate Clusters(desk: seq<seq<char>>, groups: seq<seq<Cell>>, starts: seq<Cell>, parents: seq<seq<int>>)
    requires Grid(desk)
  {
    && |starts| == |groups| && |parents| == |groups|
    && forall k :: 0 <= k < |groups| ==> Cluster(desk, starts[k], groups[k], parents[k])
  }

  /** Each group is 4-connected and of one colour: every cell of group `k`
      is joined to the group's start by a walk between neighbours that
      never leaves the group, and all of them have the start's colour. */
  lemma GroupJoined(desk: seq<seq<char>>, groups: seq<seq<Cell>>, starts: seq<Cell>, parents: seq<seq<int>>,
                    k: int, t: int)
    requires Grid(desk) && Clusters(desk, groups, starts, parents) && 0 <= k < |groups| && 0 <= t < |groups[k]|
    ensures InBoard(starts[k]) && AllInBoard(groups[k]) && AllLinked(starts[k], groups[k], parents[k])
    ensures var w := Chain(starts[k], groups[k], parents[k], t);
            && w[0] == groups[k][t] && w[|w| - 1] == starts[k]
            && (forall i :: 0 <= i < |w| ==> w[i] in groups[k] && At(desk, w[i]) == At(desk, starts[k]))
            && (forall i :: 0 <= i < |w| - 1 ==> Adjacent(w[i], w[i + 1]))
  {
    assert Cluster(desk, starts[k], groups[k], parents[k]);
    var w := Chain(starts[k], groups[k], parents[k], t);
    forall i | 0 <= i < |w|
      ensures w[i] in groups[k] && At(desk, w[i]) == At(desk, starts[k])
    {
      if w[i] != starts[k] {
        var m :| 0 <= m < |groups[k]| && groups[k][m] == w[i];
      }
    }
  }

  /**
    `best` is NoCluster when every group is empty, and otherwise a group
    of at least two balls of one colour that no group exceeds and no
    earlier group equals.
   */
  ghost predicate BestOk(desk: seq<seq<char>>, groups: seq<seq<Cell>>, best: (int, int, char))
    requires Grid(desk)
  {
    if best == NoCluster then
      forall k :: 0 <= k < |groups| ==> groups[k] == []
    else
      && 0 <= best.0 < |groups| && best.1 == |groups[best.0]| >= 2 && best.2 != Blank
      && (forall q :: q in groups[best.0] ==> InBoard(q) && At(desk, q) == best.2)
      && (forall k :: 0 <= k < |groups| ==> |groups[k]| <= best.1)
      && (forall k :: 0 <= k < best.0 ==> |groups[k]| < best.1)
      && !NoMove(desk)
  }

  /** The clustering scan's invariant when it reaches cell (i, j). */
  ghost predicate ClusterInv(desk: seq<seq<char>>, labels: seq<seq<int>>, groups: seq<seq<Cell>>,
                             best: (int, int, char), counter: int, i: int, j: int)
  {
    && Grid(desk) && Grid(labels) && counter == |groups|
    && GroupsLabelled(labels, groups)
    && ScannedSettled(desk, labels, i, j)
    && BestOk(desk, groups, best)
  }

  /** A cluster map with no labels. */
  function NoLabels(): (r: seq<seq<int>>)
    ensures Grid(r) && forall q :: InBoard(q) ==> At(r, q) == Unlabelled
  {
    seq(Rows, _ => seq(Cols, _ => Unlabelled))
  }

  /** A search that labelled some cells exhibits two neighbouring balls of
      one colour. */
  lemma MovePossible(desk: seq<seq<char>>, before: seq<seq<int>>, after: seq<seq<int>>,
                     start: Cell, num: int, cells: seq<Cell>, parent: seq<int>)
    requires Found(desk, before, after, start, num, cells, parent)
    requires cells != [] && At(desk, start) != Blank
    ensures !NoMove(desk)
  {
    assert Linked(start, cells, parent, 0);
    assert Adjacent(start, cells[0]);
  }

  /** After a search from the scan position (i, j), the scan may move on. */
  lemma SettledAfterSearch(desk: seq<seq<char>>, before: seq<seq<int>>, after: seq<seq<int>>,
                           start: Cell, num: int, cells: seq<Cell>, parent: seq<int>, i: int, j: int)
    requires Found(desk, before, after, start, num, cells, parent) && num != Unlabelled
    requires start == (i, j) && At(before, start) == Unlabelled
    requires forall m :: 0 <= m <= |cells| ==> Closed(desk, after, Source(start, cells, m), At(desk, start))
    requires |cells| == 0 ==> Isolated(desk, before, start)
    requires |cells| != 0 ==> start in cells
    requires ScannedSettled(desk, before, i, j)
    ensures ScannedSettled(desk, after, i + 1, j)
  {
    var c := At(desk, start);
    forall p | InBoard(p) && (At(after, p) != Unlabelled || Scanned(p, i + 1, j)) && At(desk, p) != Blank
      ensures Settled(desk, after, p)
    {
      if p in cells || p == start {
        var m: int :| 0 <= m <= |cells| && p == Source(start, cells, m) by {
          if p == start {
            assert p == Source(start, cells, 0);
          } else {
            var t :| 0 <= t < |cells| && cells[t] == p;
            assert p == Source(start, cells, t + 1);
          }
        }
        assert At(desk, p) == c && At(before, p) == Unlabelled;
        assert Closed(desk, after, p, c);
        forall q | q in Nbrs(p) && At(desk, q) == c
          ensures At(after, q) == At(after, p) != Unlabelled
        {
          assert At(after, q) != Unlabelled;
          assert p in Nbrs(q);
          if q in cells {
            assert p in cells;
          } else {
            assert false;
          }
        }
      } else {
        assert At(after, p) == At(before, p);
        assert Settled(desk, before, p);
        forall q | q in Nbrs(p) && At(desk, q) == At(desk, p)
          ensures At(after, q) == At(after, p) != Unlabelled
        {
          assert At(before, q) != Unlabelled;
          assert q !in cells;
        }
      }
    }
  }

  /** Adding a search's cells as a new group keeps the labelling exact. */
  lemma LabelsAfterSearch(desk: seq<seq<char>>, before: seq<seq<int>>, after: seq<seq<int>>,
                          start: Cell, cells: seq<Cell>, parent: seq<int>, groups: seq<seq<Cell>>)
    requires Found(desk, before, after, start, |groups|, cells, parent)
    requires GroupsLabelled(before, groups)
    ensures GroupsLabelled(after, groups + [cells])
  {
    var groups' := groups + [cells];
    forall k, q | 0 <= k < |groups'| && q in groups'[k]
      ensures InBoard(q) && At(after, q) == k
    {
      if k < |groups| {
        assert q in groups[k];
        assert q !in cells;
      }
    }
  }

  /** The scan's choice of the best group stays right after a search. */
  lemma BestAfterSearch(desk: seq<seq<char>>, before: seq<seq<int>>, after: seq<seq<int>>,
                        start: Cell, cells: seq<Cell>, parent: seq<int>, groups: seq<seq<Cell>>,
                        best: (int, int, char), t: (int, int, char))
    requires Found(desk, before, after, start, |groups|, cells, parent)
    requires BestOk(desk, groups, best)
    requires t == (|groups|, |cells|, At(desk, start))
    requires |cells| != 0 ==> |cells| >= 2 && At(desk, start) != Blank
    ensures BestOk(desk, groups + [cells], if t.1 > best.1 && t.1 != 0 then t else best)
  {
    var groups' := groups + [cells];
    if |cells| != 0 {
      MovePossible(desk, before, after, start, |groups|, cells, parent);
    }
    if t.1 > best.1 && t.1 != 0 {
      assert groups'[t.0] == cells;
      forall k | 0 <= k < |groups'|
        ensures |groups'[k]| <= t.1
      {
        if k < |groups| && best != NoCluster {
          assert |groups[k]| <= best.1;
        }
      }
    } else if best != NoCluster {
      assert groups'[best.0] == groups[best.0];
    }
  }

  lemma NextColumn(desk: seq<seq<char>>, labels: seq<seq<int>>, j: int)
    requires Grid(desk) && Grid(labels) && ScannedSettled(desk, labels, Rows, j)
    ensures ScannedSettled(desk, labels, 0, j + 1)
  {
    forall p | InBoard(p) && (At(labels, p) != Unlabelled || Scanned(p, 0, j + 1))
      ensures Settled(desk, labels, p)
    {
      assert Scanned(p, Rows, j) || At(labels, p) != Unlabelled;
    }
  }

  /** When the scan is over: the best group is NoCluster exactly when no
      move is left. */
  lemma EndOfScan(desk: seq<seq<char>>, labels: seq<seq<int>>, groups: seq<seq<Cell>>, best: (int, int, char))
    requires Grid(desk) && Grid(labels) && ScannedSettled(desk, labels, 0, Cols)
    requires GroupsLabelled(labels, groups) && BestOk(desk, groups, best)
    ensures best == NoCluster <==> NoMove(desk)
    ensures forall p :: InBoard(p) ==> Settled(desk, labels, p)
  {
    assert forall p :: InBoard(p) ==> Scanned(p, 0, Cols);
    if best == NoCluster {
      forall p, q | InBoard(p) && InBoard(q) && Adjacent(p, q) && At(desk, p) != Blank
        ensures At(desk, p) != At(desk, q)
      {
        assert Settled(desk, labels, p);
        assert q in Nbrs(p);
      }
    }
  }

  /** When the queue runs dry every cell taken from it is Closed, and the
      search labelled nothing exactly when the start was isolated. */
  lemma SearchDone(desk: seq<seq<char>>, before: seq<seq<int>>, labels: seq<seq<int>>,
                   start: Cell, num: int, cells: seq<Cell>, parent: seq<int>)
    requires SearchInv(desk, before, labels, start, num, cells, parent, |cells| + 1)
    ensures forall m :: 0 <= m <= |cells| ==> Closed(desk, labels, Source(start, cells, m), At(desk, start))
    ensures |cells| == 0 <==> Isolated(desk, before, start)
    ensures |cells| != 0 ==> start in cells && |cells| >= 2 && At(desk, start) != Blank
  {
    var colour := At(desk, start);
    if cells != [] {
      // the first labelled cell is a neighbour of the start; the start is
      // its neighbour in turn, so it was reached back and labelled
      assert Linked(start, cells, parent, 0);
      assert start in Nbrs(cells[0]);
      assert Closed(desk, labels, Source(start, cells, 1), colour);
      assert cells[0] != start;
      var k :| 0 <= k < |cells| && cells[k] == start;
      assert !Isolated(desk, before, start) by {
        assert cells[0] in Nbrs(start) && At(before, cells[0]) == Unlabelled;
      }
    } else {
      assert Closed(desk, labels, Source(start, cells, 0), colour);
    }
  }

  // ---------------------------------------------------------------------
  // Columns: what gravity and compaction do to them

  /** Column j of the board, from row 0 (the bottom) up. */
  function Col(g: seq<seq<char>>, j: int): (c: seq<char>)
    requires Grid(g) && 0 <= j < Cols
    ensures |c| == Rows && forall i :: 0 <= i < Rows ==> c[i] == g[i][j]
  {
    seq(Rows, i requires 0 <= i < Rows => g[i][j])
  }

  /** Writing one cell changes only its own column, at its own row. */
  lemma ColSet(g: seq<seq<char>>, i: int, j: int, v: char)
    requires Grid(g) && InBoard((i, j))
    ensures forall k :: 0 <= k < Cols ==> Col(Set(g, (i, j), v), k) == if k == j then Col(g, j)[i := v] else Col(g, k)
  {
    forall k | 0 <= k < Cols
      ensures Col(Set(g, (i, j), v), k) == if k == j then Col(g, j)[i := v] else Col(g, k)
    {
      assert forall r :: 0 <= r < Rows ==> Col(Set(g, (i, j), v), k)[r] == At(Set(g, (i, j), v), (r, k));
    }
  }

  /** The board as its list of columns, left to right. */
  function Columns(g: seq<seq<char>>): (cs: seq<seq<char>>)
    requires Grid(g)
    ensures |cs| == Cols && forall j :: 0 <= j < Cols ==> cs[j] == Col(g, j)
  {
    seq(Cols, j requires 0 <= j < Cols => Col(g, j))
  }

  predicate IsBlank(c: seq<char>)
  {
    forall i :: 0 <= i < |c| ==> c[i] == Blank
  }

  function Blanks(n: nat): (c: seq<char>)
    ensures |c| == n && IsBlank(c)
  {
    seq(n, _ => Blank)
  }

  /** The balls of a column (or row), in order. */
  function Balls(c: seq<char>): (b: seq<char>)
    ensures |b| <= |c|
    ensures forall i :: 0 <= i < |b| ==> b[i] != Blank
  {
    if c == [] then [] else (if c[0] == Blank then [] else [c[0]]) + Balls(c[1..])
  }

  /** The column once every ball has fallen: its balls in their order at
      the bottom, blanks above. */
  function Settle(c: seq<char>): (s: seq<char>)
    ensures |s| == |c|
  {
    Balls(c) + Blanks(|c| - |Balls(c)|)
  }

  /** No blank lies below a ball. */
  predicate Fallen(c: seq<char>)
  {
    forall i, k :: 0 <= i < k < |c| && c[i] == Blank ==> c[k] == Blank
  }

  /**
    One gravity pass over a column, bottom to top: the lowest blank rises
    to the top and everything above it drops by one cell.
   */
  function Pass(c: seq<char>): (r: seq<char>)
    ensures |r| == |c|
  {
    if |c| <= 1 then c
    else if c[0] == Blank then c[1..] + [Blank]
    else [c[0]] + Pass(c[1..])
  }

  /** The step of a pass at cell i: a blank there takes the cell above. */
  function FallStep(c: seq<char>, i: int): (r: seq<char>)
    requires 0 <= i < |c| - 1
    ensures |r| == |c|
  {
    if c[i] == Blank then c[i := c[i + 1]][i + 1 := Blank] else c
  }

  /** The pass's loop computes Pass one prefix at a time. */
  lemma FallStepPass(c: seq<char>, i: int)
    requires 0 <= i < |c| - 1
    ensures FallStep(Pass(c[..i + 1]) + c[i + 1..], i) == Pass(c[..i + 2]) + c[i + 2..]
  {
    PassSnoc(c[..i + 1], c[i + 1]);
    assert c[..i + 2] == c[..i + 1] + [c[i + 1]];
    var p := Pass(c[..i + 1]);
    var x := p + c[i + 1..];
    assert x[i] == p[i] && x[i + 1] == c[i + 1];
    if p[i] == Blank {
      var y, z := FallStep(x, i), p[..i] + [c[i + 1], Blank] + c[i + 2..];
      forall k | 0 <= k < |x|
        ensures y[k] == z[k]
      {
        if k >= i + 2 {
          assert y[k] == x[k] == c[k];
        }
      }
      assert y == z;
    } else {
      assert x == p + [c[i + 1]] + c[i + 2..];
    }
  }

  /** `k` gravity passes. */
  function Passes(c: seq<char>, k: nat): (r: seq<char>)
    ensures |r| == |c|
  {
    if k == 0 then c else Pass(Passes(c, k - 1))
  }

  /** The number of blanks that still have a ball somewhere above them. */
  function Holes(c: seq<char>): (h: nat)
    ensures h <= |c|
  {
    if c == [] then 0
    else (if c[0] == Blank && Balls(c[1..]) != [] then 1 else 0) + Holes(c[1..])
  }

  lemma {:induction false} BallsAppend(a: seq<char>, b: seq<char>)
    ensures Balls(a + b) == Balls(a) + Balls(b)
  {
    if a == [] {
      assert a + b == b;
    } else {
      assert (a + b)[1..] == a[1..] + b;
      BallsAppend(a[1..], b);
    }
  }

  lemma {:induction false} BallsOfBlank(c: seq<char>)
    ensures Balls(c) == [] <==> IsBlank(c)
  {
    if c != [] {
      BallsOfBlank(c[1..]);
      if IsBlank(c[1..]) && c[0] == Blank {
        assert forall i :: 1 <= i < |c| ==> c[i] == c[1..][i - 1];
      }
    }
  }

  /** Settling keeps the balls and their order, and leaves them fallen. */
  lemma SettleFacts(c: seq<char>)
    ensures Balls(Settle(c)) == Balls(c) && Fallen(Settle(c))
  {
    var b := Balls(c);
    BallsAppend(b, Blanks(|c| - |b|));
    BallsOfBlank(Blanks(|c| - |b|));
    BallsIdempotent(c);
  }

  lemma {:induction false} BallsIdempotent(c: seq<char>)
    ensures Balls(Balls(c)) == Balls(c)
  {
    if c != [] {
      BallsIdempotent(c[1..]);
      BallsAppend(if c[0] == Blank then [] else [c[0]], Balls(c[1..]));
    }
  }

  /** A fallen column is its own settled form; with SettleFacts, Settle(c)
      is the one fallen column with c's balls. */
  lemma {:induction false} FallenIsSettled(c: seq<char>)
    requires Fallen(c)
    ensures c == Settle(c)
  {
    if c != [] {
      FallenIsSettled(c[1..]);
      if c[0] == Blank {
        assert IsBlank(c);
        BallsOfBlank(c);
      }
    }
  }

  /** One step of the pass's loop: appending cell x to a passed prefix. */
  lemma {:induction false} PassSnoc(p: seq<char>, x: char)
    requires |p| >= 1
    ensures Pass(p + [x]) == if Pass(p)[|p| - 1] == Blank then Pass(p)[..|p| - 1] + [x, Blank] else Pass(p) + [x]
  {
    if |p| >= 2 {
      assert (p + [x])[1..] == p[1..] + [x];
      if p[0] != Blank {
        PassSnoc(p[1..], x);
      }
    }
  }

  lemma {:induction false} HolesSnocBlank(c: seq<char>)
    ensures Holes(c + [Blank]) == Holes(c)
  {
    if c != [] {
      assert (c + [Blank])[1..] == c[1..] + [Blank];
      HolesSnocBlank(c[1..]);
      BallsAppend(c[1..], [Blank]);
    }
  }

  /** A pass keeps the balls, fills one hole, and changes nothing once
      there is none. */
  lemma {:induction false} PassProgress(c: seq<char>)
    ensures Balls(Pass(c)) == Balls(c)
    ensures Holes(c) > 0 ==> Holes(Pass(c)) == Holes(c) - 1
    ensures Holes(c) == 0 ==> Pass(c) == c
  {
    if |c| <= 1 {
    } else if c[0] == Blank {
      HolesSnocBlank(c[1..]);
      BallsAppend(c[1..], [Blank]);
      BallsOfBlank(c[1..]);
      if Balls(c[1..]) == [] {
        assert c[1..] + [Blank] == c;
        HolesOfBlank(c);
      }
    } else {
      PassProgress(c[1..]);
      assert Pass(c)[1..] == Pass(c[1..]);
    }
  }

  lemma {:induction false} HolesOfBlank(c: seq<char>)
    requires IsBlank(c)
    ensures Holes(c) == 0
  {
    if c != [] {
      HolesOfBlank(c[1..]);
    }
  }

  lemma {:induction false} HolesZero(c: seq<char>)
    requires Holes(c) == 0
    ensures Fallen(c)
  {
    if c != [] {
      HolesZero(c[1..]);
      if c[0] == Blank {
        BallsOfBlank(c[1..]);
        assert forall i :: 1 <= i < |c| ==> c[i] == c[1..][i - 1];
      }
    }
  }

  /** As many passes as the column is long settle it. */
  lemma {:induction false} PassesSettle(c: seq<char>, k: nat)
    ensures Balls(Passes(c, k)) == Balls(c)
    ensures Holes(Passes(c, k)) == if k >= Holes(c) then 0 else Holes(c) - k
    ensures k >= |c| ==> Passes(c, k) == Settle(c)
  {
    if k > 0 {
      PassesSettle(c, k - 1);
      PassProgress(Passes(c, k - 1));
    }
    if k >= |c| {
      HolesZero(Passes(c, k));
      FallenIsSettled(Passes(c, k));
    }
  }

  /** Every column of a list settled. */
  function SettleAll(cs: seq<seq<char>>): (r: seq<seq<char>>)
    ensures |r| == |cs| && forall k :: 0 <= k < |cs| ==> r[k] == Settle(cs[k])
  {
    seq(|cs|, k requires 0 <= k < |cs| => Settle(cs[k]))
  }

  /** The columns that hold a ball, in order. */
  function NonEmpty(cs: seq<seq<char>>): (r: seq<seq<char>>)
    ensures |r| <= |cs|
    ensures forall k :: 0 <= k < |r| ==> !IsBlank(r[k])
  {
    if cs == [] then [] else (if IsBlank(cs[0]) then [] else [cs[0]]) + NonEmpty(cs[1..])
  }

  function BlankColumns(n: nat): (r: seq<seq<char>>)
    ensures |r| == n && forall k :: 0 <= k < n ==> r[k] == Blanks(Rows)
  {
    seq(n, _ => Blanks(Rows))
  }

  /** The non-empty columns moved to the left in their order, empty ones
      to the right. */
  function Compact(cs: seq<seq<char>>): (r: seq<seq<char>>)
    ensures |r| == |cs|
  {
    NonEmpty(cs) + BlankColumns(|cs| - |NonEmpty(cs)|)
  }

  /** No empty column lies left of a non-empty one. */
  predicate Packed(cs: seq<seq<char>>)
  {
    forall k, k' :: 0 <= k < k' < |cs| && IsBlank(cs[k]) ==> IsBlank(cs[k'])
  }

  predicate AllRows(cs: seq<seq<char>>)
  {
    forall k :: 0 <= k < |cs| ==> |cs[k]| == Rows
  }

  lemma {:induction false} NonEmptyAppend(a: seq<seq<char>>, b: seq<seq<char>>)
    ensures NonEmpty(a + b) == NonEmpty(a) + NonEmpty(b)
  {
    if a == [] {
      assert a + b == b;
    } else {
      assert (a + b)[1..] == a[1..] + b;
      NonEmptyAppend(a[1..], b);
    }
  }

  lemma {:induction false} NonEmptyOfBlanks(cs: seq<seq<char>>)
    requires forall k :: 0 <= k < |cs| ==> IsBlank(cs[k])
    ensures NonEmpty(cs) == []
  {
    if cs != [] {
      NonEmptyOfBlanks(cs[1..]);
    }
  }

  /** Moving the first non-empty column at or after j to the empty
      position j keeps the non-empty columns and their order. */
  lemma MoveKeepsNonEmpty(cs: seq<seq<char>>, j: int, ni: int, b: seq<char>)
    requires 0 <= j < ni < |cs| && IsBlank(b)
    requires forall k :: j <= k < ni ==> IsBlank(cs[k])
    ensures NonEmpty(cs[j := cs[ni]][ni := b]) == NonEmpty(cs)
  {
    var cs' := cs[j := cs[ni]][ni := b];
    var front, gap, moved, back := cs[..j], cs[j..ni], [cs[ni]], cs[ni + 1..];
    var gap' := cs'[j + 1..ni + 1];
    assert cs == (front + gap + moved) + back;
    assert cs' == (front + moved + gap') + back;
    NonEmptyAppend(front + gap + moved, back);
    NonEmptyAppend(front + moved + gap', back);
    BlanksDropOut(front, gap, moved);
    BlanksDropOut(front, gap', moved);
  }

  /** A run of blank columns on either side of `c` leaves no trace. */
  lemma BlanksDropOut(a: seq<seq<char>>, g: seq<seq<char>>, c: seq<seq<char>>)
    requires forall k :: 0 <= k < |g| ==> IsBlank(g[k])
    ensures NonEmpty(a + g + c) == NonEmpty(a) + NonEmpty(c)
    ensures NonEmpty(a + c + g) == NonEmpty(a) + NonEmpty(c)
  {
    NonEmptyOfBlanks(g);
    NonEmptyAppend(a + g, c);
    NonEmptyAppend(a, g);
    assert NonEmpty(a) + NonEmpty(g) == NonEmpty(a);
    NonEmptyAppend(a + c, g);
    NonEmptyAppend(a, c);
    assert NonEmpty(a + c) + NonEmpty(g) == NonEmpty(a + c);
  }

  lemma {:induction false} BlankColumn(c: seq<char>)
    requires |c| == Rows && IsBlank(c)
    ensures c == Blanks(Rows)
  {
  }

  /** A packed list of columns is already compact. */
  lemma {:induction false} PackedIsCompact(cs: seq<seq<char>>)
    requires Packed(cs) && AllRows(cs)
    ensures cs == Compact(cs)
  {
    if cs != [] {
      PackedIsCompact(cs[1..]);
      if IsBlank(cs[0]) {
        NonEmptyOfBlanks(cs);
        forall k | 0 <= k < |cs|
          ensures cs[k] == Blanks(Rows)
        {
          BlankColumn(cs[k]);
        }
      }
    }
  }

  /** Compaction keeps the non-empty columns in order and leaves the list
      packed. */
  lemma CompactFacts(cs: seq<seq<char>>)
    ensures NonEmpty(Compact(cs)) == NonEmpty(cs) && Packed(Compact(cs))
  {
    var ne := NonEmpty(cs);
    NonEmptyAppend(ne, BlankColumns(|cs| - |ne|));
    NonEmptyOfBlanks(BlankColumns(|cs| - |ne|));
    NonEmptyIdempotent(cs);
  }

  lemma {:induction false} NonEmptyIdempotent(cs: seq<seq<char>>)
    ensures NonEmpty(NonEmpty(cs)) == NonEmpty(cs)
  {
    if cs != [] {
      NonEmptyIdempotent(cs[1..]);
      NonEmptyAppend(if IsBlank(cs[0]) then [] else [cs[0]], NonEmpty(cs[1..]));
    }
  }

  lemma SettleBlank(c: seq<char>)
    ensures IsBlank(Settle(c)) <==> IsBlank(c)
  {
    SettleFacts(c);
    BallsOfBlank(c);
    BallsOfBlank(Settle(c));
  }

  lemma {:induction false} NonEmptySettled(cs: seq<seq<char>>)
    ensures NonEmpty(SettleAll(cs)) == SettleAll(NonEmpty(cs))
  {
    if cs != [] {
      var head, tail := cs[0], cs[1..];
      NonEmptySettled(tail);
      SettleBlank(head);
      var all := SettleAll(cs);
      assert all[0] == Settle(head) && all[1..] == SettleAll(tail);
      if IsBlank(head) {
        assert NonEmpty(all) == NonEmpty(SettleAll(tail));
      } else {
        assert NonEmpty(all) == [Settle(head)] + NonEmpty(SettleAll(tail));
        assert NonEmpty(cs) == [head] + NonEmpty(tail);
        assert SettleAll([head] + NonEmpty(tail)) == [Settle(head)] + SettleAll(NonEmpty(tail));
      }
    }
  }

  /**
    What removing a cluster leaves: the k-th non-empty column of the board
    after the removal, with its balls fallen in their order, becomes column
    k, and the columns to the right of them are empty.
   */
  lemma AfterRemoval(cs: seq<seq<char>>)
    requires AllRows(cs)
    ensures Compact(SettleAll(cs)) == SettleAll(NonEmpty(cs)) + BlankColumns(|cs| - |NonEmpty(cs)|)
    ensures forall k :: 0 <= k < |cs| ==> Fallen(Compact(SettleAll(cs))[k])
    ensures Packed(Compact(SettleAll(cs)))
  {
    NonEmptySettled(cs);
    CompactFacts(SettleAll(cs));
    var r := Compact(SettleAll(cs));
    var ne := SettleAll(NonEmpty(cs));
    forall k | 0 <= k < |cs|
      ensures Fallen(r[k])
    {
      if k < |ne| {
        SettleFacts(NonEmpty(cs)[k]);
      } else {
        assert r[k] == Blanks(Rows);
      }
    }
  }

  /** The board with the cells labelled num emptied. */
  function Removed(desk: seq<seq<char>>, labels: seq<seq<int>>, num: int): (r: seq<seq<char>>)
    requires Grid(desk) && Grid(labels)
    ensures Grid(r)
    ensures forall q :: InBoard(q) ==> At(r, q) == if At(labels, q) == num then Blank else At(desk, q)
  {
    seq(Rows, i requires 0 <= i < Rows =>
      seq(Cols, j requires 0 <= j < Cols => if labels[i][j] == num then Blank else desk[i][j]))
  }

  /** pos is (row + 1, column + 1) of the first cell labelled num before
      (i, j) in the column-major scan, or (0, 0) when there is none. */
  ghost predicate FirstLabelled(labels: seq<seq<int>>, num: int, pos: (int, int), i: int, j: int)
    requires Grid(labels)
  {
    if pos == (0, 0) then
      forall q :: InBoard(q) && Scanned(q, i, j) ==> At(labels, q) != num
    else
      && InBoard((pos.0 - 1, pos.1 - 1)) && Scanned((pos.0 - 1, pos.1 - 1), i, j)
      && At(labels, (pos.0 - 1, pos.1 - 1)) == num
      && forall q :: InBoard(q) && Scanned(q, pos.0 - 1, pos.1 - 1) ==> At(labels, q) != num
  }

  // ---------------------------------------------------------------------
  // Score and the end of a game

  /** The points for removing a cluster of n balls. */
  function Points(n: int): nat
  {
    (n - 2) * (n - 2)
  }

  /** A larger cluster is worth strictly more. */
  lemma PointsGrow(n: int, m: int)
    requires 2 <= n < m
    ensures Points(n) < Points(m)
  {
    assert (n - 2) * (n - 2) <= (n - 2) * (m - 2) < (m - 2) * (m - 2);
  }

  /** The number of balls on a board, row by row. */
  function BallCount(g: seq<seq<char>>): nat
  {
    if g == [] then 0 else |Balls(g[0])| + BallCount(g[1..])
  }

  function EmptyBoard(): (g: seq<seq<char>>)
    ensures Grid(g) && forall q :: InBoard(q) ==> At(g, q) == Blank
  {
    seq(Rows, _ => Blanks(Cols))
  }

  lemma {:induction false} BallCountSnoc(g: seq<seq<char>>, i: int)
    requires 0 <= i < |g|
    ensures BallCount(g[..i + 1]) == BallCount(g[..i]) + |Balls(g[i])|
  {
    if i > 0 {
      assert g[..i + 1][1..] == g[1..][..i];
      assert g[..i][1..] == g[1..][..i - 1];
      BallCountSnoc(g[1..], i - 1);
    } else {
      assert g[..1][1..] == [];
    }
  }

  /** A board holds no ball exactly when every cell is blank: the
      end-of-game bonus goes to a cleared board. */
  lemma {:induction false} NoBallsLeft(g: seq<seq<char>>)
    requires Grid(g)
    ensures BallCount(g) == 0 <==> forall q :: InBoard(q) ==> At(g, q) == Blank
  {
    BallCountRows(g);
    if BallCount(g) == 0 {
      forall q | InBoard(q)
        ensures At(g, q) == Blank
      {
        BallsOfBlank(g[q.0]);
      }
    } else {
      var r :| 0 <= r < |g| && Balls(g[r]) != [];
      BallsOfBlank(g[r]);
      var c :| 0 <= c < |g[r]| && g[r][c] != Blank;
      assert At(g, (r, c)) != Blank;
    }
  }

  lemma {:induction false} BallCountRows(g: seq<seq<char>>)
    ensures BallCount(g) == 0 <==> forall r :: 0 <= r < |g| ==> Balls(g[r]) == []
  {
    if g != [] {
      BallCountRows(g[1..]);
      assert forall r :: 1 <= r < |g| ==> g[r] == g[1..][r - 1];
    }
  }

  /** The inner loop of the board's reset: blanks a row cell by cell,
      counting the balls it held. */
  method BlankRow(row: seq<char>) returns (cells: seq<char>, n: int)
    ensures cells == Blanks(|row|) && n == |Balls(row)|
  {
    cells := row;
    n := 0;
    for j := 0 to |row|
      invariant |cells| == |row|
      invariant forall k :: 0 <= k < |row| ==> cells[k] == if k < j then Blank else row[k]
      invariant n == |Balls(row[..j])|
    {
      assert row[..j + 1] == row[..j] + [row[j]];
      BallsAppend(row[..j], [row[j]]);
      if cells[j] != Blank {
        n := n + 1;
        cells := cells[j := Blank];
      }
    }
    assert row[..|row|] == row;
    assert cells == Blanks(|row|);
  }

  class Game {
    var desk: seq<seq<char>>
    var clusterMap: seq<seq<int>>
    var shiftColumn: seq<int>
    var moveCounter: int
    var score: int

    ghost predicate Valid()
      reads this
    {
      Grid(desk) && Grid(clusterMap) && |shiftColumn| == Cols
    }

    /** A blank board with no labels, no column shifts, the move counter at
        one and no score. */
    constructor ()
      ensures Valid() && desk == EmptyBoard() && clusterMap == NoLabels()
      ensures shiftColumn == seq(Cols, _ => 0) && moveCounter == 1 && score == 0
    {
      desk := EmptyBoard();
      clusterMap := NoLabels();
      shiftColumn := seq(Cols, _ => 0);
      moveCounter := 1;
      score := 0;
    }

    /** Loads a board given top row first; it is stored upside down, so
        that row 0 is the bottom row. */
    method StartGame(lines: seq<seq<char>>)
      requires Valid() && Grid(lines)
      modifies this
      ensures Valid() && clusterMap == old(clusterMap) && shiftColumn == old(shiftColumn)
      ensures moveCounter == old(moveCounter) && score == old(score)
      ensures forall q :: InBoard(q) ==> At(desk, q) == At(lines, (Rows - 1 - q.0, q.1))
    {
      desk := seq(Rows, i requires 0 <= i < Rows => lines[Rows - 1 - i]);
    }

    /**
      One of the four neighbour checks of the search: when pos has a
      neighbour in direction d that is still unlabelled and has the
      cluster's colour, it is labelled `num` and queued.
     */
    method Visit(pos: Cell, d: Direction, num: int, colour: char, queue: seq<Cell>, count: int,
                 ghost start: Cell, ghost cells: seq<Cell>, ghost parent: seq<int>, ghost head: int,
                 ghost before: seq<seq<int>>)
      returns (queue': seq<Cell>, count': int, ghost cells': seq<Cell>, ghost parent': seq<int>)
      requires Valid() && SearchInv(desk, before, clusterMap, start, num, cells, parent, head)
      requires colour == At(desk, start) && head < |cells| + 1
      requires pos == Source(start, cells, head) && At(desk, pos) != Blank
      requires queue == ([start] + cells)[head + 1..] && count == |cells|
      requires CountGrid(clusterMap) + |cells| == CountGrid(before)
      modifies this
      ensures Valid() && desk == old(desk) && shiftColumn == old(shiftColumn)
      ensures moveCounter == old(moveCounter) && score == old(score)
      ensures SearchInv(desk, before, clusterMap, start, num, cells', parent', head)
      ensures |cells| <= |cells'| && pos == Source(start, cells', head)
      ensures queue' == ([start] + cells')[head + 1..] && count' == |cells'|
      ensures CountGrid(clusterMap) + |cells'| == CountGrid(before)
      ensures Grows(old(clusterMap), clusterMap)
      ensures HasNbr(pos, d) && At(desk, Toward(pos, d)) == colour ==> At(clusterMap, Toward(pos, d)) != Unlabelled
    {
      if !HasNbr(pos, d) {
        queue', count', cells', parent' := queue, count, cells, parent;
        return;
      }
      var q := Toward(pos, d);
      if clusterMap[q.0][q.1] == Unlabelled && desk[q.0][q.1] == colour {
        queue', count', cells', parent' := Label(pos, q, num, colour, queue, count, start, cells, parent, head, before);
      } else {
        queue', count', cells', parent' := queue, count, cells, parent;
        assert SearchInv(desk, before, clusterMap, start, num, cells', parent', head);
        assert Grows(old(clusterMap), clusterMap);
      }
    }

    /** The labelling branch of `Visit`: the unlabelled neighbour `q` of
        the cluster's colour is labelled `num` and queued. */
    method Label(pos: Cell, q: Cell, num: int, colour: char, queue: seq<Cell>, count: int,
                 ghost start: Cell, ghost cells: seq<Cell>, ghost parent: seq<int>, ghost head: int,
                 ghost before: seq<seq<int>>)
      returns (queue': seq<Cell>, count': int, ghost cells': seq<Cell>, ghost parent': seq<int>)
      requires Valid() && SearchInv(desk, before, clusterMap, start, num, cells, parent, head)
      requires colour == At(desk, start) && head < |cells| + 1
      requires pos == Source(start, cells, head) && At(desk, pos) != Blank
      requires queue == ([start] + cells)[head + 1..] && count == |cells|
      requires CountGrid(clusterMap) + |cells| == CountGrid(before)
      requires InBoard(q) && q in Nbrs(pos)
      requires At(clusterMap, q) == Unlabelled && At(desk, q) == colour
      modifies this
      ensures Valid() && desk == old(desk) && shiftColumn == old(shiftColumn)
      ensures moveCounter == old(moveCounter) && score == old(score)
      ensures SearchInv(desk, before, clusterMap, start, num, cells', parent', head)
      ensures |cells| <= |cells'| && pos == Source(start, cells', head)
      ensures queue' == ([start] + cells')[head + 1..] && count' == |cells'|
      ensures CountGrid(clusterMap) + |cells'| == CountGrid(before)
      ensures Grows(old(clusterMap), clusterMap)
      ensures At(clusterMap, q) != Unlabelled
    {
      LabelOne(clusterMap, q, num);
      VisitKeeps(desk, before, clusterMap, start, num, cells, parent, head, q);
      clusterMap := Set(clusterMap, q, num);
      queue' := queue + [q];
      count' := count + 1;
      cells' := cells + [q];
      parent' := parent + [head];
      ghost var all := [start] + cells;
      assert [start] + cells' == all + [q];
      assert (all + [q])[head + 1..] == all[head + 1..] + [q];
      assert SearchInv(desk, before, clusterMap, start, num, cells', parent', head);
      assert Grows(old(clusterMap), clusterMap);
    }

    /**
      One turn of the search's loop for the cell `pos` taken from the queue:
      a blank cell is skipped, otherwise its four neighbours are checked.
      Afterwards `pos` is Closed.
     */
    method Expand(pos: Cell, num: int, colour: char, queue: seq<Cell>, count: int,
                  ghost start: Cell, ghost cells: seq<Cell>, ghost parent: seq<int>, ghost head: int,
                  ghost before: seq<seq<int>>)
      returns (queue': seq<Cell>, count': int, ghost cells': seq<Cell>, ghost parent': seq<int>)
      requires Valid() && SearchInv(desk, before, clusterMap, start, num, cells, parent, head)
      requires colour == At(desk, start) && head < |cells| + 1
      requires pos == Source(start, cells, head)
      requires queue == ([start] + cells)[head + 1..] && count == |cells|
      requires CountGrid(clusterMap) + |cells| == CountGrid(before)
      modifies this
      ensures Valid() && desk == old(desk) && shiftColumn == old(shiftColumn)
      ensures moveCounter == old(moveCounter) && score == old(score)
      ensures SearchInv(desk, before, clusterMap, start, num, cells', parent', head + 1)
      ensures queue' == ([start] + cells')[head + 1..] && count' == |cells'|
      ensures CountGrid(clusterMap) + |cells'| == CountGrid(before)
    {
      if desk[pos.0][pos.1] == Blank {
        queue', count', cells', parent' := queue, count, cells, parent;
        forall m | 0 <= m < head + 1
          ensures Closed(desk, clusterMap, Source(start, cells, m), colour)
        {
        }
        return;
      }
      queue', count', cells', parent' := Visit(pos, Up, num, colour, queue, count, start, cells, parent, head, before);
      ghost var labels1 := clusterMap;
      queue', count', cells', parent' := Visit(pos, Down, num, colour, queue', count', start, cells', parent', head, before);
      ghost var labels2 := clusterMap;
      queue', count', cells', parent' := Visit(pos, Left, num, colour, queue', count', start, cells', parent', head, before);
      ghost var labels3 := clusterMap;
      queue', count', cells', parent' := Visit(pos, Right, num, colour, queue', count', start, cells', parent', head, before);
      NbrDirections(pos);
      assert Closed(desk, clusterMap, pos, colour) by {
        forall q | q in Nbrs(pos) && At(desk, q) == colour
          ensures At(clusterMap, q) != Unlabelled
        {
          if q == Toward(pos, Up) {
            assert At(labels1, q) != Unlabelled;
          } else if q == Toward(pos, Down) {
            assert At(labels2, q) != Unlabelled;
          } else if q == Toward(pos, Left) {
            assert At(labels3, q) != Unlabelled;
          }
        }
      }
      forall m | 0 <= m < head + 1
        ensures Closed(desk, clusterMap, Source(start, cells', m), colour)
      {
        if m == head {
          assert Source(start, cells', m) == pos;
        }
      }
    }

    /**
      Breadth-first search from `start` for the cells 4-connected to it with
      its colour, labelling each `num` when it is first reached. The start
      cell itself is labelled only when a neighbour reaches back to it, so
      an isolated ball counts 0. Returns (num, number of cells labelled,
      colour of the start cell); `cells` are the labelled cells in order and
      `parent` says from which earlier cell each was reached.
     */
    method SearchingClusters(start: Cell, num: int) returns (r: (int, int, char), ghost cells: seq<Cell>, ghost parent: seq<int>)
      requires Valid() && InBoard(start) && num >= 0
      requires At(clusterMap, start) == Unlabelled
      modifies this
      ensures Valid() && desk == old(desk) && shiftColumn == old(shiftColumn)
      ensures moveCounter == old(moveCounter) && score == old(score)
      ensures r == (num, |cells|, At(desk, start))
      // exactly `cells` were labelled, each connected to the start and of its colour
      ensures Found(desk, old(clusterMap), clusterMap, start, num, cells, parent)
      // and the search stopped only when no further cell could be reached
      ensures forall m :: 0 <= m <= |cells| ==> Closed(desk, clusterMap, Source(start, cells, m), r.2)
      ensures r.1 == 0 <==> Isolated(desk, old(clusterMap), start)
      ensures r.1 != 0 ==> start in cells && r.1 >= 2 && r.2 != Blank
    {
      ghost var before := clusterMap;
      var colour := desk[start.0][start.1];
      var count := 0;
      var queue := [start];
      ghost var head := 0;
      cells, parent := [], [];
      while queue != []
        invariant Valid() && desk == old(desk) && shiftColumn == old(shiftColumn)
        invariant moveCounter == old(moveCounter) && score == old(score)
        invariant SearchInv(desk, before, clusterMap, start, num, cells, parent, head)
        invariant queue == ([start] + cells)[head..] && count == |cells|
        invariant CountGrid(clusterMap) + |cells| == CountGrid(before)
        decreases CountGrid(clusterMap) + |queue|
      {
        var pos := queue[0];
        assert pos == Source(start, cells, head);
        queue, count, cells, parent := Expand(pos, num, colour, queue[1..], count, start, cells, parent, head, before);
        head := head + 1;
      }
      r := (num, count, colour);
      SearchDone(desk, before, clusterMap, start, num, cells, parent);
    }

    /**
      One step of the clustering scan at cell (i, j): an unlabelled cell
      starts a search with the next label, and a strictly larger non-empty
      group becomes the best one.
     */
    method ScanCell(i: int, j: int, counter: int, best: (int, int, char), ghost groups: seq<seq<Cell>>,
                    ghost starts: seq<Cell>, ghost parents: seq<seq<int>>)
      returns (counter': int, best': (int, int, char), ghost groups': seq<seq<Cell>>,
               ghost starts': seq<Cell>, ghost parents': seq<seq<int>>)
      requires Valid() && 0 <= i < Rows && 0 <= j < Cols
      requires ClusterInv(desk, clusterMap, groups, best, counter, i, j)
      requires Clusters(desk, groups, starts, parents)
      modifies this
      ensures Valid() && desk == old(desk) && shiftColumn == old(shiftColumn)
      ensures moveCounter == old(moveCounter) && score == old(score)
      ensures ClusterInv(desk, clusterMap, groups', best', counter', i + 1, j)
      ensures Clusters(desk, groups', starts', parents')
    {
      if clusterMap[i][j] == Unlabelled {
        ghost var before := clusterMap;
        var t, cells, parent := SearchingClusters((i, j), counter);
        SettledAfterSearch(desk, before, clusterMap, (i, j), counter, cells, parent, i, j);
        LabelsAfterSearch(desk, before, clusterMap, (i, j), cells, parent, groups);
        BestAfterSearch(desk, before, clusterMap, (i, j), cells, parent, groups, best, t);
        best' := if t.1 > best.1 && t.1 != 0 then t else best;
        counter' := counter + 1;
        groups', starts', parents' := groups + [cells], starts + [(i, j)], parents + [parent];
        assert Cluster(desk, (i, j), cells, parent);
        assert ClusterInv(desk, clusterMap, groups', best', counter', i + 1, j);
      } else {
        counter', best', groups', starts', parents' := counter, best, groups, starts, parents;
        assert ClusterInv(desk, clusterMap, groups', best', counter', i + 1, j);
      }
    }

    /**
      Labels every cluster of the board, scanning column by column and
      each column from row 0, and returns (label, size, colour) of the
      largest one, the first found among equals, or NoCluster when no two
      neighbouring balls share a colour. `groups[k]` are the cells labelled
      k, a cluster grown from `starts[k]` (see GroupJoined); with every
      labelled cell Settled, each group is a whole 4-connected region of one
      colour.
     */
    method Clustering() returns (r: (int, int, char), ghost groups: seq<seq<Cell>>,
                                 ghost starts: seq<Cell>, ghost parents: seq<seq<int>>)
      requires Valid()
      modifies this
      ensures Valid() && desk == old(desk) && shiftColumn == old(shiftColumn)
      ensures moveCounter == old(moveCounter) && score == old(score)
      ensures r == NoCluster <==> NoMove(desk)
      ensures GroupsLabelled(clusterMap, groups)
      ensures Clusters(desk, groups, starts, parents)
      ensures forall p :: InBoard(p) ==> Settled(desk, clusterMap, p)
      ensures BestOk(desk, groups, r)
    {
      clusterMap := NoLabels();
      r := NoCluster;
      var counter := 0;
      groups, starts, parents := [], [], [];
      for j := 0 to Cols
        invariant Valid() && desk == old(desk) && shiftColumn == old(shiftColumn)
        invariant moveCounter == old(moveCounter) && score == old(score)
        invariant ClusterInv(desk, clusterMap, groups, r, counter, 0, j)
        invariant Clusters(desk, groups, starts, parents)
      {
        for i := 0 to Rows
          invariant Valid() && desk == old(desk) && shiftColumn == old(shiftColumn)
          invariant moveCounter == old(moveCounter) && score == old(score)
          invariant ClusterInv(desk, clusterMap, groups, r, counter, i, j)
          invariant Clusters(desk, groups, starts, parents)
        {
          counter, r, groups, starts, parents := ScanCell(i, j, counter, r, groups, starts, parents);
        }
        NextColumn(desk, clusterMap, j);
      }
      EndOfScan(desk, clusterMap, groups, r);
    }

    /** One cell (i, j) of the removal's scan. */
    method RemoveCell(i: int, j: int, num: int, pos: (int, int), nonEmpty: seq<bool>,
                      ghost d0: seq<seq<char>>, ghost gone: seq<seq<char>>)
      returns (pos': (int, int), nonEmpty': seq<bool>)
      requires Valid() && 0 <= i < Rows && 0 <= j < Cols && Grid(d0) && gone == Removed(d0, clusterMap, num)
      requires forall q :: InBoard(q) ==> At(desk, q) == if Scanned(q, i, j) then At(gone, q) else At(d0, q)
      requires FirstLabelled(clusterMap, num, pos, i, j)
      requires |nonEmpty| == Cols
      requires nonEmpty[j] <==> exists r :: 0 <= r < i && gone[r][j] != Blank
      modifies this
      ensures Valid() && clusterMap == old(clusterMap) && shiftColumn == old(shiftColumn)
      ensures moveCounter == old(moveCounter) && score == old(score)
      ensures forall q :: InBoard(q) ==> At(desk, q) == if Scanned(q, i + 1, j) then At(gone, q) else At(d0, q)
      ensures FirstLabelled(clusterMap, num, pos', i + 1, j)
      ensures nonEmpty' == nonEmpty[j := nonEmpty[j] || gone[i][j] != Blank]
      ensures nonEmpty'[j] <==> exists r :: 0 <= r < i + 1 && gone[r][j] != Blank
    {
      assert At(desk, (i, j)) == At(d0, (i, j));
      assert At(gone, (i, j)) == if At(clusterMap, (i, j)) == num then Blank else At(d0, (i, j));
      pos', nonEmpty' := pos, nonEmpty;
      if clusterMap[i][j] == num {
        desk := Set(desk, (i, j), Blank);
        if pos == (0, 0) {
          pos' := (i + 1, j + 1);
        }
      }
      if !nonEmpty[j] && desk[i][j] != Blank {
        nonEmpty' := nonEmpty[j := true];
      }
      assert desk[i][j] == gone[i][j];
      if gone[i][j] != Blank {
        assert 0 <= i < i + 1 && gone[i][j] != Blank;
      } else if exists r :: 0 <= r < i + 1 && gone[r][j] != Blank {
        var r :| 0 <= r < i + 1 && gone[r][j] != Blank;
        assert r < i;
      }
    }

    /**
      The first loop of the removal: empties the cells labelled num, notes
      the first of them, and marks the columns that still hold a ball.
     */
    method RemoveCluster(num: int) returns (pos: (int, int), nonEmpty: seq<bool>)
      requires Valid()
      modifies this
      ensures Valid() && clusterMap == old(clusterMap) && shiftColumn == old(shiftColumn)
      ensures moveCounter == old(moveCounter) && score == old(score)
      ensures desk == Removed(old(desk), clusterMap, num)
      ensures FirstLabelled(clusterMap, num, pos, 0, Cols)
      ensures |nonEmpty| == Cols && forall j :: 0 <= j < Cols ==> (nonEmpty[j] <==> !IsBlank(Col(desk, j)))
    {
      ghost var d0 := desk;
      ghost var gone := Removed(d0, clusterMap, num);
      pos := (0, 0);
      nonEmpty := seq(Cols, _ => false);
      for j := 0 to Cols
        invariant Valid() && clusterMap == old(clusterMap) && shiftColumn == old(shiftColumn)
        invariant moveCounter == old(moveCounter) && score == old(score)
        invariant forall q :: InBoard(q) ==> At(desk, q) == if Scanned(q, 0, j) then At(gone, q) else At(d0, q)
        invariant FirstLabelled(clusterMap, num, pos, 0, j)
        invariant |nonEmpty| == Cols
        invariant forall k :: 0 <= k < Cols ==> (nonEmpty[k] <==> k < j && !IsBlank(Col(gone, k)))
      {
        for i := 0 to Rows
          invariant Valid() && clusterMap == old(clusterMap) && shiftColumn == old(shiftColumn)
          invariant moveCounter == old(moveCounter) && score == old(score)
          invariant forall q :: InBoard(q) ==> At(desk, q) == if Scanned(q, i, j) then At(gone, q) else At(d0, q)
          invariant FirstLabelled(clusterMap, num, pos, i, j)
          invariant |nonEmpty| == Cols
          invariant forall k :: 0 <= k < Cols && k != j ==> (nonEmpty[k] <==> k < j && !IsBlank(Col(gone, k)))
          invariant nonEmpty[j] <==> exists r :: 0 <= r < i && gone[r][j] != Blank
        {
          pos, nonEmpty := RemoveCell(i, j, num, pos, nonEmpty, d0, gone);
        }
        assert nonEmpty[j] <==> !IsBlank(Col(gone, j)) by {
          if nonEmpty[j] {
            var r :| 0 <= r < Rows && gone[r][j] != Blank;
            assert Col(gone, j)[r] != Blank;
          }
        }
      }
      assert desk == gone by {
        forall r | 0 <= r < Rows
          ensures desk[r] == gone[r]
        {
          forall c | 0 <= c < Cols
            ensures desk[r][c] == gone[r][c]
          {
            assert Scanned((r, c), 0, Cols);
            assert At(desk, (r, c)) == At(gone, (r, c));
          }
        }
      }
    }

    /** One step of a gravity pass: a blank cell (i, j) takes the cell
        above it, which becomes blank. */
    method FallCell(i: int, j: int)
      requires Valid() && 0 <= i < Rows - 1 && 0 <= j < Cols
      modifies this
      ensures Valid() && clusterMap == old(clusterMap) && shiftColumn == old(shiftColumn)
      ensures moveCounter == old(moveCounter) && score == old(score)
      ensures Columns(desk) == Columns(old(desk))[j := FallStep(Col(old(desk), j), i)]
    {
      ghost var x := Col(desk, j);
      if desk[i][j] == Blank {
        ghost var d1 := desk;
        desk := Set(desk, (i, j), desk[i + 1][j]);
        ColSet(d1, i, j, x[i + 1]);
        ghost var d2 := desk;
        desk := Set(desk, (i + 1, j), Blank);
        ColSet(d2, i + 1, j, Blank);
      }
      forall k | 0 <= k < Cols
        ensures Columns(desk)[k] == Columns(old(desk))[j := FallStep(x, i)][k]
      {
      }
    }

    /** One gravity pass over column j, from the bottom up. */
    method FallColumn(j: int)
      requires Valid() && 0 <= j < Cols
      modifies this
      ensures Valid() && clusterMap == old(clusterMap) && shiftColumn == old(shiftColumn)
      ensures moveCounter == old(moveCounter) && score == old(score)
      ensures Columns(desk) == Columns(old(desk))[j := Pass(Col(old(desk), j))]
    {
      ghost var cs0 := Columns(desk);
      ghost var c0 := Col(desk, j);
      assert Pass(c0[..1]) + c0[1..] == c0;
      assert cs0[j := c0] == cs0;
      for i := 0 to Rows - 1
        invariant Valid() && clusterMap == old(clusterMap) && shiftColumn == old(shiftColumn)
        invariant moveCounter == old(moveCounter) && score == old(score)
        invariant Columns(desk) == cs0[j := Pass(c0[..i + 1]) + c0[i + 1..]]
      {
        assert Col(desk, j) == Columns(desk)[j];
        FallStepPass(c0, i);
        FallCell(i, j);
      }
      assert c0[..Rows] == c0;
      assert Pass(c0[..Rows]) + c0[Rows..] == Pass(c0);
    }

    /** The ten gravity passes over the columns marked non-empty. */
    method Gravity(nonEmpty: seq<bool>)
      requires Valid() && |nonEmpty| == Cols
      requires forall j :: 0 <= j < Cols && !nonEmpty[j] ==> IsBlank(Col(desk, j))
      modifies this
      ensures Valid() && clusterMap == old(clusterMap) && shiftColumn == old(shiftColumn)
      ensures moveCounter == old(moveCounter) && score == old(score)
      ensures Columns(desk) == SettleAll(Columns(old(desk)))
    {
      ghost var cs0 := Columns(desk);
      for pass := 0 to 10
        invariant Valid() && clusterMap == old(clusterMap) && shiftColumn == old(shiftColumn)
        invariant moveCounter == old(moveCounter) && score == old(score)
        invariant forall k :: 0 <= k < Cols ==> Col(desk, k) == if nonEmpty[k] then Passes(cs0[k], pass) else cs0[k]
      {
        GravityPass(nonEmpty, cs0, pass);
      }
      forall k | 0 <= k < Cols
        ensures Col(desk, k) == Settle(cs0[k])
      {
        PassesSettle(cs0[k], 10);
        if !nonEmpty[k] {
          HolesOfBlank(cs0[k]);
          HolesZero(cs0[k]);
          FallenIsSettled(cs0[k]);
        }
      }
    }

    /** One gravity pass: every column marked non-empty falls by one step. */
    method GravityPass(nonEmpty: seq<bool>, ghost cs0: seq<seq<char>>, ghost pass: nat)
      requires Valid() && |nonEmpty| == Cols && |cs0| == Cols
      requires forall k :: 0 <= k < Cols ==> Col(desk, k) == if nonEmpty[k] then Passes(cs0[k], pass) else cs0[k]
      modifies this
      ensures Valid() && clusterMap == old(clusterMap) && shiftColumn == old(shiftColumn)
      ensures moveCounter == old(moveCounter) && score == old(score)
      ensures forall k :: 0 <= k < Cols ==> Col(desk, k) == if nonEmpty[k] then Passes(cs0[k], pass + 1) else cs0[k]
    {
      for j := 0 to Cols
        invariant Valid() && clusterMap == old(clusterMap) && shiftColumn == old(shiftColumn)
        invariant moveCounter == old(moveCounter) && score == old(score)
        invariant forall k :: 0 <= k < Cols ==>
          Col(desk, k) == if nonEmpty[k] then Passes(cs0[k], if k < j then pass + 1 else pass) else cs0[k]
      {
        ghost var before := Columns(desk);
        if nonEmpty[j] {
          FallColumn(j);
          assert Columns(desk) == before[j := Pass(before[j])];
        }
        forall k | 0 <= k < Cols
          ensures Col(desk, k) == if nonEmpty[k] then Passes(cs0[k], if k < j + 1 then pass + 1 else pass) else cs0[k]
        {
          assert Col(desk, k) == Columns(desk)[k];
        }
      }
    }

    /** Moves column `from` to the empty column `to`, leaving `from` empty. */
    method MoveColumn(from: int, to: int)
      requires Valid() && 0 <= to < from < Cols
      modifies this
      ensures Valid() && clusterMap == old(clusterMap) && shiftColumn == old(shiftColumn)
      ensures moveCounter == old(moveCounter) && score == old(score)
      ensures Columns(desk) == Columns(old(desk))[to := Col(old(desk), from)][from := Blanks(Rows)]
    {
      ghost var d0 := desk;
      for i := 0 to Rows
        invariant Valid() && clusterMap == old(clusterMap) && shiftColumn == old(shiftColumn)
        invariant moveCounter == old(moveCounter) && score == old(score)
        invariant forall q :: InBoard(q) ==>
          At(desk, q) == (if q.0 < i && q.1 == to then At(d0, (q.0, from))
                          else if q.0 < i && q.1 == from then Blank
                          else At(d0, q))
      {
        desk := Set(desk, (i, to), desk[i][from]);
        desk := Set(desk, (i, from), Blank);
      }
      forall k | 0 <= k < Cols
        ensures Col(desk, k) == Columns(d0)[to := Col(d0, from)][from := Blanks(Rows)][k]
      {
        assert forall r :: 0 <= r < Rows ==> At(desk, (r, k)) == Col(desk, k)[r];
      }
    }

    /** The last loop of the removal: every empty column takes the next
        non-empty column to its right, until none is left. */
    method CompactColumns(nonEmpty: seq<bool>)
      requires Valid() && |nonEmpty| == Cols
      requires forall j :: 0 <= j < Cols ==> (nonEmpty[j] <==> !IsBlank(Col(desk, j)))
      modifies this
      ensures Valid() && clusterMap == old(clusterMap) && shiftColumn == old(shiftColumn)
      ensures moveCounter == old(moveCounter) && score == old(score)
      ensures Columns(desk) == Compact(Columns(old(desk)))
    {
      ghost var cs0 := Columns(desk);
      var nn := nonEmpty;
      for j := 0 to Cols - 1
        invariant Valid() && clusterMap == old(clusterMap) && shiftColumn == old(shiftColumn)
        invariant moveCounter == old(moveCounter) && score == old(score)
        invariant |nn| == Cols
        invariant forall k :: j <= k < Cols ==> (nn[k] <==> !IsBlank(Col(desk, k)))
        invariant NonEmpty(Columns(desk)) == NonEmpty(cs0)
        invariant forall k, k' :: 0 <= k < j && k <= k' < Cols && IsBlank(Col(desk, k)) ==> IsBlank(Col(desk, k'))
      {
        nn := PackColumn(j, nn, cs0);
      }
      ghost var cs := Columns(desk);
      assert Packed(cs);
      PackedIsCompact(cs);
      assert NonEmpty(cs) == NonEmpty(cs0);
    }

    /** One step of `CompactColumns`: fills the empty column `j`, if it is
        one, with the next non-empty column to its right. */
    method PackColumn(j: int, nn: seq<bool>, ghost cs0: seq<seq<char>>) returns (nn': seq<bool>)
      requires Valid() && 0 <= j < Cols && |nn| == Cols
      requires forall k :: j <= k < Cols ==> (nn[k] <==> !IsBlank(Col(desk, k)))
      requires NonEmpty(Columns(desk)) == NonEmpty(cs0)
      requires forall k, k' :: 0 <= k < j && k <= k' < Cols && IsBlank(Col(desk, k)) ==> IsBlank(Col(desk, k'))
      modifies this
      ensures Valid() && clusterMap == old(clusterMap) && shiftColumn == old(shiftColumn)
      ensures moveCounter == old(moveCounter) && score == old(score)
      ensures |nn'| == Cols
      ensures forall k :: j + 1 <= k < Cols ==> (nn'[k] <==> !IsBlank(Col(desk, k)))
      ensures NonEmpty(Columns(desk)) == NonEmpty(cs0)
      ensures forall k, k' :: 0 <= k < j + 1 && k <= k' < Cols && IsBlank(Col(desk, k)) ==> IsBlank(Col(desk, k'))
    {
      nn' := nn;
      if !nn[j] {
        var newIndex := j;
        var k := j;
        while k < Cols
          invariant j <= k <= Cols
          invariant forall m :: j <= m < k ==> !nn[m]
        {
          if nn[k] {
            newIndex := k;
            break;
          }
          k := k + 1;
        }
        if newIndex != j {
          ghost var cs := Columns(desk);
          MoveKeepsNonEmpty(cs, j, newIndex, Blanks(Rows));
          MoveColumn(newIndex, j);
          nn' := nn[newIndex := false];
        }
      }
    }

    /**
      Removes the cells labelled num, lets the balls fall, packs the
      columns to the left, and returns (row + 1, column + 1) of the first
      removed cell in the column-major scan, or (0, 0) when there was none.
     */
    method DeleteCluster(num: int) returns (pos: (int, int))
      requires Valid()
      modifies this
      ensures Valid() && clusterMap == old(clusterMap) && shiftColumn == old(shiftColumn)
      ensures moveCounter == old(moveCounter) && score == old(score)
      ensures Columns(desk) == Compact(SettleAll(Columns(Removed(old(desk), clusterMap, num))))
      ensures FirstLabelled(clusterMap, num, pos, 0, Cols)
    {
      var nonEmpty;
      pos, nonEmpty := RemoveCluster(num);
      ghost var removed := desk;
      Gravity(nonEmpty);
      forall j | 0 <= j < Cols
        ensures nonEmpty[j] <==> !IsBlank(Col(desk, j))
      {
        assert Col(desk, j) == Columns(desk)[j] == Settle(Col(removed, j));
        SettleBlank(Col(removed, j));
      }
      CompactColumns(nonEmpty);
    }

    /** Scores a removed cluster of `ballsCount` balls and counts the move. */
    method MakeMove(ballsCount: int)
      modifies this
      ensures desk == old(desk) && clusterMap == old(clusterMap) && shiftColumn == old(shiftColumn)
      ensures score == old(score) + Points(ballsCount)
      ensures moveCounter == old(moveCounter) + 1
    {
      var gottedPoints := (ballsCount - 2) * (ballsCount - 2);
      score := score + gottedPoints;
      moveCounter := moveCounter + 1;
    }

    /** Empties row i of the board, counting its balls. */
    method ClearRow(i: int) returns (n: int)
      requires Valid() && 0 <= i < Rows
      modifies this
      ensures Valid() && clusterMap == old(clusterMap) && shiftColumn == old(shiftColumn)
      ensures moveCounter == old(moveCounter) && score == old(score)
      ensures desk == old(desk)[i := Blanks(Cols)]
      ensures n == |Balls(old(desk)[i])|
    {
      var cells;
      cells, n := BlankRow(desk[i]);
      desk := desk[i := cells];
    }

    /** Counts the balls left while emptying the board, and resets the
        labels, the column shifts, the move counter and the score. */
    method Clear() returns (counter: int)
      requires Valid()
      modifies this
      ensures Valid()
      ensures counter == BallCount(old(desk))
      ensures desk == EmptyBoard() && clusterMap == NoLabels()
      ensures shiftColumn == seq(Cols, _ => 0) && moveCounter == 1 && score == 0
    {
      shiftColumn := seq(Cols, _ => 0);
      counter := 0;
      ghost var d0 := desk;
      for i := 0 to Rows
        invariant Valid() && shiftColumn == seq(Cols, _ => 0)
        invariant counter == BallCount(d0[..i])
        invariant forall r :: 0 <= r < Rows ==> desk[r] == if r < i then Blanks(Cols) else d0[r]
      {
        var n := ClearRow(i);
        BallCountSnoc(d0, i);
        counter := counter + n;
      }
      assert d0[..Rows] == d0;
      assert forall r :: 0 <= r < Rows ==> desk[r] == EmptyBoard()[r];
      clusterMap := NoLabels();
      moveCounter := 1;
      score := 0;
    }

    /**
      Ends a game: the final score is the score so far, plus 1000 when no
      ball is left; returns it with the number of balls left, and resets
      the board.
     */
    method EndGame() returns (finalScore: int, ballsCounter: int)
      requires Valid()
      modifies this
      ensures Valid() && desk == EmptyBoard() && clusterMap == NoLabels()
      ensures shiftColumn == seq(Cols, _ => 0) && moveCounter == 1 && score == 0
      ensures ballsCounter == BallCount(old(desk))
      ensures finalScore == old(score) + if ballsCounter == 0 then 1000 else 0
      ensures ballsCounter == 0 <==> forall q :: InBoard(q) ==> At(old(desk), q) == Blank
    {
      NoBallsLeft(desk);
      finalScore := score;
      ballsCounter := Clear();
      if ballsCounter == 0 {
        finalScore := finalScore + 1000;
      }
    }
  }
}
