/** The straight-line path builder of the mouse-enter handler: the acceptance test for a
    candidate cell, and the loop that walks from the anchor to the candidate one unit step
    at a time, skipping blank cells. */
module PathBuilder {
  import opened Grid

  function Abs(x: int): nat {
    if x < 0 then -x else x
  }

  /** The acceptance test, measured from the anchor `selectedCells[0]`: the candidate is on
      the anchor's row, its column, or one of its two diagonals. */
  predicate Aligned(anchor: Pos, p: Pos) {
    var rowDiff := Abs(p.row - anchor.row);
    var colDiff := Abs(p.col - anchor.col);
    rowDiff == 0 || colDiff == 0 || rowDiff == colDiff
  }

  /** Chebyshev distance: the number of unit steps between two aligned cells. */
  function Dist(a: Pos, b: Pos): nat {
    var dr, dc := Abs(b.row - a.row), Abs(b.col - a.col);
    if dr < dc then dc else dr
  }

  /** `rowStep` and `colStep`: 0, 1 or -1 as `to` equals, exceeds or is below `from`; that many
      steps of it lead from `from` to `to`. */
  function Step(from: int, to: int): (s: int)
    ensures -1 <= s <= 1 && (s == 0 <==> from == to)
    ensures from + Times(Abs(to - from), s) == to
  {
    if to == from then 0 else if to > from then 1 else -1
  }

  /** `i` times a unit step `s`, written without a multiplication. */
  function Times(i: int, s: int): int {
    if s == 0 then 0 else if s > 0 then i else -i
  }

  /** The cell reached after `i` steps of `(rowStep, colStep)` from `a` towards `b`. */
  function Point(a: Pos, b: Pos, i: int): Pos {
    Pos(a.row + Times(i, Step(a.row, b.row)), a.col + Times(i, Step(a.col, b.col)))
  }

  /** Every cell from the anchor to the candidate, blank or not, in step order. */
  function Segment(a: Pos, b: Pos): (s: seq<Pos>)
    ensures |s| == Dist(a, b) + 1
  {
    seq(Dist(a, b) + 1, i => Point(a, b, i))
  }

  predicate Between(x: int, y: int, z: int) {
    x <= y <= z || z <= y <= x
  }

  /** The `i`-th step of the walk is `i` steps from the anchor and lies between the two
      endpoints; it reaches the candidate exactly after `Dist(a, b)` steps. */
  lemma PointFacts(a: Pos, b: Pos, i: int)
    requires Aligned(a, b) && 0 <= i <= Dist(a, b)
    ensures Dist(a, Point(a, b, i)) == i
    ensures Dist(Point(a, b, i), b) == Dist(a, b) - i
    ensures Point(a, b, i) == b <==> i == Dist(a, b)
    ensures Between(a.row, Point(a, b, i).row, b.row) && Between(a.col, Point(a, b, i).col, b.col)
    ensures Aligned(a, Point(a, b, i)) && Aligned(Point(a, b, i), b)
  {
  }

  /** One turn of the loop: the cell the walk stands on is in the grid and is the `i`-th of the
      segment, one step of `(rowStep, colStep)` leads to the next, one unit closer to `b`. */
  lemma WalkStep(g: seq<seq<Cell>>, a: Pos, b: Pos, i: nat)
    requires Rectangular(g) && InBounds(g, a) && InBounds(g, b) && Aligned(a, b)
    requires Point(a, b, i) != b && i <= Dist(a, b)
    ensures i < Dist(a, b) && InBounds(g, Point(a, b, i)) && Segment(a, b)[i] == Point(a, b, i)
    ensures Point(a, b, i + 1) == Pos(Point(a, b, i).row + Step(a.row, b.row), Point(a, b, i).col + Step(a.col, b.col))
    ensures Dist(Point(a, b, i + 1), b) == Dist(a, b) - (i + 1)
  {
    PointFacts(a, b, i);
    PointFacts(a, b, i + 1);
    SegmentInBounds(g, a, b);
  }

  /** On a rectangular grid the walk between two cells of the grid stays in the grid. */
  lemma SegmentInBounds<T>(g: seq<seq<T>>, a: Pos, b: Pos)
    requires Rectangular(g) && InBounds(g, a) && InBounds(g, b) && Aligned(a, b)
    ensures AllInBounds(g, Segment(a, b))
  {
    forall k | 0 <= k < |Segment(a, b)| ensures InBounds(g, Segment(a, b)[k]) {
      PointFacts(a, b, k);
    }
  }

  /** The non-blank cells of `ps`, in their order; written from the back, as the loop pushes. */
  function NonBlank(g: seq<seq<Cell>>, ps: seq<Pos>): (r: seq<Pos>)
    requires AllInBounds(g, ps)
    ensures AllInBounds(g, r)
    ensures forall p :: p in r <==> p in ps && !IsBlankAt(g, p)
    ensures |r| <= |ps|
  {
    if ps == [] then []
    else
      var init, last := ps[..|ps| - 1], ps[|ps| - 1];
      assert ps == init + [last];
      var r := NonBlank(g, init);
      if IsBlankAt(g, last) then r else r + [last]
  }

  /** The selection the handler builds for an accepted candidate. */
  function SelectionPath(g: seq<seq<Cell>>, anchor: Pos, candidate: Pos): seq<Pos>
    requires Rectangular(g) && InBounds(g, anchor) && InBounds(g, candidate)
    requires Aligned(anchor, candidate)
  {
    SegmentInBounds(g, anchor, candidate);
    NonBlank(g, Segment(anchor, candidate))
  }

  /** The path-building loop of the mouse-enter handler. It starts at the anchor, pushes every
      non-blank cell it stands on, takes one unit step, and stops on the candidate, which it
      pushes when that is not blank. It terminates because each step brings it one unit closer
      to the candidate, and its result is the non-blank part of the segment. */
  method BuildPath(grid: seq<seq<Cell>>, start: Pos, target: Pos) returns (newSelection: seq<Pos>)
    requires Rectangular(grid) && InBounds(grid, start) && InBounds(grid, target)
    requires Aligned(start, target)
    ensures newSelection == SelectionPath(grid, start, target)
  {
    var row, col := target.row, target.col;
    var rowStep := Step(start.row, row);
    var colStep := Step(start.col, col);
    ghost var segment := Segment(start, target);
    SegmentInBounds(grid, start, target);
    newSelection := [];
    var currentRow, currentCol := start.row, start.col;
    ghost var i := 0;
    assert segment[..0] == [];
    while currentRow != row || currentCol != col
      invariant 0 <= i <= Dist(start, target)
      invariant Pos(currentRow, currentCol) == Point(start, target, i)
      invariant newSelection == NonBlank(grid, segment[..i])
      decreases Dist(start, target) - i
    {
      WalkStep(grid, start, target, i);
      NonBlankSnoc(grid, segment, i);
      if !grid[currentRow][currentCol].isBlank {
        newSelection := newSelection + [Pos(currentRow, currentCol)];
      }
      currentRow := currentRow + rowStep;
      currentCol := currentCol + colStep;
      i := i + 1;
    }
    assert segment[..i + 1] == segment;
    if !grid[row][col].isBlank {
      newSelection := newSelection + [Pos(row, col)];
    }
  }

  /** One more cell of `ps` adds that cell to the non-blank part when it is not blank. */
  lemma NonBlankSnoc(g: seq<seq<Cell>>, ps: seq<Pos>, i: nat)
    requires AllInBounds(g, ps) && i < |ps|
    ensures NonBlank(g, ps[..i + 1])
         == NonBlank(g, ps[..i]) + (if IsBlankAt(g, ps[i]) then [] else [ps[i]])
  {
    assert ps[..i + 1][..i] == ps[..i];
  }

  /** The non-blank part of two runs of cells is the non-blank part of each, in order. */
  lemma {:induction false} NonBlankAppend(g: seq<seq<Cell>>, a: seq<Pos>, b: seq<Pos>)
    requires AllInBounds(g, a) && AllInBounds(g, b)
    ensures AllInBounds(g, a + b)
    ensures NonBlank(g, a + b) == NonBlank(g, a) + NonBlank(g, b)
  {
    assert forall k :: 0 <= k < |a + b| ==> (a + b)[k] == if k < |a| then a[k] else b[k - |a|];
    if b == [] {
      assert a + b == a;
    } else {
      var init, last := b[..|b| - 1], b[|b| - 1];
      NonBlankAppend(g, a, init);
      assert (a + b)[..|a + b| - 1] == a + init;
      assert b[..|b| - 1] == init;
    }
  }

  /** A subsequence of cells listed at increasing distance from `a` keeps that order. */
  lemma {:induction false} NonBlankOrdered(g: seq<seq<Cell>>, a: Pos, ps: seq<Pos>)
    requires AllInBounds(g, ps)
    requires forall i, j :: 0 <= i < j < |ps| ==> Dist(a, ps[i]) < Dist(a, ps[j])
    ensures forall i, j :: 0 <= i < j < |NonBlank(g, ps)| ==> Dist(a, NonBlank(g, ps)[i]) < Dist(a, NonBlank(g, ps)[j])
  {
    if ps != [] {
      var init, last := ps[..|ps| - 1], ps[|ps| - 1];
      NonBlankOrdered(g, a, init);
      var r, full := NonBlank(g, init), NonBlank(g, ps);
      if IsBlankAt(g, last) {
        assert full == r;
      } else {
        assert full == r + [last];
        forall i, j | 0 <= i < j < |full| ensures Dist(a, full[i]) < Dist(a, full[j]) {
          assert full[i] == r[i] && r[i] in init;
          if j < |r| {
            assert full[j] == r[j];
          } else {
            var k :| 0 <= k < |init| && init[k] == r[i];
            assert ps[k] == r[i] && full[j] == ps[|ps| - 1];
          }
        }
      }
    }
  }

  /** A run of cells none of which is blank is its own non-blank part. */
  lemma {:induction false} NonBlankAll(g: seq<seq<Cell>>, ps: seq<Pos>)
    requires AllInBounds(g, ps)
    requires forall k :: 0 <= k < |ps| ==> !IsBlankAt(g, ps[k])
    ensures NonBlank(g, ps) == ps
  {
    if ps != [] {
      NonBlankAll(g, ps[..|ps| - 1]);
    }
  }

  /** The first cell of `ps`, when not blank, is also the first of its non-blank part. */
  lemma {:induction false} NonBlankFirst(g: seq<seq<Cell>>, ps: seq<Pos>)
    requires AllInBounds(g, ps) && |ps| > 0 && !IsBlankAt(g, ps[0])
    ensures |NonBlank(g, ps)| > 0 && NonBlank(g, ps)[0] == ps[0]
  {
    if |ps| > 1 {
      var init := ps[..|ps| - 1];
      NonBlankFirst(g, init);
    }
  }

  /** Which cells a built path holds: exactly the non-blank cells of the anchor-to-candidate
      segment, each on the same line as both endpoints. */
  lemma SelectionPathCells(g: seq<seq<Cell>>, anchor: Pos, candidate: Pos)
    requires Rectangular(g) && InBounds(g, anchor) && InBounds(g, candidate)
    requires Aligned(anchor, candidate)
    ensures var path := SelectionPath(g, anchor, candidate);
      && AllInBounds(g, path)
      && (forall k :: 0 <= k < |path| ==> !IsBlankAt(g, path[k]))
      && (forall k :: 0 <= k < |path| ==> Aligned(anchor, path[k]) && Aligned(path[k], candidate))
      && (forall p :: p in path <==> p in Segment(anchor, candidate) && !IsBlankAt(g, p))
  {
    var seg := Segment(anchor, candidate);
    var path := SelectionPath(g, anchor, candidate);
    forall k | 0 <= k < |path| ensures Aligned(anchor, path[k]) && Aligned(path[k], candidate) {
      assert path[k] in seg;
      var i :| 0 <= i < |seg| && seg[i] == path[k];
      PointFacts(anchor, candidate, i);
    }
  }

  /** The order of a built path: each cell is strictly further from the anchor than the one
      before it, so no cell appears twice. */
  lemma SelectionPathOrder(g: seq<seq<Cell>>, anchor: Pos, candidate: Pos)
    requires Rectangular(g) && InBounds(g, anchor) && InBounds(g, candidate)
    requires Aligned(anchor, candidate)
    ensures var path := SelectionPath(g, anchor, candidate);
      && (forall i, j :: 0 <= i < j < |path| ==> Dist(anchor, path[i]) < Dist(anchor, path[j]))
      && (forall i, j :: 0 <= i < j < |path| ==> path[i] != path[j])
  {
    var seg := Segment(anchor, candidate);
    SegmentInBounds(g, anchor, candidate);
    forall i | 0 <= i < |seg| ensures Dist(anchor, seg[i]) == i {
      PointFacts(anchor, candidate, i);
    }
    NonBlankOrdered(g, anchor, seg);
    var path := SelectionPath(g, anchor, candidate);
    assert path == NonBlank(g, seg);
  }

  /** The ends of a built path: it starts at the anchor and ends at the candidate whenever
      these are not blank. */
  lemma SelectionPathEnds(g: seq<seq<Cell>>, anchor: Pos, candidate: Pos)
    requires Rectangular(g) && InBounds(g, anchor) && InBounds(g, candidate)
    requires Aligned(anchor, candidate)
    ensures var path := SelectionPath(g, anchor, candidate);
      && (!IsBlankAt(g, anchor) ==> |path| > 0 && path[0] == anchor)
      && (!IsBlankAt(g, candidate) ==> |path| > 0 && path[|path| - 1] == candidate)
  {
    var seg := Segment(anchor, candidate);
    SegmentInBounds(g, anchor, candidate);
    if !IsBlankAt(g, anchor) {
      PointFacts(anchor, candidate, 0);
      NonBlankFirst(g, seg);
    }
    if !IsBlankAt(g, candidate) {
      PointFacts(anchor, candidate, Dist(anchor, candidate));
      assert seg == seg[..|seg| - 1] + [candidate];
    }
  }

  /** A press followed at once by the same cell gives the one-cell selection `[anchor]`. */
  lemma SelectionPathSingle(g: seq<seq<Cell>>, anchor: Pos)
    requires Rectangular(g) && InBounds(g, anchor) && !IsBlankAt(g, anchor)
    ensures SelectionPath(g, anchor, anchor) == [anchor]
  {
    assert Segment(anchor, anchor) == [anchor];
  }
}
