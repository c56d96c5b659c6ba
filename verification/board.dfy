/** The `Minesweeper` board of `src/lib.rs`: its state, the read-only `open` query,
    the neighbour enumeration and the (stubbed) neighbour-mine count. */
module Board {

  /** `usize` coordinates; the model's are unbounded. */
  type Position = (nat, nat)

  newtype u8 = x: int | 0 <= x < 256

  datatype OpenResult = Mine | NoMine(count: u8)

  datatype Minesweeper = Minesweeper(
    width: nat,
    height: nat,
    openCells: set<Position>,
    mines: set<Position>,
    flaggedCells: set<Position>)

  function Max(a: nat, b: nat): nat { if a < b then b else a }
  function Min(a: nat, b: nat): nat { if a < b then a else b }

  /** How far apart two coordinates are. */
  function Dist(a: nat, b: nat): nat { if a < b then b - a else a - b }

  /** `open(&self, pos)`: a query that leaves the board as it is. A mine answers
      `Mine`; every other cell answers `NoMine(0)`, because the count is a stub
      (the source builds the neighbour iterator there and drops it unconsumed). */
  function Open(b: Minesweeper, pos: Position): (r: OpenResult)
    ensures r == Mine <==> pos in b.mines
    ensures r != Mine ==> r == NoMine(0)
  {
    if pos in b.mines then Mine else NoMine(0)
  }

  /** The answer of `open` hangs on whether `pos` itself is a mine and on nothing else:
      neither the other mines, nor the open or flagged cells, nor the dimensions. */
  lemma OpenIgnoresSurroundings(b1: Minesweeper, b2: Minesweeper, pos: Position)
    requires pos in b1.mines <==> pos in b2.mines
    ensures Open(b1, pos) == Open(b2, pos)
  {
  }

  /** `num_neighbor_mines`: a stub that answers 0 whatever the board holds. */
  function NumNeighborMines(b: Minesweeper, pos: Position): (r: u8)
    ensures r == 0
  {
    0
  }

  // ---------------------------------------------------------------------------
  // Neighbour windows

  /** The half-open range lo, lo + 1, ..., hi - 1. */
  function Range(lo: nat, hi: nat): (r: seq<nat>)
    ensures |r| == if lo <= hi then hi - lo else 0
    ensures forall k :: 0 <= k < |r| ==> r[k] == lo + k
    decreases hi - lo
  {
    if lo < hi then [lo] + Range(lo + 1, hi) else []
  }

  /** Row-major product of two coordinate ranges: the `flat_map` over the first range of the
      `map` over the second. */
  function Product(xs: seq<nat>, ys: seq<nat>): seq<Position> {
    if xs == [] then [] else seq(|ys|, k requires 0 <= k < |ys| => (xs[0], ys[k])) + Product(xs[1..], ys)
  }

  /** `filter(|&p| p != centre)`. */
  function Without(ps: seq<Position>, centre: Position): seq<Position> {
    if ps == [] then []
    else (if ps[0] == centre then [] else [ps[0]]) + Without(ps[1..], centre)
  }

  /** The box [loX, hiX) x [loY, hiY) in row-major order, minus its centre. */
  function Window(loX: nat, hiX: nat, loY: nat, hiY: nat, centre: Position): seq<Position> {
    Without(Product(Range(loX, hiX), Range(loY, hiY)), centre)
  }

  /** Strict lexicographic order on positions: first coordinate, then second. */
  predicate LexLess(p: Position, q: Position) {
    p.0 < q.0 || (p.0 == q.0 && p.1 < q.1)
  }

  predicate StrictlySorted(ps: seq<Position>) {
    forall a, b :: 0 <= a < b < |ps| ==> LexLess(ps[a], ps[b])
  }

  predicate Increasing(xs: seq<nat>) {
    forall a, b :: 0 <= a < b < |xs| ==> xs[a] < xs[b]
  }

  lemma {:induction false} ProductMembers(xs: seq<nat>, ys: seq<nat>)
    ensures |Product(xs, ys)| == |xs| * |ys|
    ensures forall p :: p in Product(xs, ys) <==> p.0 in xs && p.1 in ys
  {
    if xs != [] {
      ProductMembers(xs[1..], ys);
      var head := seq(|ys|, k requires 0 <= k < |ys| => (xs[0], ys[k]));
      forall p ensures p in head <==> p.0 == xs[0] && p.1 in ys {
        if p.0 == xs[0] && p.1 in ys {
          var k :| 0 <= k < |ys| && ys[k] == p.1;
          assert head[k] == p;
        }
      }
      assert xs == [xs[0]] + xs[1..];
    }
  }

  lemma {:induction false} ProductSorted(xs: seq<nat>, ys: seq<nat>)
    requires Increasing(xs) && Increasing(ys)
    ensures StrictlySorted(Product(xs, ys))
  {
    if xs != [] {
      var head := seq(|ys|, k requires 0 <= k < |ys| => (xs[0], ys[k]));
      var tail := Product(xs[1..], ys);
      ProductSorted(xs[1..], ys);
      ProductMembers(xs[1..], ys);
      var ps := head + tail;
      forall a, b | 0 <= a < b < |ps| ensures LexLess(ps[a], ps[b]) {
        if b >= |head| && a < |head| {
          assert ps[b] in tail;
          var m :| 0 <= m < |xs[1..]| && xs[1..][m] == ps[b].0;
          assert xs[m + 1] == ps[b].0;
        }
      }
    }
  }

  lemma {:induction false} WithoutMembers(ps: seq<Position>, centre: Position)
    ensures forall p :: p in Without(ps, centre) <==> p in ps && p != centre
    ensures |Without(ps, centre)| <= |ps|
    ensures centre in ps ==> |Without(ps, centre)| < |ps|
  {
    if ps != [] {
      WithoutMembers(ps[1..], centre);
      assert ps == [ps[0]] + ps[1..];
    }
  }

  lemma {:induction false} WithoutSorted(ps: seq<Position>, centre: Position)
    requires StrictlySorted(ps)
    ensures StrictlySorted(Without(ps, centre))
  {
    if ps != [] {
      WithoutSorted(ps[1..], centre);
      WithoutMembers(ps[1..], centre);
      var head := if ps[0] == centre then [] else [ps[0]];
      var tail := Without(ps[1..], centre);
      var w := head + tail;
      forall a, b | 0 <= a < b < |w| ensures LexLess(w[a], w[b]) {
        if a < |head| {
          assert w[b] in ps[1..];
          var m :| 0 <= m < |ps[1..]| && ps[1..][m] == w[b];
          assert ps[m + 1] == w[b];
        }
      }
    }
  }

  /** Sortedness follows from each position being below the next. */
  lemma {:induction false} ChainSorted(ps: seq<Position>)
    requires forall i :: 0 <= i < |ps| - 1 ==> LexLess(ps[i], ps[i + 1])
    ensures StrictlySorted(ps)
  {
    if ps != [] {
      var tail := ps[1..];
      assert forall i :: 0 <= i < |tail| - 1 ==> LexLess(tail[i], tail[i + 1]) by {
        forall i | 0 <= i < |tail| - 1 ensures LexLess(tail[i], tail[i + 1]) {
          assert tail[i] == ps[i + 1] && tail[i + 1] == ps[i + 2];
        }
      }
      ChainSorted(tail);
      forall a, c | 0 <= a < c < |ps| ensures LexLess(ps[a], ps[c]) {
        if a == 0 && c > 1 {
          assert LexLess(tail[0], tail[c - 1]);
        } else if a > 0 {
          assert LexLess(tail[a - 1], tail[c - 1]);
        }
      }
    }
  }

  /** A strictly sorted sequence is fixed by its elements. */
  lemma {:induction false} SortedUnique(a: seq<Position>, b: seq<Position>)
    requires StrictlySorted(a) && StrictlySorted(b)
    requires forall p :: p in a <==> p in b
    ensures a == b
  {
    assert a == [] <==> b == [] by {
      if a != [] { assert a[0] in a; }
      if b != [] { assert b[0] in b; }
    }
    if a != [] {
      assert a[0] in b;
      var j :| 0 <= j < |b| && b[j] == a[0];
      assert b[0] in a;
      var i :| 0 <= i < |a| && a[i] == b[0];
      assert a[0] == b[0];
      forall p ensures p in a[1..] <==> p in b[1..] {
        assert p in a[1..] <==> p in a && p != a[0] by {
          if p in a && p != a[0] {
            var k :| 0 <= k < |a| && a[k] == p;
            assert a[k] == a[1..][k - 1];
          }
        }
        assert p in b[1..] <==> p in b && p != b[0] by {
          if p in b && p != b[0] {
            var k :| 0 <= k < |b| && b[k] == p;
            assert b[k] == b[1..][k - 1];
          }
        }
      }
      SortedUnique(a[1..], b[1..]);
      assert a == [a[0]] + a[1..];
      assert b == [b[0]] + b[1..];
    }
  }

  lemma RangeMembers(lo: nat, hi: nat)
    ensures forall x :: x in Range(lo, hi) <==> lo <= x < hi
  {
    var xs := Range(lo, hi);
    forall x ensures x in xs <==> lo <= x < hi {
      if lo <= x < hi { assert xs[x - lo] == x; }
    }
  }

  /** A box spanning at most three values around the centre on each axis has at most
      9 positions, and at most 3 when it misses the centre. */
  lemma BoxSize(loX: nat, hiX: nat, loY: nat, hiY: nat, centre: Position)
    requires loX + 1 >= centre.0 && hiX <= centre.0 + 2
    requires loY + 1 >= centre.1 && hiY <= centre.1 + 2
    ensures |Product(Range(loX, hiX), Range(loY, hiY))| <= 9
    ensures centre !in Product(Range(loX, hiX), Range(loY, hiY))
            ==> |Product(Range(loX, hiX), Range(loY, hiY))| <= 3
  {
    var xs, ys := Range(loX, hiX), Range(loY, hiY);
    ProductMembers(xs, ys);
    RangeMembers(loX, hiX);
    RangeMembers(loY, hiY);
    var nx, ny := |xs|, |ys|;
    assert nx <= 3 && ny <= 3;
    assert nx * ny <= 9 by { assert nx * ny <= 3 * ny; }
    if centre !in Product(xs, ys) {
      // The centre lies outside the box on some axis, and a contiguous range within
      // centre-1 ..= centre+1 that misses the centre holds at most one value.
      assert nx <= 1 || ny <= 1;
      assert nx * ny <= 3 by {
        if nx <= 1 { assert nx * ny <= ny; } else { assert nx * ny <= nx; }
      }
    }
  }

  /** The facts about a window used by both neighbour enumerations: exactly the box
      minus its centre, in strictly increasing row-major order, at most 8 long when
      the box spans at most three values on either axis around the centre. */
  lemma WindowFacts(loX: nat, hiX: nat, loY: nat, hiY: nat, centre: Position)
    requires loX + 1 >= centre.0 && hiX <= centre.0 + 2
    requires loY + 1 >= centre.1 && hiY <= centre.1 + 2
    ensures forall p :: p in Window(loX, hiX, loY, hiY, centre)
                        <==> loX <= p.0 < hiX && loY <= p.1 < hiY && p != centre
    ensures StrictlySorted(Window(loX, hiX, loY, hiY, centre))
    ensures |Window(loX, hiX, loY, hiY, centre)| <= 8
  {
    var xs, ys := Range(loX, hiX), Range(loY, hiY);
    var ps := Product(xs, ys);
    ProductMembers(xs, ys);
    RangeMembers(loX, hiX);
    RangeMembers(loY, hiY);
    ProductSorted(xs, ys);
    WithoutMembers(ps, centre);
    WithoutSorted(ps, centre);
    BoxSize(loX, hiX, loY, hiY, centre);
  }

  // ---------------------------------------------------------------------------
  // Neighbour enumeration as the source writes it

  /** `iter_neighbors((x, y))`, as written: the first coordinate runs over
      max(x,1)-1 ..= min(x+1, width), the second over max(y,1)-1 ..= min(y+1, height),
      both upper ends inclusive, the centre filtered out. */
  function IterNeighbors(b: Minesweeper, pos: Position): (r: seq<Position>)
    ensures pos !in r
    ensures |r| <= 8
    ensures StrictlySorted(r)
    ensures forall p :: p in r <==>
      && Max(pos.0, 1) - 1 <= p.0 <= Min(pos.0 + 1, b.width)
      && Max(pos.1, 1) - 1 <= p.1 <= Min(pos.1 + 1, b.height)
      && p != pos
    ensures forall p :: p in r ==> Dist(p.0, pos.0) <= 1 && Dist(p.1, pos.1) <= 1
  {
    var (x, y) := pos;
    var loX, hiX := Max(x, 1) - 1, Min(x + 1, b.width) + 1;
    var loY, hiY := Max(y, 1) - 1, Min(y + 1, b.height) + 1;
    WindowFacts(loX, hiX, loY, hiY, pos);
    Window(loX, hiX, loY, hiY, pos)
  }

  /** The source's first test case: the corner (0, 0) of any 4 x 4 board. */
  lemma IterNeighborsOfCorner(b: Minesweeper)
    requires b.width == 4 && b.height == 4
    ensures IterNeighbors(b, (0, 0)) == [(0, 1), (1, 0), (1, 1)]
  {
    var r, expected := IterNeighbors(b, (0, 0)), [(0, 1), (1, 0), (1, 1)];
    assert StrictlySorted(expected);
    forall p ensures p in r <==> p in expected {
      assert p in r <==> p.0 <= 1 && p.1 <= 1 && p != (0, 0);
      assert p in expected <==> p.0 <= 1 && p.1 <= 1 && p != (0, 0);
    }
    SortedUnique(r, expected);
  }

  /** The source's second test case: the inner cell (1, 1) of any 4 x 4 board. */
  lemma IterNeighborsOfInnerCell(b: Minesweeper)
    requires b.width == 4 && b.height == 4
    ensures IterNeighbors(b, (1, 1)) == [(0, 0), (0, 1), (0, 2), (1, 0), (1, 2), (2, 0), (2, 1), (2, 2)]
  {
    var r, expected := IterNeighbors(b, (1, 1)), [(0, 0), (0, 1), (0, 2), (1, 0), (1, 2), (2, 0), (2, 1), (2, 2)];
    ChainSorted(expected);
    forall p ensures p in r <==> p in expected {
      if p in r {
        assert p.0 <= 2 && p.1 <= 2 && p != (1, 1);
        assert p.0 == 0 || p.0 == 1 || p.0 == 2;
        assert p.1 == 0 || p.1 == 1 || p.1 == 2;
      }
    }
    SortedUnique(r, expected);
  }

  /** As written, the far corner's neighbours include a position one step past the
      board on both axes, because the inclusive upper end is clamped to the dimension
      itself rather than to the last index. */
  lemma IterNeighborsLeavesBoard(b: Minesweeper)
    requires b.width > 0 && b.height > 0
    ensures (b.width, b.height) in IterNeighbors(b, (b.width - 1, b.height - 1))
  {
  }

  /** As written, the first coordinate is clamped by `width` and the second by `height`,
      while the layout parser makes the first coordinate the row (bounded by `height`).
      On a board 2 rows high and 5 columns wide, cell (0, 3) is a real neighbour of
      (0, 2), yet it is missing from the enumeration. */
  lemma IterNeighborsMissesNeighbour(b: Minesweeper)
    requires b.width == 5 && b.height == 2
    ensures (0, 3) !in IterNeighbors(b, (0, 2))
    ensures (0, 3) in AdjacentCells(b, (0, 2))
  {
  }

  // ---------------------------------------------------------------------------
  // Neighbour enumeration as evidently intended

  /** The neighbours of (row, col) that lie on the board: rows below `height`,
      columns below `width`, in the same row-major order. */
  function AdjacentCells(b: Minesweeper, pos: Position): (r: seq<Position>)
    ensures |r| <= 8
    ensures StrictlySorted(r)
    ensures forall p :: p in r <==>
      && p.0 < b.height && p.1 < b.width
      && Dist(p.0, pos.0) <= 1 && Dist(p.1, pos.1) <= 1
      && p != pos
  {
    var (row, col) := pos;
    var loX, hiX := Max(row, 1) - 1, Min(row + 2, b.height);
    var loY, hiY := Max(col, 1) - 1, Min(col + 2, b.width);
    WindowFacts(loX, hiX, loY, hiY, pos);
    Window(loX, hiX, loY, hiY, pos)
  }

  /** The far corner of any board at least 2 x 2 has its three neighbours, all on the board. */
  lemma AdjacentCellsOfFarCorner(b: Minesweeper)
    requires b.width >= 2 && b.height >= 2
    ensures AdjacentCells(b, (b.height - 1, b.width - 1))
         == [(b.height - 2, b.width - 2), (b.height - 2, b.width - 1), (b.height - 1, b.width - 2)]
  {
    var h, w := b.height, b.width;
    var r := AdjacentCells(b, (h - 1, w - 1));
    var expected := [(h - 2, w - 2), (h - 2, w - 1), (h - 1, w - 2)];
    assert StrictlySorted(expected);
    forall p ensures p in r <==> p in expected {
      if p in r {
        assert p.0 < h && p.1 < w && Dist(p.0, h - 1) <= 1 && Dist(p.1, w - 1) <= 1;
        assert p.0 == h - 2 || p.0 == h - 1;
        assert p.1 == w - 2 || p.1 == w - 1;
      }
    }
    SortedUnique(r, expected);
  }

  /** A cell on the first row, away from the side columns, has five neighbours. */
  lemma AdjacentCellsOfEdge(b: Minesweeper, c: nat)
    requires b.height >= 2 && 1 <= c && c + 1 < b.width
    ensures AdjacentCells(b, (0, c)) == [(0, c - 1), (0, c + 1), (1, c - 1), (1, c), (1, c + 1)]
  {
    var r := AdjacentCells(b, (0, c));
    var expected := [(0, c - 1), (0, c + 1), (1, c - 1), (1, c), (1, c + 1)];
    ChainSorted(expected);
    forall p ensures p in r <==> p in expected {
      if p in r {
        assert p.0 < b.height && p.1 < b.width && Dist(p.0, 0) <= 1 && Dist(p.1, c) <= 1;
        assert p.0 == 0 || p.0 == 1;
        assert p.1 == c - 1 || p.1 == c || p.1 == c + 1;
      }
    }
    SortedUnique(r, expected);
  }
}
