/** `Minesweeper::new(width, height, mines)`: fills the mine set by rejection
    sampling. The source draws each position as
    `(random_range(0, width), random_range(0, height))`; here the draws are a
    finite sequence handed in by the caller, each lying in `[0, width) x [0, height)`
    as `random_range` promises. Running out of draws stands for the loop not
    having finished yet. */
module Placement {
  import opened Board

  datatype Option<T> = None | Some(value: T)

  /** The distinct positions among some draws. */
  function Drawn(draws: seq<Position>): set<Position> {
    set k | 0 <= k < |draws| :: draws[k]
  }

  /** Every position of a `width` x `height` board, first coordinate below `width`. */
  function Grid(width: nat, height: nat): set<Position> {
    set i: nat, j: nat | i < width && j < height :: (i, j)
  }

  function Column(i: nat, height: nat): set<Position> {
    set j: nat | j < height :: (i, j)
  }

  lemma {:induction false} ColumnSize(i: nat, height: nat)
    ensures |Column(i, height)| == height
  {
    if height > 0 {
      ColumnSize(i, height - 1);
      assert Column(i, height) == Column(i, height - 1) + {(i, height - 1)};
    } else {
      assert Column(i, height) == {};
    }
  }

  /** A board has exactly `width * height` positions. */
  lemma {:induction false} GridSize(width: nat, height: nat)
    ensures |Grid(width, height)| == width * height
  {
    if width > 0 {
      var g, c := Grid(width - 1, height), Column(width - 1, height);
      GridSize(width - 1, height);
      ColumnSize(width - 1, height);
      GridSplit(width, height);
      assert |g + c| == |g| + |c|;
      assert width * height == (width - 1) * height + height by {
        assert width * height == (width - 1 + 1) * height;
      }
    } else {
      assert Grid(width, height) == {};
    }
  }

  /** The last column splits off a board. */
  lemma GridSplit(width: nat, height: nat)
    requires width > 0
    ensures Grid(width, height) == Grid(width - 1, height) + Column(width - 1, height)
    ensures Grid(width - 1, height) !! Column(width - 1, height)
  {
    var g, c := Grid(width - 1, height), Column(width - 1, height);
    forall p | p in Grid(width, height) ensures p in g + c {
      if p.0 < width - 1 { assert p in g; } else { assert p in c; }
    }
  }

  lemma SubsetSize<T>(a: set<T>, b: set<T>)
    requires a <= b
    ensures |a| <= |b|
  {
    assert b == a + (b - a);
  }

  /** `Minesweeper::new`: draws positions and inserts them into the mine set until it
      holds `mines` positions. `used` is how many draws were consumed. The result is
      `None` exactly when the draws hold fewer than `mines` distinct positions, which
      is always so when `mines` exceeds the board's `width * height` positions. */
  method New(width: nat, height: nat, mines: nat, draws: seq<Position>)
    returns (r: Option<Minesweeper>, used: nat)
    requires forall k :: 0 <= k < |draws| ==> draws[k].0 < width && draws[k].1 < height
    ensures used <= |draws|
    ensures r.Some? <==> mines <= |Drawn(draws)|
    ensures r.Some? ==> r.value == Minesweeper(width, height, {}, Drawn(draws[..used]), {})
    ensures r.Some? ==> |r.value.mines| == mines
    ensures r.Some? ==> forall p :: p in r.value.mines ==> p.0 < width && p.1 < height
    ensures forall n :: 0 <= n < used ==> |Drawn(draws[..n])| < mines
    ensures mines > width * height ==> r.None?
  {
    var m: set<Position> := {};
    used := 0;
    while |m| < mines && used < |draws|
      invariant used <= |draws|
      invariant m == Drawn(draws[..used])
      invariant |m| <= mines
      invariant m <= Grid(width, height)
      invariant forall n :: 0 <= n < used ==> |Drawn(draws[..n])| < mines
      decreases |draws| - used
    {
      assert draws[..used + 1] == draws[..used] + [draws[used]];
      m := m + {draws[used]};
      used := used + 1;
    }
    assert Drawn(draws[..used]) <= Drawn(draws);
    SubsetSize(Drawn(draws[..used]), Drawn(draws));
    assert Drawn(draws) <= Grid(width, height);
    SubsetSize(Drawn(draws), Grid(width, height));
    GridSize(width, height);
    if |m| < mines {
      assert draws[..used] == draws;
      r := None;
    } else {
      r := Some(Minesweeper(width, height, {}, m, {}));
    }
  }
}
