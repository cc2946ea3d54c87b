/**
  The Zobrist key table: two 64-bit keys (one per stone colour) for every
  intersection of an n-by-n grid, drawn in a fixed order from a generator
  seeded with a constant, so that every table built for the same n is the same.

  The generator is not modelled: `rng(k)` stands for the k-th value it yields
  (counting from 0) after being seeded with the constant seed 172147124.
 */
module Zobrist {
  import opened Stones
  import Coords
  import opened Words

  /** The table always allocates rows for a 19x19 grid, whatever n it is built for. */
  const ROWS: nat := 19 * 19

  /** Keys per row: one for each stone colour. */
  const COLUMNS: nat := 2

  datatype ZobristTable = ZobristTable(hashes: seq<seq<u64>>, n: nat)
  {
    /** The allocated shape: ROWS rows of COLUMNS keys. */
    predicate WellFormed() {
      |hashes| == ROWS && forall i | 0 <= i < |hashes| :: |hashes[i]| == COLUMNS
    }

    /** Row of the key of point `x`: row-major with the table's own n. */
    function Row(x: Coord): nat {
      Coords.To(n, x)
    }

    /** The key for a stone of colour `color` at `x`; there is no key for the empty colour. */
    function Key(x: Coord, color: Color): u64
      requires WellFormed()
      requires color != None && Row(x) < ROWS
    {
      hashes[Row(x)][Column(color)]
    }
  }

  /**
    Column of a colour's key: the colour's byte value minus one. The empty
    colour would give 0 - 1, which overflows the byte, so it has no column.
   */
  function Column(color: Color): (j: nat)
    requires Discriminant(color) >= 1
    ensures j < COLUMNS
    ensures color == Black <==> j == 0
  {
    Discriminant(color) - 1
  }

  /** `t` is the table built for dimension `n` from the stream `rng`. */
  ghost predicate Generated(t: ZobristTable, n: nat, rng: nat -> u64) {
    && t.n == n
    && t.WellFormed()
    && (forall i, j | 0 <= i < n * n && i < ROWS && 0 <= j < COLUMNS :: t.hashes[i][j] == rng(2 * i + j))
    && (forall i | n * n <= i < ROWS :: t.hashes[i] == [0, 0])
  }

  /**
    Builds the table for an n-by-n grid: all ROWS rows start as [0, 0], then
    rows 0 .. n*n-1 are filled in order, two draws per row.
   */
  method NewTable(n: nat, rng: nat -> u64) returns (t: ZobristTable)
    requires n <= 19
    ensures t.n == n && t.WellFormed()
    ensures forall i, j | 0 <= i < n * n && 0 <= j < COLUMNS :: t.hashes[i][j] == rng(2 * i + j)
    ensures forall i | n * n <= i < ROWS :: t.hashes[i] == [0, 0]
    ensures Generated(t, n, rng)
  {
    Coords.MulMonotone(n, 19, n);
    Coords.MulMonotone(n, 19, 19);
    var hashes: seq<seq<u64>> := seq(ROWS, _ => [0, 0]);
    var drawn: nat := 0;
    for i := 0 to n * n
      invariant |hashes| == ROWS
      invariant forall r | 0 <= r < ROWS :: |hashes[r]| == COLUMNS
      invariant drawn == 2 * i
      invariant forall r, j | 0 <= r < i && 0 <= j < COLUMNS :: hashes[r][j] == rng(2 * r + j)
      invariant forall r | i <= r < ROWS :: hashes[r] == [0, 0]
    {
      for j := 0 to COLUMNS
        invariant |hashes| == ROWS
        invariant forall r | 0 <= r < ROWS :: |hashes[r]| == COLUMNS
        invariant drawn == 2 * i + j
        invariant forall r, c | 0 <= r < i && 0 <= c < COLUMNS :: hashes[r][c] == rng(2 * r + c)
        invariant forall c | 0 <= c < j :: hashes[i][c] == rng(2 * i + c)
        invariant forall c | j <= c < COLUMNS :: hashes[i][c] == 0
        invariant forall r | i < r < ROWS :: hashes[r] == [0, 0]
      {
        hashes := hashes[i := hashes[i][j := rng(drawn)]];
        drawn := drawn + 1;
      }
    }
    t := ZobristTable(hashes, n);
  }

  /** Two tables built for the same n from the same seeded stream are identical. */
  lemma Deterministic(t1: ZobristTable, t2: ZobristTable, n: nat, rng: nat -> u64)
    requires Generated(t1, n, rng) && Generated(t2, n, rng)
    ensures t1 == t2
  {
    forall i | 0 <= i < ROWS ensures t1.hashes[i] == t2.hashes[i] {
      if i < n * n {
        assert t1.hashes[i][0] == t2.hashes[i][0] && t1.hashes[i][1] == t2.hashes[i][1];
      }
    }
  }

  /**
    For a point of the n-by-n grid and a stone colour, the lookup reads row
    x.0 * n + x.1, which exists, and yields the value drawn for that row and colour.
   */
  lemma KeyIsDrawn(t: ZobristTable, n: nat, rng: nat -> u64, x: Coord, color: Color)
    requires n <= 19 && Generated(t, n, rng)
    requires Coords.InBounds(n, x) && color != None
    ensures t.Row(x) < n * n <= ROWS
    ensures t.Key(x, color) == rng(2 * t.Row(x) + Column(color))
  {
    Coords.MulMonotone(n, 19, n);
    Coords.MulMonotone(n, 19, 19);
  }

  /** Distinct (point, colour) pairs of the grid take their keys from distinct draws. */
  lemma DistinctDraws(n: nat, x: Coord, c: Color, y: Coord, d: Color)
    requires Coords.InBounds(n, x) && Coords.InBounds(n, y)
    requires c != None && d != None && (x, c) != (y, d)
    ensures 2 * Coords.To(n, x) + Column(c) != 2 * Coords.To(n, y) + Column(d)
  {
    if x != y {
      Coords.ToInjective(n, x, y);
    }
  }
}
