/**
  The read-only board queries, stated on a grid of side `size` whose cells
  are stored row-major in `cells`: locating coordinates (neighbour lookups)
  and scanning the grid in index order (stone listings).
 */
module Queries {
  import opened Stones
  import opened Coords

  /** The colour stored for a valid coordinate. */
  function ColorAt(size: nat, cells: seq<Color>, q: Coord): Color
    requires |cells| == size * size && InBounds(size, q)
  {
    cells[To(size, q)]
  }

  /** The coordinates of `cs` that lie on the grid, in order, each paired with its colour. */
  function Located(size: nat, cells: seq<Color>, cs: seq<Coord>): (r: seq<Stone>)
    requires |cells| == size * size
    ensures |r| <= |cs|
  {
    if cs == [] then []
    else
      var rest := Located(size, cells, cs[1..]);
      if InBounds(size, cs[0]) then [Stone(cs[0], ColorAt(size, cells, cs[0]))] + rest else rest
  }

  /** Locating keeps exactly the on-grid coordinates of `cs`, each with the colour stored for it. */
  lemma {:induction false} LocatedMembers(size: nat, cells: seq<Color>, cs: seq<Coord>)
    requires |cells| == size * size
    ensures forall s :: s in Located(size, cells, cs) <==>
      s.coordinates in cs && InBounds(size, s.coordinates) && s.color == ColorAt(size, cells, s.coordinates)
  {
    if cs != [] {
      LocatedMembers(size, cells, cs[1..]);
      assert forall q :: q in cs <==> q == cs[0] || q in cs[1..] by {
        assert cs == [cs[0]] + cs[1..];
      }
    }
  }

  /** How many of the four sides of `c` fall off a grid of side `size`. */
  function OffBoardSides(size: nat, c: Coord): nat {
    (if c.0 == 0 then 1 else 0) + (if c.0 + 1 == size then 1 else 0)
      + (if c.1 == 0 then 1 else 0) + (if c.1 + 1 == size then 1 else 0)
  }

  /**
    A cell has one on-board neighbour per side that does not fall off the
    grid: 2 in a corner, 3 on an edge, 4 inside (for a side of at least 2).
   */
  lemma NeighborCount(size: nat, cells: seq<Color>, c: Coord)
    requires |cells| == size * size
    ensures InBounds(size, c) ==> |Located(size, cells, NeighborCoords(c))| == 4 - OffBoardSides(size, c)
  {
    var up := if c.0 > 0 then [(c.0 - 1, c.1)] else [];
    var left := if c.1 > 0 then [(c.0, c.1 - 1)] else [];
    var down, right := [(c.0 + 1, c.1)], [(c.0, c.1 + 1)];
    assert NeighborCoords(c) == up + (down + (left + right));
    LocatedAppend(size, cells, up, down + (left + right));
    LocatedAppend(size, cells, down, left + right);
    LocatedAppend(size, cells, left, right);
    LocatedCount(size, cells, up);
    LocatedCount(size, cells, down);
    LocatedCount(size, cells, left);
    LocatedCount(size, cells, right);
  }

  /** At most one coordinate: it is kept exactly when it is on the grid. */
  lemma LocatedCount(size: nat, cells: seq<Color>, cs: seq<Coord>)
    requires |cells| == size * size && |cs| <= 1
    ensures |Located(size, cells, cs)| == if cs != [] && InBounds(size, cs[0]) then 1 else 0
  {
    if cs != [] {
      assert cs[1..] == [];
    }
  }

  lemma {:induction false} LocatedAppend(size: nat, cells: seq<Color>, xs: seq<Coord>, ys: seq<Coord>)
    requires |cells| == size * size
    ensures Located(size, cells, xs + ys) == Located(size, cells, xs) + Located(size, cells, ys)
  {
    if xs == [] {
      assert xs + ys == ys;
    } else {
      assert (xs + ys)[0] == xs[0] && (xs + ys)[1..] == xs[1..] + ys;
      LocatedAppend(size, cells, xs[1..], ys);
    }
  }

  /** Locating coordinates that do not repeat yields stones that do not repeat a coordinate. */
  lemma {:induction false} LocatedDistinct(size: nat, cells: seq<Color>, cs: seq<Coord>)
    requires |cells| == size * size
    requires forall j, k | 0 <= j < k < |cs| :: cs[j] != cs[k]
    ensures DistinctCoords(Located(size, cells, cs))
  {
    if cs != [] {
      var rest := Located(size, cells, cs[1..]);
      LocatedDistinct(size, cells, cs[1..]);
      LocatedMembers(size, cells, cs[1..]);
      forall s | s in rest ensures s.coordinates != cs[0] {
        var k :| 0 <= k < |cs[1..]| && cs[1..][k] == s.coordinates;
        assert cs[k + 1] == s.coordinates;
      }
      if InBounds(size, cs[0]) {
        var r := Located(size, cells, cs);
        assert r == [Stone(cs[0], ColorAt(size, cells, cs[0]))] + rest;
        forall j, k | 0 <= j < k < |r| ensures r[j].coordinates != r[k].coordinates {
          assert r[k] == rest[k - 1] && r[k] in rest;
          if j > 0 {
            assert r[j] == rest[j - 1];
          }
        }
      }
    }
  }

  /** The cells with index `k` or more whose colour satisfies `keep`, in index order, as stones. */
  function Scan(size: nat, cells: seq<Color>, keep: Color -> bool, k: nat): (r: seq<Stone>)
    requires |cells| == size * size && k <= |cells|
    ensures |r| <= |cells| - k
    decreases |cells| - k
  {
    if k == |cells| then []
    else
      var rest := Scan(size, cells, keep, k + 1);
      if keep(cells[k]) then [Stone(From(size, k), cells[k])] + rest else rest
  }

  /**
    A scan from index `k` lists exactly the valid coordinates at index `k`
    or later whose colour satisfies `keep`, each with that colour.
   */
  lemma {:induction false} ScanMembers(size: nat, cells: seq<Color>, keep: Color -> bool, k: nat)
    requires |cells| == size * size && k <= |cells|
    ensures forall s :: s in Scan(size, cells, keep, k) <==>
      && InBounds(size, s.coordinates)
      && k <= To(size, s.coordinates)
      && s.color == ColorAt(size, cells, s.coordinates)
      && keep(s.color)
    decreases |cells| - k
  {
    if k < |cells| {
      ScanMembers(size, cells, keep, k + 1);
      ToFrom(size, k);
      forall q | InBounds(size, q) && To(size, q) == k ensures q == From(size, k) {
        FromTo(size, q);
      }
    }
  }

  /** The stones' coordinates are in strictly ascending row-major order. */
  predicate Ascending(r: seq<Stone>) {
    forall a, b | 0 <= a < b < |r| :: Before(r[a].coordinates, r[b].coordinates)
  }

  lemma AscendingCons(x: Stone, rest: seq<Stone>)
    requires Ascending(rest)
    requires forall s | s in rest :: Before(x.coordinates, s.coordinates)
    ensures Ascending([x] + rest)
  {
    var r := [x] + rest;
    forall a, b | 0 <= a < b < |r| ensures Before(r[a].coordinates, r[b].coordinates) {
      assert r[b] == rest[b - 1] && r[b] in rest;
      if a > 0 {
        assert r[a] == rest[a - 1];
      }
    }
  }

  /** An ascending list whose only member is `x` is exactly [x]. */
  lemma AscendingSingleton(r: seq<Stone>, x: Stone)
    requires Ascending(r) && x in r
    requires forall s | s in r :: s == x
    ensures r == [x]
  {
    assert DistinctCoords(r);
    DistinctCardinality(r);
    assert (set s | s in r) == {x};
    assert r[0] in r;
  }

  /** A scan lists its stones in strictly ascending row-major order. */
  lemma {:induction false} ScanSorted(size: nat, cells: seq<Color>, keep: Color -> bool, k: nat)
    requires |cells| == size * size && k <= |cells|
    ensures Ascending(Scan(size, cells, keep, k))
    decreases |cells| - k
  {
    if k < |cells| {
      var rest := Scan(size, cells, keep, k + 1);
      ScanSorted(size, cells, keep, k + 1);
      if keep(cells[k]) {
        var x := Stone(From(size, k), cells[k]);
        assert Scan(size, cells, keep, k) == [x] + rest;
        ScanMembers(size, cells, keep, k + 1);
        forall s | s in rest ensures Before(x.coordinates, s.coordinates) {
          FromTo(size, s.coordinates);
          FromMonotone(size, k, To(size, s.coordinates));
        }
        AscendingCons(x, rest);
      } else {
        assert Scan(size, cells, keep, k) == rest;
      }
    }
  }

  /** Row `i` as text: the symbol of each of its cells, then a newline. */
  function Line(size: nat, cells: seq<Color>, glyph: Color -> char, i: nat): (line: string)
    requires |cells| == size * size && i < size
    ensures |line| == size + 1 && line[size] == '\n'
    ensures forall j | 0 <= j < size :: line[j] == glyph(ColorAt(size, cells, (i, j)))
  {
    seq(size, j requires 0 <= j < size => glyph(ColorAt(size, cells, (i, j)))) + ['\n']
  }

  /** The first `m` rows as text, top row first. */
  function Rendering(size: nat, cells: seq<Color>, glyph: Color -> char, m: nat): string
    requires |cells| == size * size && m <= size
  {
    if m == 0 then [] else Rendering(size, cells, glyph, m - 1) + Line(size, cells, glyph, m - 1)
  }

  /** The text of `m` rows has m * (size + 1) characters. */
  lemma {:induction false} RenderingLength(size: nat, cells: seq<Color>, glyph: Color -> char, m: nat)
    requires |cells| == size * size && m <= size
    ensures |Rendering(size, cells, glyph, m)| == m * (size + 1)
  {
    if m > 0 {
      RenderingLength(size, cells, glyph, m - 1);
      assert m * (size + 1) == (m - 1) * (size + 1) + (size + 1);
    }
  }

  /**
    Character j of line i of the text sits at i * (size + 1) + j: the symbol
    of cell (i, j), or the newline when j == size.
   */
  lemma {:induction false} RenderingAt(size: nat, cells: seq<Color>, glyph: Color -> char, m: nat, i: nat, j: nat)
    requires |cells| == size * size && m <= size
    requires i < m && j <= size
    ensures i * (size + 1) + j < |Rendering(size, cells, glyph, m)|
    ensures Rendering(size, cells, glyph, m)[i * (size + 1) + j] ==
      if j == size then '\n' else glyph(ColorAt(size, cells, (i, j)))
  {
    var w := size + 1;
    var front := Rendering(size, cells, glyph, m - 1);
    RenderingLength(size, cells, glyph, m - 1);
    if i < m - 1 {
      RenderingAt(size, cells, glyph, m - 1, i, j);
      RowOffset(i, m - 1, w, j);
    } else {
      assert i * w + j == |front| + j;
    }
  }

  lemma RowOffset(i: nat, m: nat, w: nat, j: nat)
    requires i < m && j < w
    ensures i * w + j < m * w
  {
    MulMonotone(i + 1, m, w);
    assert (i + 1) * w == i * w + w;
  }
}
