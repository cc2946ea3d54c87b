/**
  The Go board: a grid of side `size` stored row-major in three arrays of
  size*size cells (colours, black occupancy, white occupancy) and a running
  Zobrist hash. `Push` is the one operation that changes a board; the
  queries read it. The board's state is specified through its value-level
  view `State()`, so every property proved about `Placed`, `PlacedAll` and
  `HashOf` applies to the board.
 */
module Board {
  import opened Stones
  import opened Coords
  import opened Words
  import opened Zobrist
  import opened Position
  import opened Queries

  /** What `push` returns: success, or the error naming the point that lies outside the board. */
  datatype PushResult = Pushed | OutsideGoban(point: Coord)

  /** The integer square root: the largest r with r*r <= n. */
  function Isqrt(n: nat): (r: nat)
    ensures r * r <= n < (r + 1) * (r + 1)
  {
    if n == 0 then 0
    else
      var r := Isqrt(n - 1);
      if (r + 1) * (r + 1) <= n then r + 1 else r
  }

  /**
    What `from_array` needs so that none of its pushes fails: every stone lies
    inside the square grid its length gives, and has a key row.
   */
  predicate Loadable(keys: ZobristTable, stones: seq<Color>) {
    var size := Isqrt(|stones|);
    forall k | 0 <= k < |stones| && stones[k] != None ::
      k < size * size && keys.Row(From(size, k)) < ROWS
  }

  class Goban {
    const size: nat
    const zobrist: ZobristTable
    const tab: array<Color>
    const bStones: array<bool>
    const wStones: array<bool>
    var hash: u64

    /** The three arrays have size*size cells, the bitsets are distinct arrays and the key table has its full shape. */
    ghost predicate Valid()
      reads this
    {
      && tab.Length == size * size
      && bStones.Length == size * size
      && wStones.Length == size * size
      && bStones != wStones
      && zobrist.WellFormed()
    }

    /** The board as a value. */
    ghost function State(): (s: Snapshot)
      reads this, tab, bStones, wStones
      requires Valid()
      ensures WellSized(size, s)
    {
      Snapshot(tab[..], bStones[..], wStones[..], hash)
    }

    /** The bitsets agree with the grid and the running hash is the hash of the grid. */
    ghost predicate Coherent()
      reads this, tab, bStones, wStones
      requires Valid()
    {
      BitsetsAgree(State()) && HashAgrees(zobrist, size, State())
    }

    /** An empty board of side `size` hashed with `zobrist`: every cell None, both bitsets clear, hash 0. */
    constructor (size: nat, zobrist: ZobristTable)
      requires zobrist.WellFormed()
      ensures this.size == size && this.zobrist == zobrist
      ensures Valid() && State() == Empty(size) && Coherent()
      ensures fresh(tab) && fresh(bStones) && fresh(wStones)
    {
      this.size := size;
      this.zobrist := zobrist;
      tab := new Color[size * size](_ => None);
      bStones := new bool[size * size](_ => false);
      wStones := new bool[size * size](_ => false);
      hash := 0;
      new;
      EmptyIsCoherent(zobrist, size);
    }

    /** A coordinate is on the board iff both components are below the side; it then addresses its own cell. */
    function CoordValid(coord: Coord): (b: bool)
      reads this
      ensures b <==> InBounds(size, coord)
      ensures b ==> To(size, coord) < size * size && size > 0 && From(size, To(size, coord)) == coord
    {
      if coord.0 < size && coord.1 < size then FromTo(size, coord); true else false
    }

    /** The colour at a coordinate of the board; the coordinate must be valid, as it is at every use in the program. */
    function At(p: Coord): (c: Color)
      reads this, tab
      requires Valid() && CoordValid(p)
      ensures c == Cell(size, State(), p)
    {
      tab[To(size, p)]
    }

    /**
      Puts `color` at `point`. Outside the board nothing changes and the error
      names the point; inside, the cell, the bitsets and the hash change as
      `Placed` says. Placing on an empty cell, or clearing, keeps the board coherent.
     */
    method Push(point: Coord, color: Color) returns (r: PushResult)
      requires Valid() && CanPlace(zobrist, size, State(), point, color)
      modifies this, tab, bStones, wStones
      ensures Valid()
      ensures r == if InBounds(size, point) then Pushed else OutsideGoban(point)
      ensures InBounds(size, point) ==> State() == Placed(zobrist, size, old(State()), point, color)
      ensures !InBounds(size, point) ==> State() == old(State())
      ensures old(Coherent()) && InBounds(size, point) && (old(At(point)) == None || color == None) ==> Coherent()
    {
      ghost var s0 := State();
      if CoordValid(point) {
        var i := To(size, point);
        match color {
          case Black =>
            bStones[i] := true;
          case White =>
            wStones[i] := true;
          case None =>
            bStones[i] := false;
            wStones[i] := false;
        }
        if color == None {
          hash := Xor(hash, zobrist.Key(point, tab[i]));
        } else {
          hash := Xor(hash, zobrist.Key(point, color));
        }
        tab[i] := color;
        r := Pushed;
        assert State() == Placed(zobrist, size, s0, point, color);
        if BitsetsAgree(s0) && HashAgrees(zobrist, size, s0) && (Cell(size, s0, point) == None || color == None) {
          PlacedBitsets(zobrist, size, s0, point, color);
          PlacedKeepsHash(zobrist, size, s0, point, color);
        }
      } else {
        r := OutsideGoban(point);
      }
    }

    /** Pushes a stone: its colour at its coordinates. */
    method PushStone(stone: Stone) returns (r: PushResult)
      requires Valid() && CanPlace(zobrist, size, State(), stone.coordinates, stone.color)
      modifies this, tab, bStones, wStones
      ensures Valid()
      ensures r == if InBounds(size, stone.coordinates) then Pushed else OutsideGoban(stone.coordinates)
      ensures InBounds(size, stone.coordinates) ==>
        State() == Placed(zobrist, size, old(State()), stone.coordinates, stone.color)
      ensures !InBounds(size, stone.coordinates) ==> State() == old(State())
    {
      r := Push(stone.coordinates, stone.color);
    }

    /**
      Pushes `value` at every coordinate in turn; every push must succeed. The
      addressed cells end up holding `value` and the others are unchanged; a
      run that only clears, or that fills distinct empty cells, keeps the board coherent.
     */
    method PushMany(coords: seq<Coord>, value: Color)
      requires Valid() && CanPlaceAll(zobrist, size, State(), coords, value)
      modifies this, tab, bStones, wStones
      ensures Valid()
      ensures State() == PlacedAll(zobrist, size, old(State()), coords, value)
      ensures forall j | 0 <= j < size * size :: tab[j] == if j in Targets(size, coords) then value else old(tab[j])
      ensures old(Coherent()) && (value == None || FreshTargets(size, old(State()), coords)) ==> Coherent()
    {
      ghost var s0 := State();
      for k := 0 to |coords|
        invariant Valid()
        invariant CanPlaceAll(zobrist, size, State(), coords[k..], value)
        invariant PlacedAll(zobrist, size, s0, coords, value) == PlacedAll(zobrist, size, State(), coords[k..], value)
      {
        assert coords[k..][1..] == coords[k + 1..];
        var _ := Push(coords[k], value);
      }
      assert coords[|coords|..] == [];
      PlacedAllContents(zobrist, size, s0, coords, value);
      if BitsetsAgree(s0) && HashAgrees(zobrist, size, s0) && (value == None || FreshTargets(size, s0, coords)) {
        PlacedAllCoherent(zobrist, size, s0, coords, value);
      }
    }

    /**
      The board whose side is the square root of the number of stones, with
      each non-empty stone pushed at its row-major coordinate: its grid is the
      first size*size stones and it is coherent.
     */
    static method FromArray(stones: seq<Color>, zobrist: ZobristTable) returns (g: Goban)
      requires zobrist.WellFormed() && Loadable(zobrist, stones)
      ensures fresh(g) && fresh(g.tab) && fresh(g.bStones) && fresh(g.wStones)
      ensures g.Valid() && g.size == Isqrt(|stones|) && g.zobrist == zobrist
      ensures g.size * g.size <= |stones|
      ensures g.tab[..] == stones[..g.size * g.size]
      ensures g.Coherent()
    {
      var size := Isqrt(|stones|);
      g := new Goban(size, zobrist);
      for k := 0 to |stones|
        invariant g.Valid() && g.size == size && g.zobrist == zobrist
        invariant fresh(g.tab) && fresh(g.bStones) && fresh(g.wStones)
        invariant forall j | 0 <= j < size * size :: g.tab[j] == if j < k then stones[j] else None
        invariant g.Coherent()
      {
        if stones[k] != None {
          var p := From(size, k);
          ToFrom(size, k);
          assert g.At(p) == None;
          var _ := g.Push(p, stones[k]);
        }
      }
      assert g.tab[..] == stones[..size * size];
    }

    /** The on-board orthogonal neighbours of `coord`, each with its colour; none repeats. */
    function GetNeighbors(coord: Coord): (r: seq<Stone>)
      reads this, tab
      requires Valid()
      ensures |r| <= 4
      ensures forall s :: s in r <==>
        CoordValid(s.coordinates) && Adjacent(coord, s.coordinates) && s.color == At(s.coordinates)
      ensures DistinctCoords(r)
      ensures CoordValid(coord) ==> |r| == 4 - OffBoardSides(size, coord)
    {
      NeighborCount(size, tab[..], coord);
      LocatedMembers(size, tab[..], NeighborCoords(coord));
      LocatedDistinct(size, tab[..], NeighborCoords(coord));
      Located(size, tab[..], NeighborCoords(coord))
    }

    /** The neighbours of `coord` that hold a stone. */
    function GetNeighborsStones(coord: Coord): (r: seq<Stone>)
      reads this, tab
      requires Valid()
      ensures |r| <= 4
      ensures forall s :: s in r <==>
        CoordValid(s.coordinates) && Adjacent(coord, s.coordinates) && s.color != None && s.color == At(s.coordinates)
      ensures DistinctCoords(r)
    {
      var n := GetNeighbors(coord);
      FilterKeepsDistinct(n, (s: Stone) => s.color != None);
      Filter(n, (s: Stone) => s.color != None)
    }

    /** The liberties of a stone: its empty neighbours. */
    function GetLiberties(point: Stone): (r: seq<Stone>)
      reads this, tab
      requires Valid()
      ensures |r| <= 4
      ensures forall s :: s in r <==>
        CoordValid(s.coordinates) && Adjacent(point.coordinates, s.coordinates) && s.color == None && At(s.coordinates) == None
      ensures DistinctCoords(r)
    {
      var n := GetNeighbors(point.coordinates);
      FilterKeepsDistinct(n, (s: Stone) => s.color == None);
      Filter(n, (s: Stone) => s.color == None)
    }

    /** The number of liberties: at most 4, and 0 exactly when every on-board neighbour is occupied. */
    function GetNbLiberties(point: Stone): (n: nat)
      reads this, tab
      requires Valid()
      ensures n <= 4
      ensures n == 0 <==> forall q | CoordValid(q) && Adjacent(point.coordinates, q) :: At(q) != None
    {
      var libs := GetLiberties(point);
      assert forall q | CoordValid(q) && Adjacent(point.coordinates, q) && At(q) == None :: Stone(q, None) in libs;
      assert libs != [] ==> libs[0] in libs;
      |libs|
    }

    /** Whether the stone has a liberty: some on-board neighbour is empty. */
    function HasLiberties(point: Stone): (b: bool)
      reads this, tab
      requires Valid()
      ensures b <==> GetNbLiberties(point) > 0
      ensures b <==> exists q :: CoordValid(q) && Adjacent(point.coordinates, q) && At(q) == None
    {
      var libs := GetLiberties(point);
      assert forall q | CoordValid(q) && Adjacent(point.coordinates, q) && At(q) == None :: Stone(q, None) in libs;
      assert libs != [] ==> libs[0] in libs;
      exists s | s in libs :: s.color == None
    }

    /** Every stone on the board, in ascending row-major order. */
    function GetStones(): (r: seq<Stone>)
      reads this, tab
      requires Valid()
      ensures forall s :: s in r <==> CoordValid(s.coordinates) && s.color != None && s.color == At(s.coordinates)
      ensures Ascending(r)
    {
      ScanMembers(size, tab[..], c => c != None, 0);
      ScanSorted(size, tab[..], c => c != None, 0);
      Scan(size, tab[..], c => c != None, 0)
    }

    /** Every cell holding `color`, as stones, in ascending row-major order. */
    function GetStonesByColor(color: Color): (r: seq<Stone>)
      reads this, tab
      requires Valid()
      ensures forall s :: s in r <==> CoordValid(s.coordinates) && s.color == color && At(s.coordinates) == color
      ensures Ascending(r)
    {
      ScanMembers(size, tab[..], c => c == color, 0);
      ScanSorted(size, tab[..], c => c == color, 0);
      Scan(size, tab[..], c => c == color, 0)
    }

    /**
      On a board that is empty except perhaps at the stone's own point, the
      stone's liberties are all its neighbours; on an empty board there are no stones.
     */
    lemma EmptyAround(point: Stone)
      requires Valid()
      requires forall q | CoordValid(q) && q != point.coordinates :: At(q) == None
      ensures GetLiberties(point) == GetNeighbors(point.coordinates)
      ensures GetNbLiberties(point) == |GetNeighbors(point.coordinates)|
      ensures (CoordValid(point.coordinates) ==> At(point.coordinates) == None) ==> GetStones() == []
    {
      var n := GetNeighbors(point.coordinates);
      FilterAll(n, (s: Stone) => s.color == None);
      var r := GetStones();
      if r != [] {
        assert r[0] in r;
      }
    }

    /** Board equality compares hashes only: coherent boards with the same grid and keys are equal. */
    function Equals(other: Goban): (b: bool)
      reads this, other, tab, bStones, wStones, other.tab, other.bStones, other.wStones
      ensures
        && Valid() && other.Valid() && Coherent() && other.Coherent()
        && size == other.size && zobrist == other.zobrist && tab[..] == other.tab[..]
        ==> b
    {
      other.hash == hash
    }
  
    /**
      The board as text, top row first: `size` lines of `size` symbols, each
      line ending in a newline. `glyph` gives the symbol of each colour.
     */
    method RawString(glyph: Color -> char) returns (buff: string)
      requires Valid()
      ensures buff == Rendering(size, tab[..], glyph, size)
      ensures |buff| == size * (size + 1)
    {
      buff := [];
      for i := 0 to size
        invariant buff == Rendering(size, tab[..], glyph, i)
      {
        for j := 0 to size
          invariant buff == Rendering(size, tab[..], glyph, i) + Line(size, tab[..], glyph, i)[..j]
        {
          assert Line(size, tab[..], glyph, i)[..j + 1] == Line(size, tab[..], glyph, i)[..j] + [glyph(At((i, j)))];
          buff := buff + [glyph(At((i, j)))];
        }
        assert Line(size, tab[..], glyph, i) == Line(size, tab[..], glyph, i)[..size] + ['\n'];
        buff := buff + ['\n'];
      }
      RenderingLength(size, tab[..], glyph, size);
    }

    /** The same text as `RawString`, character for character. */
    method PrettyString(glyph: Color -> char) returns (buff: string)
      requires Valid()
      ensures buff == Rendering(size, tab[..], glyph, size)
      ensures |buff| == size * (size + 1)
    {
      buff := RawString(glyph);
    }
  }

  /** The colours of the five-by-five example: Black at (2, 2), White at (2, 3), the rest empty. */
  ghost predicate ExampleBoard(g: Goban)
    reads g, g.tab
    requires g.Valid()
  {
    && g.size == 5
    && forall q | g.CoordValid(q) :: g.At(q) == if q == (2, 2) then Black else if q == (2, 3) then White else None
  }

  /** In the example, each colour lists exactly its one stone. */
  lemma ExampleStones(g: Goban)
    requires g.Valid() && ExampleBoard(g)
    ensures g.GetStonesByColor(Black) == [Stone((2, 2), Black)]
    ensures g.GetStonesByColor(White) == [Stone((2, 3), White)]
  {
    AscendingSingleton(g.GetStonesByColor(Black), Stone((2, 2), Black));
    AscendingSingleton(g.GetStonesByColor(White), Stone((2, 3), White));
  }

  /** In the example, the black stone's liberties are its three empty neighbours. */
  lemma ExampleLiberties(g: Goban)
    requires g.Valid() && ExampleBoard(g)
    ensures var libs := g.GetLiberties(Stone((2, 2), Black));
      && (set s | s in libs) == {Stone((1, 2), None), Stone((3, 2), None), Stone((2, 1), None)}
      && |libs| == 3
  {
    var libs := g.GetLiberties(Stone((2, 2), Black));
    var expected := {Stone((1, 2), None), Stone((3, 2), None), Stone((2, 1), None)};
    forall s | s in libs ensures s in expected {
      assert Adjacent((2, 2), s.coordinates) && s.coordinates != (2, 3);
    }
    forall s | s in expected ensures s in libs {
      assert g.CoordValid(s.coordinates) && g.At(s.coordinates) == None;
    }
    assert (set s | s in libs) == expected;
    DistinctCardinality(libs);
  }

  /** In the example, both stones have liberties. */
  lemma ExampleHasLiberties(g: Goban)
    requires g.Valid() && ExampleBoard(g)
    ensures g.HasLiberties(Stone((2, 2), Black)) && g.HasLiberties(Stone((2, 3), White))
  {
    assert g.CoordValid((1, 2)) && Adjacent((2, 2), (1, 2)) && g.At((1, 2)) == None;
    assert g.CoordValid((1, 3)) && Adjacent((2, 3), (1, 3)) && g.At((1, 3)) == None;
  }

  /**
    The five-by-five example: Black at (2, 2), then White at (2, 3). Each colour
    lists exactly its one stone, the black stone's liberties are its three
    other neighbours, and both stones have liberties.
   */
  method FiveByFive(zobrist: ZobristTable) returns (blacks: seq<Stone>, whites: seq<Stone>, liberties: seq<Stone>, blackFree: bool, whiteFree: bool)
    requires zobrist.WellFormed() && zobrist.n == 19
    ensures blacks == [Stone((2, 2), Black)]
    ensures whites == [Stone((2, 3), White)]
    ensures (set s | s in liberties) == {Stone((1, 2), None), Stone((3, 2), None), Stone((2, 1), None)}
    ensures |liberties| == 3
    ensures blackFree && whiteFree
  {
    var g := new Goban(5, zobrist);
    var _ := g.Push((2, 2), Black);
    var _ := g.Push((2, 3), White);
    assert g.tab[..] == seq(25, _ => None)[12 := Black][13 := White];
    assert ExampleBoard(g);
    ExampleStones(g);
    ExampleLiberties(g);
    ExampleHasLiberties(g);
    blacks := g.GetStonesByColor(Black);
    whites := g.GetStonesByColor(White);
    liberties := g.GetLiberties(Stone((2, 2), Black));
    blackFree := g.HasLiberties(Stone((2, 2), Black));
    whiteFree := g.HasLiberties(Stone((2, 3), White));
  }
}
