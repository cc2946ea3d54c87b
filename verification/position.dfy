/**
  Value-level view of a board of side `size`: its four per-cell structures
  (the colour grid, the black and white occupancy bitsets, and the running
  hash), what one placement does to them, the from-scratch hash they should
  agree with, and the conditions under which a placement keeps them coherent.
  The Goban class is specified in terms of these definitions.
 */
module Position {
  import opened Stones
  import Coords
  import opened Zobrist
  import opened Words

  /** The grid (row-major), the two occupancy bitsets and the running hash. */
  datatype Snapshot = Snapshot(tab: seq<Color>, bStones: seq<bool>, wStones: seq<bool>, hash: u64)

  /** All three per-cell structures have size*size entries. */
  ghost predicate WellSized(size: nat, s: Snapshot) {
    |s.tab| == size * size && |s.bStones| == size * size && |s.wStones| == size * size
  }

  /** The colour at a valid coordinate. */
  ghost function Cell(size: nat, s: Snapshot, p: Coord): Color
    requires WellSized(size, s) && Coords.InBounds(size, p)
  {
    s.tab[Coords.To(size, p)]
  }

  /** The board a fresh `new(size)` holds: all empty, both bitsets clear, hash 0. */
  ghost function Empty(size: nat): (s: Snapshot)
    ensures WellSized(size, s)
  {
    Snapshot(seq(size * size, _ => None), seq(size * size, _ => false), seq(size * size, _ => false), 0)
  }

  /** Bitset invariant: a cell is black-occupied iff it is Black, white-occupied iff it is White. */
  ghost predicate BitsetsAgree(s: Snapshot) {
    && |s.bStones| == |s.tab|
    && |s.wStones| == |s.tab|
    && forall i | 0 <= i < |s.tab| :: (s.bStones[i] <==> s.tab[i] == Black) && (s.wStones[i] <==> s.tab[i] == White)
  }

  /** Every occupied cell has a key row in the table. */
  ghost predicate Keyed(keys: ZobristTable, size: nat, cells: seq<Color>) {
    && |cells| == size * size
    && forall i | 0 <= i < |cells| && cells[i] != None :: keys.Row(Coords.From(size, i)) < ROWS
  }

  /** The key a cell contributes to the hash: none when empty. */
  ghost function Contribution(keys: ZobristTable, size: nat, i: nat, c: Color): u64
    requires keys.WellFormed() && size > 0
    requires c != None ==> keys.Row(Coords.From(size, i)) < ROWS
  {
    if c == None then 0 else keys.Key(Coords.From(size, i), c)
  }

  /** XOR of all the words of `xs`. */
  ghost function XorAll(xs: seq<u64>): u64 {
    if xs == [] then 0 else Xor(XorAll(xs[..|xs| - 1]), xs[|xs| - 1])
  }

  /** Replacing one word of an XOR aggregate XORs the old word out and the new one in. */
  lemma {:induction false} XorAllUpdate(xs: seq<u64>, i: nat, v: u64)
    requires i < |xs|
    ensures XorAll(xs[i := v]) == Xor(Xor(XorAll(xs), xs[i]), v)
  {
    var n := |xs|;
    var front := xs[..n - 1];
    var f, last := XorAll(front), xs[n - 1];
    if i == n - 1 {
      assert xs[i := v][..n - 1] == front;
      XorAssoc(f, last, last);
      XorSelf(last);
      XorZero(f);
    } else {
      assert xs[i := v][..n - 1] == front[i := v];
      XorAllUpdate(front, i, v);
      var g := Xor(f, xs[i]);
      XorAssoc(g, v, last);
      XorComm(v, last);
      XorAssoc(g, last, v);
      XorAssoc(f, xs[i], last);
      XorComm(xs[i], last);
      XorAssoc(f, last, xs[i]);
    }
  }

  /** An aggregate of zeros is zero. */
  lemma {:induction false} XorAllZeros(xs: seq<u64>)
    requires forall k | 0 <= k < |xs| :: xs[k] == 0
    ensures XorAll(xs) == 0
  {
    if xs != [] {
      XorAllZeros(xs[..|xs| - 1]);
      XorZero(0);
    }
  }

  /** The contribution of every cell, in index order. */
  ghost function Contributions(keys: ZobristTable, size: nat, cells: seq<Color>): (cs: seq<u64>)
    requires keys.WellFormed() && Keyed(keys, size, cells)
    ensures |cs| == |cells|
  {
    seq(|cells|, j requires 0 <= j < |cells| => Contribution(keys, size, j, cells[j]))
  }

  /** The from-scratch hash: XOR of the key of every occupied cell. */
  ghost function HashOf(keys: ZobristTable, size: nat, cells: seq<Color>): u64
    requires keys.WellFormed() && Keyed(keys, size, cells)
  {
    XorAll(Contributions(keys, size, cells))
  }

  /** Hash invariant: the running hash equals the from-scratch hash. */
  ghost predicate HashAgrees(keys: ZobristTable, size: nat, s: Snapshot)
    requires keys.WellFormed()
  {
    Keyed(keys, size, s.tab) && s.hash == HashOf(keys, size, s.tab)
  }

  /**
    What push needs so that it does not panic: an in-bounds point must have a
    key row, and clearing must hit an occupied cell (the empty colour has no key).
   */
  ghost predicate CanPlace(keys: ZobristTable, size: nat, s: Snapshot, p: Coord, color: Color)
    requires WellSized(size, s)
  {
    Coords.InBounds(size, p) ==>
      && keys.Row(p) < ROWS
      && (color == None ==> Cell(size, s, p) != None)
  }

  /**
    An in-bounds push as the source writes it: Black sets the black bit, White
    the white bit, None clears both; the hash takes the key of the new colour,
    or, when clearing, the key of the colour that was there; then the cell is written.
   */
  ghost function Placed(keys: ZobristTable, size: nat, s: Snapshot, p: Coord, color: Color): (r: Snapshot)
    requires keys.WellFormed() && WellSized(size, s)
    requires Coords.InBounds(size, p) && CanPlace(keys, size, s, p, color)
    ensures WellSized(size, r)
    ensures r.tab[Coords.To(size, p)] == color
    ensures forall j | 0 <= j < size * size && j != Coords.To(size, p) ::
      r.tab[j] == s.tab[j] && r.bStones[j] == s.bStones[j] && r.wStones[j] == s.wStones[j]
  {
    var i := Coords.To(size, p);
    var b := match color
      case Black => s.bStones[i := true]
      case White => s.bStones
      case None => s.bStones[i := false];
    var w := match color
      case Black => s.wStones
      case White => s.wStones[i := true]
      case None => s.wStones[i := false];
    var h := if color == None then Xor(s.hash, keys.Key(p, s.tab[i])) else Xor(s.hash, keys.Key(p, color));
    Snapshot(s.tab[i := color], b, w, h)
  }

  /** Changing one cell changes the from-scratch hash by its old and its new contribution. */
  lemma HashOfUpdate(keys: ZobristTable, size: nat, cells: seq<Color>, i: nat, c: Color)
    requires keys.WellFormed() && i < |cells|
    requires Keyed(keys, size, cells) && Keyed(keys, size, cells[i := c])
    ensures size > 0
    ensures HashOf(keys, size, cells[i := c]) ==
      Xor(Xor(HashOf(keys, size, cells), Contribution(keys, size, i, cells[i])), Contribution(keys, size, i, c))
  {
    var xs := Contributions(keys, size, cells);
    assert Contributions(keys, size, cells[i := c]) == xs[i := Contribution(keys, size, i, c)];
    XorAllUpdate(xs, i, Contribution(keys, size, i, c));
  }

  /** A new board satisfies both invariants, with hash 0. */
  lemma EmptyIsCoherent(keys: ZobristTable, size: nat)
    requires keys.WellFormed()
    ensures forall i | 0 <= i < size * size :: Empty(size).tab[i] == None
    ensures BitsetsAgree(Empty(size))
    ensures HashAgrees(keys, size, Empty(size)) && HashOf(keys, size, Empty(size).tab) == 0
  {
    XorAllZeros(Contributions(keys, size, Empty(size).tab));
  }

  /**
    Placing keeps the bitset invariant exactly when the cell was empty, the
    new colour is None, or the cell already held that colour. Overwriting a
    stone with the other colour leaves both bits set.
   */
  lemma PlacedBitsets(keys: ZobristTable, size: nat, s: Snapshot, p: Coord, color: Color)
    requires keys.WellFormed() && WellSized(size, s) && BitsetsAgree(s)
    requires Coords.InBounds(size, p) && CanPlace(keys, size, s, p, color)
    ensures BitsetsAgree(Placed(keys, size, s, p, color)) <==>
      (Cell(size, s, p) == None || color == None || color == Cell(size, s, p))
    ensures Cell(size, s, p) != None && color != None && color != Cell(size, s, p) ==>
      var r := Placed(keys, size, s, p, color);
      r.bStones[Coords.To(size, p)] && r.wStones[Coords.To(size, p)]
  {
    var i := Coords.To(size, p);
    var r := Placed(keys, size, s, p, color);
    if Cell(size, s, p) != None && color != None && color != Cell(size, s, p) {
      assert r.bStones[i] && r.wStones[i];
    }
  }

  /**
    Placing a stone on an empty cell XORs its key in, and clearing an occupied
    cell XORs the old occupant's key out: both keep the hash invariant.
   */
  lemma {:induction false} PlacedKeepsHash(keys: ZobristTable, size: nat, s: Snapshot, p: Coord, color: Color)
    requires keys.WellFormed() && WellSized(size, s) && HashAgrees(keys, size, s)
    requires Coords.InBounds(size, p) && CanPlace(keys, size, s, p, color)
    requires Cell(size, s, p) == None || color == None
    ensures HashAgrees(keys, size, Placed(keys, size, s, p, color))
  {
    var i := Coords.To(size, p);
    Coords.FromTo(size, p);
    var r := Placed(keys, size, s, p, color);
    assert r.tab == s.tab[i := color];
    HashOfUpdate(keys, size, s.tab, i, color);
    var old_key := Contribution(keys, size, i, s.tab[i]);
    var new_key := Contribution(keys, size, i, color);
    if color == None {
      assert r.hash == Xor(s.hash, old_key);
      XorZero(Xor(s.hash, old_key));
    } else {
      assert r.hash == Xor(s.hash, new_key) && old_key == 0;
      XorZero(s.hash);
    }
  }

  /**
    Placing a stone on an occupied cell does not XOR out the old occupant's
    key: afterwards the running hash differs from the from-scratch hash by
    exactly that stale key.
   */
  lemma {:induction false} PlacedOverStone(keys: ZobristTable, size: nat, s: Snapshot, p: Coord, color: Color)
    requires keys.WellFormed() && WellSized(size, s) && HashAgrees(keys, size, s)
    requires Coords.InBounds(size, p) && CanPlace(keys, size, s, p, color)
    requires Cell(size, s, p) != None && color != None
    ensures Keyed(keys, size, Placed(keys, size, s, p, color).tab)
    ensures Placed(keys, size, s, p, color).hash ==
      Xor(HashOf(keys, size, Placed(keys, size, s, p, color).tab), keys.Key(p, Cell(size, s, p)))
  {
    var i := Coords.To(size, p);
    Coords.FromTo(size, p);
    var r := Placed(keys, size, s, p, color);
    assert r.tab == s.tab[i := color];
    HashOfUpdate(keys, size, s.tab, i, color);
    var old_key, new_key := keys.Key(p, s.tab[i]), keys.Key(p, color);
    assert r.hash == Xor(s.hash, new_key);
    var a := Xor(s.hash, old_key);
    XorAssoc(a, new_key, old_key);
    XorComm(new_key, old_key);
    XorAssoc(a, old_key, new_key);
    XorAssoc(s.hash, old_key, old_key);
    XorSelf(old_key);
    XorZero(s.hash);
  }

  /** Placing a stone on an empty cell and then clearing it restores grid, bitsets and hash exactly. */
  lemma PlaceThenClear(keys: ZobristTable, size: nat, s: Snapshot, p: Coord, color: Color)
    requires keys.WellFormed() && WellSized(size, s) && BitsetsAgree(s)
    requires Coords.InBounds(size, p) && CanPlace(keys, size, s, p, color)
    requires Cell(size, s, p) == None && color != None
    ensures CanPlace(keys, size, Placed(keys, size, s, p, color), p, None)
    ensures Placed(keys, size, Placed(keys, size, s, p, color), p, None) == s
  {
    var i := Coords.To(size, p);
    var r := Placed(keys, size, s, p, color);
    var t := Placed(keys, size, r, p, None);
    assert t.tab == s.tab;
    assert t.bStones == s.bStones;
    assert t.wStones == s.wStones;
    var key := keys.Key(p, color);
    assert t.hash == Xor(Xor(s.hash, key), key);
    XorAssoc(s.hash, key, key);
    XorSelf(key);
    XorZero(s.hash);
  }

  /** Every push of a sequence is in bounds and does not panic. */
  ghost predicate CanPlaceAll(keys: ZobristTable, size: nat, s: Snapshot, coords: seq<Coord>, color: Color)
    requires keys.WellFormed() && WellSized(size, s)
    decreases |coords|
  {
    coords != [] ==>
      && Coords.InBounds(size, coords[0])
      && CanPlace(keys, size, s, coords[0], color)
      && CanPlaceAll(keys, size, Placed(keys, size, s, coords[0], color), coords[1..], color)
  }

  /** The result of pushing `color` at each coordinate in turn. */
  ghost function PlacedAll(keys: ZobristTable, size: nat, s: Snapshot, coords: seq<Coord>, color: Color): (r: Snapshot)
    requires keys.WellFormed() && WellSized(size, s) && CanPlaceAll(keys, size, s, coords, color)
    ensures WellSized(size, r)
    decreases |coords|
  {
    if coords == [] then s
    else PlacedAll(keys, size, Placed(keys, size, s, coords[0], color), coords[1..], color)
  }

  /** The linear indices a list of coordinates addresses. */
  ghost function Targets(size: nat, coords: seq<Coord>): set<nat> {
    set c | c in coords :: Coords.To(size, c)
  }

  /** After a sequence of pushes of one colour, exactly the addressed cells hold it. */
  lemma {:induction false} PlacedAllContents(keys: ZobristTable, size: nat, s: Snapshot, coords: seq<Coord>, color: Color)
    requires keys.WellFormed() && WellSized(size, s) && CanPlaceAll(keys, size, s, coords, color)
    ensures forall j | 0 <= j < size * size ::
      PlacedAll(keys, size, s, coords, color).tab[j] == if j in Targets(size, coords) then color else s.tab[j]
    decreases |coords|
  {
    if coords != [] {
      var s' := Placed(keys, size, s, coords[0], color);
      PlacedAllContents(keys, size, s', coords[1..], color);
      assert Targets(size, coords) == {Coords.To(size, coords[0])} + Targets(size, coords[1..]) by {
        assert coords == [coords[0]] + coords[1..];
      }
    }
  }

  /** Every coordinate of `coords` is in bounds and empty in `s`, and no coordinate repeats. */
  ghost predicate FreshTargets(size: nat, s: Snapshot, coords: seq<Coord>)
    requires WellSized(size, s)
  {
    && (forall c | c in coords :: Coords.InBounds(size, c) && Cell(size, s, c) == None)
    && (forall j, k | 0 <= j < k < |coords| :: coords[j] != coords[k])
  }

  /**
    A sequence of pushes keeps both invariants when it only clears, or when it
    places one stone colour on distinct cells that were all empty.
   */
  lemma {:induction false} PlacedAllCoherent(keys: ZobristTable, size: nat, s: Snapshot, coords: seq<Coord>, color: Color)
    requires keys.WellFormed() && WellSized(size, s) && CanPlaceAll(keys, size, s, coords, color)
    requires BitsetsAgree(s) && HashAgrees(keys, size, s)
    requires color == None || FreshTargets(size, s, coords)
    ensures BitsetsAgree(PlacedAll(keys, size, s, coords, color))
    ensures HashAgrees(keys, size, PlacedAll(keys, size, s, coords, color))
    decreases |coords|
  {
    if coords != [] {
      var p := coords[0];
      var s' := Placed(keys, size, s, p, color);
      PlacedBitsets(keys, size, s, p, color);
      PlacedKeepsHash(keys, size, s, p, color);
      if color != None {
        forall c | c in coords[1..] ensures Coords.InBounds(size, c) && Cell(size, s', c) == None {
          var k :| 1 <= k < |coords| && coords[k] == c;
          Coords.ToInjective(size, p, c);
        }
      }
      PlacedAllCoherent(keys, size, s', coords[1..], color);
    }
  }
}
