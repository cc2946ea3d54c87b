# Go board with Zobrist hashing

This project models the board-state engine of a Go program in Dafny and
proves properties of the model. It covers two parts:

- **The `Goban`.** A square board of side `size`, stored row-major (cell
  `(r, c)` at index `r * size + c`) in three parallel vectors:
  - the colour grid `tab`;
  - the black occupancy bitset `b_stones`;
  - the white occupancy bitset `w_stones`.

  It also keeps a running 64-bit Zobrist hash.
- **The `ZobristTable`.** 361 rows of two 64-bit keys, one key per stone
  colour. The first `n * n` rows are drawn from a generator seeded with a
  constant.

`push` is the operation that changes a board consistently. It does three things:

1. It checks the point is on the board.
2. It updates the bitsets and XORs one key into the hash.
3. It writes the cell.

The public `IndexMut` implementation can also write a cell, without touching
the bitsets or the hash; the model keeps that write private to `push` (see
"## Left out").

Everything else reads the board: neighbour and liberty queries, stone
listings, the text renderer, and equality (which compares hashes).

Modules:

| file | module | what it holds |
|---|---|---|
| stones.dfy | `Stones` | `Color`, `Coord`, `Stone`; the colour's byte value; filtering of stone lists |
| coords.dfy | `Coords` | row-major `To`/`From` and their round trips; lexicographic order; orthogonal adjacency |
| words.dfy | `Words` | `u64` and bitwise XOR with its group laws, proved by induction |
| zobrist.dfy | `Zobrist` | the key table, its construction and its lookup |
| position.dfy | `Position` | the board as a value (`Snapshot`), `Placed` (one push as written), the from-scratch hash `HashOf`, the two board invariants and what one push or a run of pushes does to them |
| queries.dfy | `Queries` | neighbour lookup, index-order scans, the text rendering, on a grid given as a sequence |
| goban.dfy | `Board` | the `Goban` class, whose methods update its arrays in place and whose functions read them; the five-by-five example |

The class `Board.Goban` keeps `tab`, `bStones` and `wStones` as arrays and
`hash` as a mutable field. `State()` is its value view. The postconditions
of `Push`, `PushStone` and `PushMany` tie the new `State()` to
`Placed`/`PlacedAll` applied to the old one, so the lemmas in `Position`
carry over to the class. The constructor ensures `State() == Empty(size)`,
and `FromArray` ensures the resulting grid and `Coherent()`; both return
freshly allocated boards.

The board's two invariants are:

- `BitsetsAgree`: `b_stones[i]` holds iff `tab[i] == Black`, and `w_stones[i]`
  holds iff `tab[i] == White`.
- `HashAgrees`: `hash` equals the XOR of the keys of all occupied cells.

`Coherent()` on the class is the pair of them.

The source does not keep these invariants in every case. Putting a stone on
a cell that already holds the other colour leaves both bits set. It also
XORs in the new key without XORing out the old one. The model follows the
code here:

- `PlacedBitsets` and `PlacedOverStone` characterise exactly what goes wrong.
- `PlacedKeepsHash`, `PlacedAllCoherent` and the conditional postconditions
  of `Push`/`PushMany` state when the invariants are kept.

The key table is a constructor parameter of the board. The source wires a
global table built for `n = 19`; here the table comes in as a value.
Lookups use the table's own `n`, as in the source. The generator is the
parameter `rng: nat -> u64`, where `rng(k)` is the k-th value drawn after
seeding with the constant seed 172147124.

The code behaves as follows where a reader might expect otherwise:

- `from_array` on a length that is not a perfect square does not always
  fail. The side is the integer square root. Trailing entries beyond
  `side * side` are dropped silently when they are empty. Only a non-empty
  trailing entry makes the push fail, and the `expect` then panics.
  `Loadable` states exactly this.
- The key table is not sized to the board. It always has 361 rows and uses
  its own `n`, whatever the size of the board it serves.
- `pretty_string` produces the same text as `raw_string`. Its comment
  claims a different orientation, but its body is identical.

## Model

| member | source | states |
|---|---|---|
| Stones.Discriminant | src/pieces/zobrist.rs:32 | the byte value of a colour is below 3 and is 0 exactly for the empty colour |
| Stones.Filter | src/pieces/goban.rs:151 | filtering keeps exactly the stones that satisfy the condition and never lengthens the list |
| Stones.FilterKeepsDistinct | src/pieces/goban.rs:151 | filtering a list whose coordinates do not repeat gives a list whose coordinates do not repeat |
| Stones.FilterAll | src/pieces/goban.rs:191 | a filter every stone passes returns the list unchanged |
| Stones.DistinctCardinality | src/pieces/goban.rs:189-192 | a stone list without repeated coordinates has as many elements as its set of stones |
| Coords.To | src/pieces/goban.rs:272-280 | the row-major index of an on-board coordinate lies in [0, size*size) |
| Coords.From | src/pieces/goban.rs:164-166 | the coordinate of an index below size*size is on the board, and its column is always below the width |
| Coords.FromTo | src/pieces/goban.rs:272-280 | `from(to(c)) == c` for every on-board coordinate |
| Coords.ToFrom | src/pieces/goban.rs:164-166 | `to(from(i)) == i` for every index below size*size, and the coordinate is on the board |
| Coords.ToInjective | src/pieces/goban.rs:272-280 | distinct on-board coordinates address distinct cells |
| Coords.DivModUnique | src/pieces/goban.rs:164-166 | quotient and remainder are the unique pair with k == q*m + r and r < m |
| Coords.FromMonotone | src/pieces/goban.rs:158-168 | ascending indices give coordinates in ascending row-then-column order |
| Coords.NeighborCoords | src/pieces/goban.rs:137 | the candidates are exactly the orthogonal neighbours with unsigned components (2 to 4 of them), none repeated |
| Words.XorIsBitwise | src/pieces/goban.rs:102-104 | bit k of `a ^ b` is set exactly when bit k is set in one operand and not the other |
| Words.XorBit | src/pieces/goban.rs:102-104 | the recursive definition of XOR computes the bitwise exclusive or, for every bit position |
| Words.XorNatBelow | src/pieces/zobrist.rs:11 | the XOR of two numbers below 2^k is below 2^k, so 64-bit words stay 64-bit words |
| Words.XorZero | src/pieces/goban.rs:54 | XOR with 0 leaves a word unchanged (the empty board's hash is the neutral value) |
| Words.XorSelf | src/pieces/goban.rs:101-105 | XORing a word with itself gives 0, so XORing a key twice removes it |
| Words.XorComm | src/pieces/goban.rs:101-105 | XOR is commutative, so the order of placements does not affect the hash |
| Words.XorAssoc | src/pieces/goban.rs:101-105 | XOR is associative |
| Zobrist.Column | src/pieces/zobrist.rs:32 | the key column of a stone colour is its byte value minus one: Black column 0, White column 1, both below 2; the empty colour has none |
| Zobrist.NewTable | src/pieces/zobrist.rs:16-25 | for n <= 19 the table has 361 rows of 2 keys, entry (i, j) for i < n*n is the (2i+j)-th draw, and every later row is [0, 0] |
| Zobrist.Deterministic | src/pieces/zobrist.rs:7-25 | two tables built for the same n from the same seeded stream are identical |
| Zobrist.KeyIsDrawn | src/pieces/zobrist.rs:31-33 | the lookup for an on-grid point and a stone colour reads row x.0*n + x.1, which exists, and yields the draw for that row and colour |
| Zobrist.DistinctDraws | src/pieces/zobrist.rs:19-23 | distinct (point, colour) pairs of the grid get their keys from distinct draws |
| Position.Empty | src/pieces/goban.rs:48-54 | a new board has size*size cells in the grid and in both bitsets |
| Position.Placed | src/pieces/goban.rs:86-106 | an on-board push writes the colour to the addressed cell and leaves every other cell of the grid and of both bitsets unchanged |
| Position.XorAllUpdate | src/pieces/goban.rs:101-105 | replacing one word of an XOR aggregate XORs the old word out and the new word in |
| Position.XorAllZeros | src/pieces/goban.rs:54 | an XOR aggregate of zeros is 0 |
| Position.HashOfUpdate | src/pieces/goban.rs:101-106 | changing one cell changes the from-scratch hash by XORing out the old cell's key and XORing in the new one |
| Position.EmptyIsCoherent | src/pieces/goban.rs:46-56 | a new board is all empty, its bitsets agree with its grid, and its hash 0 is the from-scratch hash |
| Position.PlacedBitsets | src/pieces/goban.rs:89-100 | a push keeps the bitsets in agreement iff the cell was empty, the colour is None, or the cell already held that colour; overwriting with the other colour leaves both bits set |
| Position.PlacedKeepsHash | src/pieces/goban.rs:101-105 | placing a stone on an empty cell, or clearing an occupied one, keeps hash == HashOf(grid) |
| Position.PlacedOverStone | src/pieces/goban.rs:101-106 | placing a stone on an occupied cell leaves the hash off from the from-scratch hash by exactly the old occupant's key |
| Position.PlaceThenClear | src/pieces/goban.rs:89-106 | on an empty cell, placing a stone and then clearing it restores grid, both bitsets and hash exactly |
| Position.PlacedAll | src/pieces/goban.rs:120-125 | a run of pushes keeps the board's shape |
| Position.PlacedAllContents | src/pieces/goban.rs:120-125 | after pushing one colour at a list of points, exactly the addressed cells hold that colour and all others are unchanged |
| Position.PlacedAllCoherent | src/pieces/goban.rs:120-125 | a run of pushes that only clears, or that places one colour on distinct empty cells, keeps both invariants |
| Queries.LocatedMembers | src/pieces/goban.rs:136-144 | a stone is located iff its coordinate is a candidate on the board and its colour is the one stored there |
| Queries.LocatedDistinct | src/pieces/goban.rs:136-144 | candidates without repeats give stones without repeated coordinates |
| Queries.NeighborCount | src/pieces/goban.rs:136-144 | an on-board cell has 4 minus (sides falling off the board) neighbours: 2 in a corner, 3 on an edge, 4 inside |
| Queries.LocatedAppend | src/pieces/goban.rs:137-139 | locating a concatenation is concatenating the located parts |
| Queries.ScanMembers | src/pieces/goban.rs:158-183 | a scan lists exactly the on-board cells at or after its start whose colour passes the filter, each with its colour |
| Queries.ScanSorted | src/pieces/goban.rs:158-183 | a scan lists stones in strictly ascending row-major order |
| Queries.AscendingSingleton | src/pieces/goban.rs:174-183 | an ascending listing whose only member is x is exactly [x] |
| Queries.Line | src/pieces/goban.rs:216-223 | a rendered row has size+1 characters: the symbol of each of its cells, then a newline |
| Queries.RenderingLength | src/pieces/goban.rs:213-226 | m rendered rows have m*(size+1) characters |
| Queries.RenderingAt | src/pieces/goban.rs:213-226 | character j of rendered line i sits at i*(size+1)+j and is the symbol of cell (i, j), or the newline when j == size |
| Board.Isqrt | src/pieces/goban.rs:62 | the side computed from the input length is the largest r with r*r <= length |
| Board.Goban.constructor | src/pieces/goban.rs:46-56 | a new board of side size: all cells None, both bitsets clear, hash 0, and coherent |
| Board.Goban.CoordValid | src/pieces/goban.rs:250-252 | a coordinate is valid iff both components are below size, and a valid coordinate addresses its own cell |
| Board.Goban.At | src/pieces/goban.rs:272-274 | reading a valid coordinate returns the colour its row-major cell holds |
| Board.Goban.Push | src/pieces/goban.rs:86-114 | off-board: error naming the point, nothing changes; on-board: the board becomes `Placed(old board)`; a stone on an empty cell or a clear keeps the board coherent |
| Board.Goban.PushStone | src/pieces/goban.rs:128-130 | the same as pushing the stone's colour at the stone's coordinates |
| Board.Goban.PushMany | src/pieces/goban.rs:120-125 | the board becomes `PlacedAll(old board)`: the addressed cells hold the colour, the others are unchanged, and coherence is kept for a clearing run or for distinct empty targets |
| Board.Goban.FromArray | src/pieces/goban.rs:61-79 | the board has side isqrt(length), its grid is the first side*side input colours, and it is coherent |
| Board.Goban.GetNeighbors | src/pieces/goban.rs:136-144 | yields exactly the on-board orthogonal neighbours, each with its current colour, without repeats: 2, 3 or 4 of them by position |
| Board.Goban.GetNeighborsStones | src/pieces/goban.rs:150-152 | yields exactly the occupied on-board neighbours with their colours, without repeats |
| Board.Goban.GetLiberties | src/pieces/goban.rs:189-192 | yields exactly the empty on-board neighbours of the stone's point, without repeats |
| Board.Goban.GetNbLiberties | src/pieces/goban.rs:198-200 | the liberty count is at most 4, and it is 0 iff every on-board neighbour is occupied |
| Board.Goban.HasLiberties | src/pieces/goban.rs:206-208 | true iff the liberty count is positive, iff some on-board neighbour is empty |
| Board.Goban.GetStones | src/pieces/goban.rs:158-168 | lists exactly the occupied cells with their colours, in ascending row-major order |
| Board.Goban.GetStonesByColor | src/pieces/goban.rs:174-183 | lists exactly the cells holding the given colour, in ascending row-major order |
| Board.Goban.EmptyAround | src/pieces/goban.rs:189-200 | with no other stone on the board, a stone's liberties are all its neighbours, its liberty count is the neighbour count, and an empty board lists no stones |
| Board.Goban.Equals | src/pieces/goban.rs:261-265 | two coherent boards with the same key table and the same grid compare equal |
| Board.Goban.RawString | src/pieces/goban.rs:213-226 | the text is `Rendering` of all rows: size lines, each of size symbols followed by a newline, size*(size+1) characters in all |
| Board.Goban.PrettyString | src/pieces/goban.rs:231-244 | exactly the same text as `RawString` |
| Board.ExampleStones | src/pieces/goban.rs:174-183 | on the 5x5 example, Black lists only (2,2) and White lists only (2,3) |
| Board.ExampleLiberties | src/pieces/goban.rs:189-192 | on the 5x5 example, the black stone's liberties are exactly (1,2), (3,2) and (2,1) |
| Board.ExampleHasLiberties | src/pieces/goban.rs:206-208 | on the 5x5 example, both stones have liberties |
| Board.FiveByFive | src/pieces/goban.rs:86-114 | pushing Black at (2,2) and then White at (2,3) on a new 5x5 board gives those listings, three black liberties, and liberties for both stones |

## Left out

- The generator internals (`XorShiftRng`). The stream of values drawn after seeding is the parameter `rng`.
- The global `lazy_static!` table and its thread-safe one-time initialisation. The board takes the table as a constructor argument.
- The floating-point square root in `from_array`. The model uses the exact integer square root, which is what the `f32` square root gives for the board sizes the program uses.
- The `Order` argument of `from_array` and the non-row-major orders of `CoordUtil`. `src/pieces/util/coord.rs` is not part of this model, and only the row-major mapping the board itself uses is modelled.
- The order in which `neighbors_coords` lists candidates, and how it treats a side below zero. `neighbors_coords` is not part of this model. Here the candidates are above, below, left, right, without sides below zero, and every contract is independent of their order.
- The symbols `WHITE_STONE`, `BLACK_STONE` and `EMPTY_STONE`. They are defined in `src/pieces/stones.rs`, which is not part of this model, so the renderer takes the symbol of each colour as the parameter `glyph`.
- `Display::fmt`: it only writes `pretty_string` to a formatter.
- The derived `Clone`, `Debug`, getters and setters, and `Default` (a 19x19 board). The generated `set_tab`/`set_size` would bypass the bitset and hash maintenance.
- `IndexMut` for `Goban` (src/pieces/goban.rs:277-280): the model has no member for it and uses the cell write only inside `Push`. It does not capture that any caller can overwrite a cell through it, leaving the bitsets and the hash stale.
- The text of `push`'s error message. The error value carries the point it names.
- The laziness of the iterator-returning queries. Each query returns the finished sequence for the board at call time.
- Panics become preconditions:
  - `push` panics on a key row beyond 361 and on clearing an empty cell (no key slot for the empty colour); this is `CanPlace`.
  - `push_many` panics on an off-board point (`CanPlaceAll`).
  - `from_array` panics on a non-empty entry beyond side*side (`Loadable`).
  - `ZobristTable::new` panics for n > 19.
- Stones.Discriminant: assumes the byte values None = 0, Black = 1, White = 2. The declaration of `Color` is in `src/pieces/stones.rs`, which is not part of this model.
- Board.Goban.GetNbLiberties: returns an unbounded natural instead of a `u8`. The count is at most 4, so the `as u8` cast never truncates.
- Board.Goban.Equals: states only that coherent boards with equal grids and keys compare equal. The converse is false under hash collisions. That equality is decided by the hashes alone is the function's definition.
- Board.Goban.PushStone: states the new board and the result, but does not restate the coherence postcondition of `Push`, which it calls.
