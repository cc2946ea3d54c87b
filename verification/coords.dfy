/**
  The row-major coordinate mapping: a (row, column) coordinate on a grid that
  is `width` columns wide is stored at linear index `row * width + column`.
  The board uses it with its own size, and the key table uses it with the
  dimension the table was built for.
 */
module Coords {
  import opened Stones

  /** Both components are below `width`. */
  predicate InBounds(width: nat, p: Coord) {
    p.0 < width && p.1 < width
  }

  /** Row-major position of `p`; valid coordinates land in [0, width*width). */
  function To(width: nat, p: Coord): (i: nat)
    ensures InBounds(width, p) ==> i < width * width
  {
    RowMajorBound(width, p.0, p.1);
    p.0 * width + p.1
  }

  /** The coordinate stored at linear index `i`; indices below width*width give valid coordinates. */
  function From(width: nat, i: nat): (p: Coord)
    requires width > 0
    ensures p.1 < width
    ensures i < width * width ==> InBounds(width, p)
  {
    QuotientBound(width, i);
    (i / width, i % width)
  }

  /** Lexicographic order on coordinates: row first, then column. */
  predicate Before(p: Coord, q: Coord) {
    p.0 < q.0 || (p.0 == q.0 && p.1 < q.1)
  }

  lemma {:induction false} MulMonotone(a: nat, b: nat, c: nat)
    ensures a <= b ==> a * c <= b * c
  {
    if c > 0 {
      MulMonotone(a, b, c - 1);
      assert a * c == a * (c - 1) + a && b * c == b * (c - 1) + b;
    }
  }

  lemma RowMajorBound(width: nat, r: nat, c: nat)
    ensures r < width && c < width ==> r * width + c < width * width
  {
    MulMonotone(r + 1, width, width);
    assert (r + 1) * width == r * width + width;
  }

  lemma QuotientBound(width: nat, i: nat)
    requires width > 0
    ensures i < width * width ==> i / width < width
  {
    var q := i / width;
    assert i == q * width + i % width;
    MulMonotone(width, q, width);
  }

  /** Quotient and remainder are the unique pair with k == q * m + r and r < m. */
  lemma DivModUnique(k: nat, m: nat, q: nat, r: nat)
    requires r < m && k == q * m + r
    ensures k / m == q && k % m == r
  {
    var q', r' := k / m, k % m;
    assert k == q' * m + r';
    MulMonotone(q' + 1, q, m);
    MulMonotone(q + 1, q', m);
    assert (q' + 1) * m == q' * m + m;
    assert (q + 1) * m == q * m + m;
  }

  /** Round trip from coordinates: `from(to(p)) == p` for every valid coordinate. */
  lemma FromTo(width: nat, p: Coord)
    requires InBounds(width, p)
    ensures To(width, p) < width * width
    ensures From(width, To(width, p)) == p
  {
    DivModUnique(To(width, p), width, p.0, p.1);
  }

  /** Round trip from indices: `to(from(i)) == i` for every index below width*width. */
  lemma ToFrom(width: nat, i: nat)
    requires i < width * width
    ensures width > 0 && InBounds(width, From(width, i))
    ensures To(width, From(width, i)) == i
  {
  }

  /** Distinct valid coordinates occupy distinct linear positions. */
  lemma ToInjective(width: nat, p: Coord, q: Coord)
    requires InBounds(width, p) && InBounds(width, q) && p != q
    ensures To(width, p) != To(width, q)
  {
    FromTo(width, p);
    FromTo(width, q);
  }

  /** Ascending linear indices visit coordinates in row-major (lexicographic) order. */
  lemma FromMonotone(width: nat, i: nat, j: nat)
    requires width > 0 && i < j
    ensures Before(From(width, i), From(width, j))
  {
    var qi, ri, qj, rj := i / width, i % width, j / width, j % width;
    assert i == qi * width + ri && j == qj * width + rj;
    MulMonotone(qj + 1, qi, width);
    assert (qj + 1) * width == qj * width + width;
  }

  /** `p` and `q` are orthogonal neighbours: they differ by one in exactly one component. */
  predicate Adjacent(p: Coord, q: Coord) {
    || (p.0 == q.0 && (p.1 + 1 == q.1 || q.1 + 1 == p.1))
    || (p.1 == q.1 && (p.0 + 1 == q.0 || q.0 + 1 == p.0))
  }

  /**
    The orthogonal neighbours of `c` that have unsigned components: above,
    below, left, right, skipping a side that would go below zero.
   */
  function NeighborCoords(c: Coord): (cs: seq<Coord>)
    ensures 2 <= |cs| <= 4
    ensures forall q :: q in cs <==> Adjacent(c, q)
    ensures forall j, k | 0 <= j < k < |cs| :: cs[j] != cs[k]
  {
    (if c.0 > 0 then [(c.0 - 1, c.1)] else [])
      + [(c.0 + 1, c.1)]
      + (if c.1 > 0 then [(c.0, c.1 - 1)] else [])
      + [(c.0, c.1 + 1)]
  }
}
