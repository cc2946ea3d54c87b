/**
  The small value types the board is built from: the tri-state colour of an
  intersection, a (row, column) coordinate and a stone (a coordinate with its
  colour). A stone whose colour is None stands for an empty intersection.
 */
module Stones {

  /** The state of one intersection. */
  datatype Color = None | Black | White

  /** A (row, column) pair; both components are unsigned. */
  type Coord = (nat, nat)

  /** A coordinate together with the colour found there. */
  datatype Stone = Stone(coordinates: Coord, color: Color)

  /**
    The numeric value of a colour when it is cast to a byte. The colour type
    itself lives in a file that is not part of this model; the ordering
    None, Black, White (0, 1, 2) is assumed here.
   */
  function Discriminant(c: Color): (d: nat)
    ensures d < 3
    ensures (d == 0) == (c == None)
  {
    match c
    case None => 0
    case Black => 1
    case White => 2
  }

  /** The stones of `ss` that satisfy `keep`. */
  function Filter(ss: seq<Stone>, keep: Stone -> bool): (r: seq<Stone>)
    ensures |r| <= |ss|
    ensures forall s :: s in r <==> s in ss && keep(s)
  {
    if ss == [] then []
    else if keep(ss[0]) then [ss[0]] + Filter(ss[1..], keep)
    else Filter(ss[1..], keep)
  }

  /** No two stones of `ss` share a coordinate. */
  predicate DistinctCoords(ss: seq<Stone>) {
    forall j, k | 0 <= j < k < |ss| :: ss[j].coordinates != ss[k].coordinates
  }

  /** Filtering keeps stones with distinct coordinates distinct. */
  lemma {:induction false} FilterKeepsDistinct(ss: seq<Stone>, keep: Stone -> bool)
    requires DistinctCoords(ss)
    ensures DistinctCoords(Filter(ss, keep))
  {
    if ss != [] {
      var rest := Filter(ss[1..], keep);
      FilterKeepsDistinct(ss[1..], keep);
      assert DistinctCoords(rest);
      forall s | s in rest ensures s.coordinates != ss[0].coordinates {
        var k :| 0 <= k < |ss[1..]| && ss[1..][k] == s;
        assert ss[k + 1] == s;
      }
      if keep(ss[0]) {
        var r := Filter(ss, keep);
        assert r == [ss[0]] + rest;
        forall j, k | 0 <= j < k < |r| ensures r[j].coordinates != r[k].coordinates {
          assert r[k] == rest[k - 1] && r[k] in rest;
          if j > 0 {
            assert r[j] == rest[j - 1];
          }
        }
      }
    }
  }

  /** Filtering with a condition every stone meets keeps the whole list. */
  lemma {:induction false} FilterAll(ss: seq<Stone>, keep: Stone -> bool)
    requires forall s | s in ss :: keep(s)
    ensures Filter(ss, keep) == ss
  {
    if ss != [] {
      assert forall s | s in ss[1..] :: s in ss;
      FilterAll(ss[1..], keep);
      assert ss == [ss[0]] + ss[1..];
    }
  }

  /** A list of stones with distinct coordinates has as many elements as its set of stones. */
  lemma {:induction false} DistinctCardinality(ss: seq<Stone>)
    requires DistinctCoords(ss)
    ensures |set s | s in ss| == |ss|
  {
    if ss != [] {
      var rest := ss[1..];
      assert DistinctCoords(rest) by {
        forall j, k | 0 <= j < k < |rest| ensures rest[j].coordinates != rest[k].coordinates {
          assert rest[j] == ss[j + 1] && rest[k] == ss[k + 1];
        }
      }
      DistinctCardinality(rest);
      assert ss[0] !in rest by {
        forall k | 0 <= k < |rest| ensures rest[k] != ss[0] {
          assert rest[k] == ss[k + 1];
        }
      }
      assert (set s | s in ss) == {ss[0]} + (set s | s in rest) by {
        assert ss == [ss[0]] + rest;
      }
    }
  }
}
