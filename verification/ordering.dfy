/**
 * Ascending key order. `std::map` visits its keys from the smallest up; the
 * loops of the model do the same by repeatedly taking the least key that is
 * still to be visited.
 */
module Ordering {

  /** The least element of a non-empty finite set of ids. */
  ghost function Least(s: set<nat>): (m: nat)
    requires s != {}
    ensures m in s && forall x :: x in s ==> m <= x
    decreases |s|
  {
    var y :| y in s;
    var rest := s - {y};
    assert forall x :: x in s ==> x == y || x in rest;
    if rest == {} then y
    else
      var m := Least(rest);
      if y < m then y else m
  }

  /** The least element exists, so a loop may pick it with `:|`. */
  lemma LeastExists(s: set<nat>)
    requires s != {}
    ensures exists m :: m in s && forall x :: x in s ==> m <= x
  {
    var m := Least(s);
  }

  /** `ids` lists its elements in strictly ascending order (so without repeats). */
  ghost predicate Ascending(ids: seq<nat>)
  {
    forall i, j :: 0 <= i < j < |ids| ==> ids[i] < ids[j]
  }

  /** Every id listed in `ids` is smaller than `x`, so `x` may be appended keeping `ids` ascending. */
  ghost predicate Below(ids: seq<nat>, x: nat)
  {
    forall i :: 0 <= i < |ids| ==> ids[i] < x
  }
}
