/**
 * `Chronomancer::MasterNodeKeeper`: one counter per id, raised when a keeper
 * starts tracking the id and lowered when a keeper's sweep drops it. The
 * counters live in an ordered map; `operator[]` creates a missing counter at
 * zero before changing it, and a counter is never removed.
 */
module MasterNodes {
  import opened Ordering

  /** The counter of `id` in `counts`, where a missing counter reads as zero. */
  function CountIn(counts: map<nat, int>, id: nat): int
  {
    if id in counts then counts[id] else 0
  }

  class MasterNodeKeeper {
    var activeNodes: map<nat, int>

    /** The value `activeNodes[id]` would read: zero for an id never counted. */
    function Count(id: nat): int
      reads this
    {
      CountIn(activeNodes, id)
    }

    constructor ()
      ensures activeNodes == map[]
    {
      activeNodes := map[];
    }

    /** `notifyAdded`: `++activeNodes[id]`. */
    method NotifyAdded(id: nat)
      modifies this
      ensures activeNodes == old(activeNodes)[id := old(Count(id)) + 1]
      ensures forall i :: Count(i) == old(Count(i)) + (if i == id then 1 else 0)
    {
      activeNodes := activeNodes[id := Count(id) + 1];
    }

    /** `notifyEroded`: `--activeNodes[id]`, with no floor at zero. */
    method NotifyEroded(id: nat)
      modifies this
      ensures activeNodes == old(activeNodes)[id := old(Count(id)) - 1]
      ensures forall i :: Count(i) == old(Count(i)) - (if i == id then 1 else 0)
    {
      activeNodes := activeNodes[id := Count(id) - 1];
    }

    /** `isActive`: the id has a counter and it is positive. */
    method IsActive(id: nat) returns (active: bool)
      ensures active <==> Count(id) > 0
    {
      active := id in activeNodes && activeNodes[id] > 0;
    }

    /** `getActives`: the ids whose counter is positive, in ascending order. */
    method GetActives() returns (ids: seq<nat>)
      ensures Ascending(ids)
      ensures forall id :: id in ids <==> Count(id) > 0
    {
      var counts := activeNodes;
      ids := [];
      var todo := counts.Keys;
      while todo != {}
        invariant todo <= counts.Keys
        invariant Ascending(ids)
        invariant forall x :: x in todo ==> Below(ids, x)
        invariant forall id :: id in ids <==> id in counts && id !in todo && counts[id] > 0
        decreases todo
      {
        LeastExists(todo);
        var id :| id in todo && forall x :: x in todo ==> id <= x;
        if counts[id] > 0 {
          assert Below(ids, id);
          ids := ids + [id];
        }
        todo := todo - {id};
      }
    }
  }
}
