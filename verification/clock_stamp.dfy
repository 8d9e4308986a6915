/**
 * The addon's global state and its five exported calls: a map from node id
 * to that node's ClockKeeper, and the one MasterNodeKeeper all keepers report
 * to. The invariant `Valid()` says that the master's counter of an id is the
 * number of nodes whose keeper currently tracks it, so asking the master
 * whether an id is active is the same as asking every node.
 */
module Bindings {
  import opened Ordering
  import opened ClockSpec
  import opened MasterNodes
  import opened ClockKeeping

  /**
   * A set that changes at most in the one element `n` changes size by the
   * change in membership of `n`.
   */
  lemma CountStep(before: set<nat>, after: set<nat>, n: nat)
    requires forall m :: m != n ==> (m in after <==> m in before)
    ensures |after| == |before| - (if n in before then 1 else 0) + (if n in after then 1 else 0)
  {
    var rest := before - {n};
    if n in after {
      assert after == rest + {n};
    } else {
      assert after == rest;
    }
    if n in before {
      assert before == rest + {n};
    } else {
      assert before == rest;
    }
  }

  class ClockStamp {
    var keeper: map<nat, ClockKeeper>  // the global `keeper`
    const master: MasterNodeKeeper     // the global `master`

    /** The nodes whose keeper currently tracks `id`. */
    ghost function Holders(id: nat): set<nat>
      reads this, keeper.Values
    {
      set n | n in keeper && id in keeper[n].clocks
    }

    ghost predicate Valid()
      reads this, master, keeper.Values
    {
      && (forall n :: n in keeper ==> keeper[n].master == master && keeper[n].Valid())
      && (forall n, m :: n in keeper && m in keeper && n != m ==> keeper[n] != keeper[m])
      && (forall i :: master.Count(i) == |Holders(i)|)
    }

    /** The addon as loaded: no node seen yet, no counter. */
    constructor ()
      ensures keeper == map[] && Valid()
    {
      keeper := map[];
      master := new MasterNodeKeeper();
      new;
      assert forall i :: Holders(i) == {};
    }

    /** The state of the keeper of `nodeId`; a node never refreshed has none, which reads as Empty. */
    ghost function StateOf(nodeId: nat): Keeper
      reads this, keeper.Values
    {
      if nodeId in keeper then keeper[nodeId].State() else Empty
    }

    /**
     * `keeper.find(nodeId)`, and when that fails `keeper.emplace(nodeId, &master)`:
     * the node gets an empty keeper if it had none.
     */
    method KeeperOf(nodeId: nat) returns (k: ClockKeeper)
      requires Valid()
      modifies this
      ensures Valid()
      ensures keeper == old(keeper)[nodeId := k]
      ensures k.State() == old(StateOf(nodeId))
      ensures nodeId in old(keeper) ==> k == old(keeper)[nodeId]
      ensures nodeId !in old(keeper) ==> fresh(k)
      ensures forall n :: n in old(keeper) && n != nodeId ==> keeper[n].State() == old(keeper[n].State())
    {
      if nodeId in keeper {
        k := keeper[nodeId];
      } else {
        k := new ClockKeeper(master);
        keeper := keeper[nodeId := k];
        assert forall i :: Holders(i) == old(Holders(i));
      }
    }

    /**
     * `refresh(nodeId, clockId)`: refresh `clockId` on the keeper of `nodeId`,
     * creating that keeper first when the node is new. No other node changes,
     * and the counters stay equal to the holder counts.
     */
    method Refresh(nodeId: nat, clockId: nat)
      requires Valid()
      modifies this, master, keeper.Values
      ensures Valid()
      ensures keeper.Keys == old(keeper.Keys) + {nodeId}
      ensures forall n :: n in old(keeper) && n != nodeId ==> keeper[n].State() == old(keeper[n].State())
      ensures keeper[nodeId].State() == ClockSpec.Refresh(old(StateOf(nodeId)), clockId)
    {
      ghost var s := StateOf(nodeId);
      var k := KeeperOf(nodeId);
      RefreshAt(nodeId, clockId, s);
    }

    /** `finder->second.refresh(clockId)` on a node whose keeper is in state `s`. */
    method RefreshAt(nodeId: nat, clockId: nat, ghost s: Keeper)
      requires Valid() && nodeId in keeper && keeper[nodeId].State() == s
      modifies master, keeper.Values
      ensures Valid()
      ensures forall n :: n in keeper && n != nodeId ==> keeper[n].State() == old(keeper[n].State())
      ensures keeper[nodeId].State() == ClockSpec.Refresh(s, clockId)
    {
      var k := keeper[nodeId];
      k.Refresh(clockId);
      forall i ensures master.Count(i) == |Holders(i)| {
        CountStep(old(Holders(i)), Holders(i), nodeId);
      }
    }

    /**
     * One pass of the ticker thread of `nodeId`'s keeper. A node without a
     * keeper has no ticker thread, so nothing changes for it.
     */
    method Tick(nodeId: nat)
      requires Valid()
      modifies master, keeper.Values
      ensures Valid()
      ensures forall n :: n in keeper && n != nodeId ==> keeper[n].State() == old(keeper[n].State())
      ensures nodeId in keeper ==> keeper[nodeId].State() == ClockSpec.Tick(old(keeper[nodeId].State()))
    {
      if nodeId in keeper {
        var k := keeper[nodeId];
        k.Tick();
        forall i ensures master.Count(i) == |Holders(i)| {
          CountStep(old(Holders(i)), Holders(i), nodeId);
        }
      }
    }

    /** `isActive(id)`: the master's answer, which is whether any node tracks `id`. */
    method IsActive(id: nat) returns (active: bool)
      requires Valid()
      ensures active <==> exists n :: n in keeper && id in keeper[n].clocks
    {
      active := master.IsActive(id);
      if n :| n in keeper && id in keeper[n].clocks {
        assert n in Holders(id);
      }
    }

    /** `getActives()`: the ids some node tracks, in ascending order. */
    method GetActives() returns (ids: seq<nat>)
      requires Valid()
      ensures Ascending(ids)
      ensures forall id :: id in ids <==> exists n :: n in keeper && id in keeper[n].clocks
    {
      ids := master.GetActives();
      forall id ensures id in ids <==> exists n :: n in keeper && id in keeper[n].clocks {
        if n :| n in keeper && id in keeper[n].clocks {
          assert n in Holders(id);
        }
      }
    }

    /** `isActiveOnNode(nodeId, clockId)`: false for a node never refreshed. */
    method IsActiveOnNode(nodeId: nat, clockId: nat) returns (active: bool)
      ensures active <==> nodeId in keeper && clockId in keeper[nodeId].clocks
    {
      if nodeId in keeper {
        active := keeper[nodeId].IsActive(clockId);
      } else {
        active := false;
      }
    }

    /** `getActivesOnNode(nodeId)`: that node's ids in ascending order, none for an unknown node. */
    method GetActivesOnNode(nodeId: nat) returns (ids: seq<nat>)
      ensures Ascending(ids)
      ensures forall id :: id in ids <==> nodeId in keeper && id in keeper[nodeId].clocks
    {
      if nodeId in keeper {
        ids := keeper[nodeId].GetActives();
      } else {
        ids := [];
      }
    }
  }
}
