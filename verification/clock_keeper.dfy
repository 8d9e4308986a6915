/**
 * `Chronomancer::ClockKeeper`: the entries of one node, their amortised
 * countdown, and the counters it reports to. Every state-changing method is
 * proved to do to `State()` what the matching function of ClockSpec does,
 * and to move each counter of `master` by the change in that id's presence.
 */
module ClockKeeping {
  import opened Wrappers
  import opened Ordering
  import opened ClockSpec
  import opened MasterNodes

  /** 1 if `id` is a key of `m`, else 0. */
  function Presence(m: map<nat, int>, id: nat): int
  {
    if id in m then 1 else 0
  }

  class ClockKeeper {
    const master: MasterNodeKeeper  // `masterClock`
    var clocks: map<nat, int>
    var pivot: Option<nat>          // `clocks.end()` is None
    var clockstamp: int
    var durationClockstamp: int

    function State(): Keeper
      reads this
    {
      Keeper(clocks, pivot, clockstamp, durationClockstamp)
    }

    ghost predicate Valid()
      reads this
    {
      Inv(State())
    }

    /** The keeper of a node seen for the first time (the ticker thread is not modelled). */
    constructor (masterClock: MasterNodeKeeper)
      ensures master == masterClock
      ensures State() == Empty && Valid()
    {
      master := masterClock;
      clocks := map[];
      pivot := None;
      durationClockstamp, clockstamp := 0, 0;
    }

    /** `timeInterval()`: ticks counted down since the last sweep. */
    function TimeInterval(): (r: int)
      reads this
      ensures Valid() ==> 0 <= r <= durationClockstamp <= STAMP
      ensures Valid() && pivot.Some? ==> r == clocks[pivot.value] - clockstamp
    {
      durationClockstamp - clockstamp
    }

    /** `reset()`. */
    method Reset()
      modifies this
      ensures State() == ClockSpec.Reset(old(State()))
    {
      durationClockstamp, clockstamp := 0, 0;
      pivot := None;
    }

    /**
     * `refreshAll()`: one pass over the entries in ascending key order that
     * subtracts the elapsed interval, erases (and reports) the entries that go
     * negative, and keeps the first survivor of least value as pivot.
     */
    method RefreshAll()
      modifies this, master
      ensures State() == Sweep(old(State()))
      ensures forall i :: master.Count(i) == old(master.Count(i)) + Presence(clocks, i) - Presence(old(clocks), i)
    {
      if clocks != map[] {
        var interval := TimeInterval();
        ghost var before := clocks;
        var todo := clocks.Keys;
        // no survivor seen yet; the source starts its running minimum at INT_MAX instead
        var first := true;
        while todo != {}
          invariant durationClockstamp - old(clockstamp) == interval
          invariant Pass(before, interval, todo, clocks, first, pivot, clockstamp)
          invariant forall i :: master.Count(i) == old(master.Count(i)) + Presence(clocks, i) - Presence(before, i)
          decreases todo
        {
          LeastExists(todo);
          var k :| k in todo && forall x :: x in todo ==> k <= x;
          first := SweepEntry(k, interval, first, before, todo);
          todo := todo - {k};
        }
        PassDone(old(State()), clocks, first, pivot, clockstamp);
        if clocks != map[] {
          durationClockstamp := clockstamp;
        } else {
          Reset();
        }
      } else {
        Reset();
      }
    }

    /**
     * The body of the `refreshAll()` loop for the entry `k`: decay it, then
     * erase and report it if it went negative, or make it the running pivot
     * if it is the first survivor or strictly below the running minimum.
     */
    method SweepEntry(k: nat, interval: int, first: bool, ghost before: map<nat, int>, ghost todo: set<nat>)
      returns (first': bool)
      requires Pass(before, interval, todo, clocks, first, pivot, clockstamp)
      requires k in todo && forall x :: x in todo ==> k <= x
      modifies this, master
      ensures Pass(before, interval, todo - {k}, clocks, first', pivot, clockstamp)
      ensures durationClockstamp == old(durationClockstamp)
      ensures forall i :: master.Count(i) == old(master.Count(i)) + Presence(clocks, i) - Presence(old(clocks), i)
    {
      first' := first;
      var v := clocks[k] - interval;
      if v < 0 {
        PassErode(before, interval, todo, clocks, first, pivot, clockstamp, k);
        master.NotifyEroded(k);
        clocks := clocks - {k};
      } else if first || v < clockstamp {
        PassNewPivot(before, interval, todo, clocks, first, pivot, clockstamp, k);
        clocks := clocks[k := v];
        pivot := Some(k);
        clockstamp := v;
        first' := false;
      } else {
        PassKeepPivot(before, interval, todo, clocks, first, pivot, clockstamp, k);
        clocks := clocks[k := v];
      }
    }

    /** One pass of the ticker thread's loop, with the sleep and the lock left out. */
    method Tick()
      requires Valid()
      modifies this, master
      ensures Valid()
      ensures State() == ClockSpec.Tick(old(State()))
      ensures forall i :: master.Count(i) == old(master.Count(i)) + Presence(clocks, i) - Presence(old(clocks), i)
    {
      TickPreservesInv(State());
      if clocks != map[] {
        clockstamp := clockstamp - 1;
        if clockstamp < 0 {
          RefreshAll();
        }
      }
    }

    /** `refresh(id)`: see ClockSpec.Refresh for its three branches. */
    method Refresh(id: nat)
      requires Valid()
      modifies this, master
      ensures State() == ClockSpec.Refresh(old(State()), id)
      ensures Valid()
      ensures forall i :: master.Count(i) == old(master.Count(i)) + Presence(clocks, i) - Presence(old(clocks), i)
    {
      RefreshPreservesInv(State(), id);
      if pivot.Some? {
        if pivot.value == id {
          RenewPivot(id);
        } else if id !in clocks {
          // `emplace` inserts only a new key, and reports only that insertion
          clocks := clocks[id := STAMP + TimeInterval()];
          master.NotifyAdded(id);
        }
      } else {
        Start(id);
      }
    }

    /** The branch of `refresh(id)` where `id` is the pivot. */
    method RenewPivot(id: nat)
      requires pivot == Some(id) && id in clocks
      modifies this, master
      ensures State() == ClockSpec.Refresh(old(State()), id)
      ensures forall i :: master.Count(i) == old(master.Count(i)) + Presence(clocks, i) - Presence(old(clocks), i)
    {
      ghost var s := State();
      if |clocks| == 1 {
        clocks := clocks[id := STAMP];
        durationClockstamp, clockstamp := STAMP, STAMP;
        assert State() == ClockSpec.Refresh(s, id);
      } else {
        clocks := clocks[id := STAMP + TimeInterval()];
        assert ClockSpec.Refresh(s, id) == Sweep(State());
        RefreshAll();
      }
    }

    /** The branch of `refresh(id)` where no pivot is set: start over from `id` alone. */
    method Start(id: nat)
      requires pivot == None && clocks == map[]
      modifies this, master
      ensures State() == ClockSpec.Refresh(old(State()), id)
      ensures forall i :: master.Count(i) == old(master.Count(i)) + Presence(clocks, i) - Presence(old(clocks), i)
    {
      ghost var s := State();
      Reset();
      clocks := clocks[id := STAMP];
      assert ClockSpec.Refresh(s, id) == Sweep(State());
      master.NotifyAdded(id);
      RefreshAll();
    }

    /** `isActive(id)`: the id is still tracked (as of the last sweep). */
    method IsActive(id: nat) returns (active: bool)
      ensures active <==> id in clocks
    {
      active := id in clocks;
    }

    /** `getActives()`: the tracked ids, in the map's ascending key order. */
    method GetActives() returns (ids: seq<nat>)
      ensures Ascending(ids)
      ensures forall id :: id in ids <==> id in clocks
    {
      var entries := clocks;
      ids := [];
      var todo := entries.Keys;
      while todo != {}
        invariant todo <= entries.Keys
        invariant Ascending(ids)
        invariant forall x :: x in todo ==> Below(ids, x)
        invariant forall id :: id in ids <==> id in entries && id !in todo
        decreases todo
      {
        LeastExists(todo);
        var id :| id in todo && forall x :: x in todo ==> id <= x;
        assert Below(ids, id);
        ids := ids + [id];
        todo := todo - {id};
      }
    }

    /**
     * The destructor: report every entry as eroded and drop them all. The
     * stamps and the pivot are left as they are; the keeper is not used again.
     */
    method Clear()
      modifies this, master
      ensures clocks == map[]
      ensures pivot == old(pivot) && clockstamp == old(clockstamp)
      ensures durationClockstamp == old(durationClockstamp)
      ensures forall i :: master.Count(i) == old(master.Count(i)) - Presence(old(clocks), i)
    {
      var todo := clocks.Keys;
      while todo != {}
        invariant todo <= old(clocks).Keys
        invariant unchanged(this)
        invariant forall i :: master.Count(i) == old(master.Count(i)) - Presence(old(clocks), i) + (if i in todo then 1 else 0)
        decreases todo
      {
        var id :| id in todo;
        master.NotifyEroded(id);
        todo := todo - {id};
      }
      clocks := map[];
    }
  }

  /** Every key of `all` already visited is smaller than every key still to visit. */
  ghost predicate VisitedFirst(all: map<nat, int>, todo: set<nat>)
  {
    forall a, b :: a in all && a !in todo && b in todo ==> a < b
  }

  /**
   * Where a `refreshAll` pass stands when the keys of `before` outside `todo`
   * have been visited: visited entries are decayed by `interval` or erased,
   * the others untouched; unless `first` (no survivor yet), `p` is the
   * least-valued, smallest visited survivor and `stamp` its value.
   */
  ghost predicate Pass(before: map<nat, int>, interval: int, todo: set<nat>,
                       m: map<nat, int>, first: bool, p: Option<nat>, stamp: int)
  {
    && todo <= before.Keys
    && VisitedFirst(before, todo)
    && (forall k :: k in m <==> k in before && (k in todo || before[k] - interval >= 0))
    && (forall k :: k in m ==> m[k] == if k in todo then before[k] else before[k] - interval)
    && (first ==> forall j :: j in m ==> j in todo)
    && (!first ==> p.Some? && p.value in m && p.value !in todo && stamp == m[p.value])
    && (!first ==> forall j :: j in m && j !in todo ==> stamp <= m[j])
    && (!first ==> forall j :: j in m && j !in todo && m[j] == stamp ==> p.value <= j)
  }

  /** Visiting the least unvisited key `k`, whose decayed value is negative, erases it. */
  lemma PassErode(before: map<nat, int>, interval: int, todo: set<nat>,
                  m: map<nat, int>, first: bool, p: Option<nat>, stamp: int, k: nat)
    requires Pass(before, interval, todo, m, first, p, stamp)
    requires k in todo && forall x :: x in todo ==> k <= x
    requires k in m && m[k] - interval < 0
    ensures Pass(before, interval, todo - {k}, m - {k}, first, p, stamp)
  {
  }

  /** A surviving `k` whose value beats the running minimum (or is the first survivor) becomes pivot. */
  lemma PassNewPivot(before: map<nat, int>, interval: int, todo: set<nat>,
                     m: map<nat, int>, first: bool, p: Option<nat>, stamp: int, k: nat)
    requires Pass(before, interval, todo, m, first, p, stamp)
    requires k in todo && forall x :: x in todo ==> k <= x
    requires k in m && m[k] - interval >= 0 && (first || m[k] - interval < stamp)
    ensures Pass(before, interval, todo - {k}, m[k := m[k] - interval], false, Some(k), m[k] - interval)
  {
  }

  /** A surviving `k` that does not beat the running minimum leaves the pivot alone. */
  lemma PassKeepPivot(before: map<nat, int>, interval: int, todo: set<nat>,
                      m: map<nat, int>, first: bool, p: Option<nat>, stamp: int, k: nat)
    requires Pass(before, interval, todo, m, first, p, stamp)
    requires k in todo && forall x :: x in todo ==> k <= x
    requires k in m && m[k] - interval >= stamp && !first
    ensures Pass(before, interval, todo - {k}, m[k := m[k] - interval], first, p, stamp)
  {
  }

  /** A finished pass over the entries of `s` has computed the sweep of `s`. */
  lemma PassDone(s: Keeper, m: map<nat, int>, first: bool, p: Option<nat>, stamp: int)
    requires s.clocks != map[]
    requires Pass(s.clocks, Interval(s), {}, m, first, p, stamp)
    ensures first <==> m == map[]
    ensures Sweep(s) == if first then Keeper(m, None, 0, 0) else Keeper(m, p, stamp, stamp)
  {
    var r := if first then Keeper(m, None, 0, 0) else Keeper(m, p, stamp, stamp);
    SweepDetermined(s, r);
  }
}
