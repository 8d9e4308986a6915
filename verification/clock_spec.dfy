/**
 * The state of one `ClockKeeper` as a value, and what each of its operations
 * does to that value. The class in ClockKeeping is proved to follow these
 * functions; the properties of the expiry engine are proved here about them.
 *
 * Vocabulary:
 *  - `clocks[k]` is the STORED value of entry k, correct only as of the last
 *    sweep or of its own insertion;
 *  - `Interval(s)` (the source's `timeInterval()`) is the number of ticks
 *    that have passed since the last sweep;
 *  - `Remaining(s, k) = clocks[k] - Interval(s)` is the reconciled number of
 *    ticks entry k still has to live.
 */
module ClockSpec {
  import opened Wrappers

  /** The fixed time-to-live, in ticks (`STAMP`). */
  const STAMP: int := 10

  datatype Keeper = Keeper(
    clocks: map<nat, int>,  // entry id -> stored remaining ticks
    pivot: Option<nat>,     // the entry whose expiry drives the countdown
    clockstamp: int,        // the countdown
    duration: int           // the countdown's value at the last sweep (`duration_clockstamp`)
  )

  /** The keeper of a freshly created node: no entries, no pivot, both stamps zero. */
  const Empty: Keeper := Keeper(map[], None, 0, 0)

  /** Ticks elapsed since the last sweep (`timeInterval()`). */
  function Interval(s: Keeper): int
  {
    s.duration - s.clockstamp
  }

  /** Reconciled remaining ticks of a tracked entry. */
  function Remaining(s: Keeper, k: nat): int
    requires k in s.clocks
  {
    s.clocks[k] - Interval(s)
  }

  /**
   * `p` is the entry a sweep makes pivot: it has the least value in `m`, and
   * it is the smallest such key, because the sweep visits keys in ascending
   * order and only a strictly smaller value displaces the running pivot.
   */
  ghost predicate IsPivot(m: map<nat, int>, p: nat)
  {
    && p in m
    && (forall k :: k in m ==> m[p] <= m[k])
    && (forall k :: k in m && m[k] == m[p] ==> p <= k)
  }

  lemma {:induction false} PivotExists(m: map<nat, int>)
    requires m != map[]
    ensures exists p :: IsPivot(m, p)
    decreases |m.Keys|
  {
    var k :| k in m;
    var rest := m - {k};
    assert rest.Keys == m.Keys - {k};
    if rest == map[] {
      assert rest.Keys == {};
      assert m.Keys == {k};
      assert IsPivot(m, k);
    } else {
      PivotExists(rest);
      var q :| IsPivot(rest, q);
      var p := if m[k] < rest[q] || (m[k] == rest[q] && k < q) then k else q;
      forall j | j in m
        ensures m[p] <= m[j] && (m[j] == m[p] ==> p <= j)
      {
        if j != k { assert j in rest; }
      }
      assert IsPivot(m, p);
    }
  }

  /** A map of size one holds exactly the one key known to be in it. */
  lemma SingletonKeys(m: map<nat, int>, id: nat)
    requires id in m && |m| == 1
    ensures m.Keys == {id}
  {
    var rest := m.Keys - {id};
    assert |m.Keys| == |rest| + 1;
  }

  /** At most one key satisfies IsPivot, so "the pivot" of a map is well defined. */
  lemma PivotUnique(m: map<nat, int>, p: nat, q: nat)
    requires IsPivot(m, p) && IsPivot(m, q)
    ensures p == q
  {
    assert m[p] <= m[q] && m[q] <= m[p];
  }

  ghost function PivotOf(m: map<nat, int>): (p: nat)
    requires m != map[]
    ensures IsPivot(m, p)
  {
    PivotExists(m);
    var p :| IsPivot(m, p); p
  }

  /** `reset()`: no pivot, both stamps zero; the entries are left as they are. */
  function Reset(s: Keeper): (r: Keeper)
    ensures r.clocks == s.clocks && r.pivot == None
    ensures r.clockstamp == 0 && r.duration == 0
    ensures Interval(r) == 0
  {
    Keeper(s.clocks, None, 0, 0)
  }

  /** The entries that survive losing `elapsed` ticks, with their decayed values. */
  function Decayed(m: map<nat, int>, elapsed: int): (r: map<nat, int>)
    ensures forall k :: k in r <==> k in m && m[k] - elapsed >= 0
    ensures forall k :: k in r ==> 0 <= r[k] == m[k] - elapsed
  {
    map k | k in m && m[k] - elapsed >= 0 :: m[k] - elapsed
  }

  /**
   * `refreshAll()`: subtract the elapsed interval from every entry, drop the
   * ones that go negative, and restart the countdown from the least survivor.
   * An empty keeper, or one whose entries all expire, is reset.
   */
  ghost function Sweep(s: Keeper): Keeper
  {
    if s.clocks == map[] then Reset(s)
    else
      var m := Decayed(s.clocks, Interval(s));
      if m == map[] then Reset(s.(clocks := m))
      else
        var p := PivotOf(m);
        Keeper(m, Some(p), m[p], m[p])
  }

  /**
   * What a sweep leaves: exactly the entries with reconciled ticks left, each
   * stored at its reconciled value; no pivot and zero stamps if none is left,
   * otherwise the least-valued, smallest key as pivot with both stamps at its
   * value, so that no time has elapsed since the sweep.
   */
  lemma SweepSpec(s: Keeper)
    ensures forall k :: k in Sweep(s).clocks <==> k in s.clocks && Remaining(s, k) >= 0
    ensures forall k :: k in Sweep(s).clocks ==> Sweep(s).clocks[k] == Remaining(s, k)
    ensures Sweep(s).clocks == map[] ==> Sweep(s).pivot == None && Sweep(s).clockstamp == 0 && Sweep(s).duration == 0
    ensures Sweep(s).clocks != map[] ==>
              && Sweep(s).pivot.Some? && IsPivot(Sweep(s).clocks, Sweep(s).pivot.value)
              && Sweep(s).clockstamp == Sweep(s).duration == Sweep(s).clocks[Sweep(s).pivot.value]
    ensures Interval(Sweep(s)) == 0
  {
  }

  /**
   * Sweep's contract determines its result: any state that keeps exactly the
   * survivors with their decayed values, resets when none survive, and
   * otherwise makes the pivot the least-valued, smallest key with both stamps
   * at its value, is the sweep of `s`.
   */
  lemma SweepDetermined(s: Keeper, r: Keeper)
    requires forall k :: k in r.clocks <==> k in s.clocks && Remaining(s, k) >= 0
    requires forall k :: k in r.clocks ==> r.clocks[k] == Remaining(s, k)
    requires r.clocks == map[] ==> r.pivot == None && r.clockstamp == 0 && r.duration == 0
    requires r.clocks != map[] ==>
               && r.pivot.Some? && IsPivot(r.clocks, r.pivot.value)
               && r.clockstamp == r.duration == r.clocks[r.pivot.value]
    ensures r == Sweep(s)
  {
    var w := Sweep(s);
    SweepSpec(s);
    assert r.clocks == w.clocks;
    if r.clocks != map[] {
      PivotUnique(r.clocks, r.pivot.value, w.pivot.value);
    }
  }

  /**
   * `ClockKeeper::refresh(id)`: the three branches of the source.
   *  - no pivot (the keeper is empty): reset, insert `id` with STAMP, sweep;
   *  - `id` is the pivot: the only entry is renewed in place; with other
   *    entries its value becomes STAMP + Interval and a sweep is forced;
   *  - another pivot exists: `emplace(id, STAMP + Interval)`, which inserts a
   *    new id and leaves an existing one untouched; no sweep.
   */
  ghost function Refresh(s: Keeper, id: nat): Keeper
  {
    match s.pivot
    case None =>
      var t := Reset(s);
      Sweep(t.(clocks := t.clocks[id := STAMP]))
    case Some(p) =>
      if p == id then
        if |s.clocks| == 1 then
          Keeper(s.clocks[id := STAMP], s.pivot, STAMP, STAMP)
        else
          Sweep(s.(clocks := s.clocks[id := STAMP + Interval(s)]))
      else if id in s.clocks then s
      else s.(clocks := s.clocks[id := STAMP + Interval(s)])
  }

  /** One pass of the ticker loop: count down, and sweep once the countdown goes negative. */
  ghost function Tick(s: Keeper): Keeper
  {
    if s.clocks == map[] then s
    else
      var t := s.(clockstamp := s.clockstamp - 1);
      if t.clockstamp < 0 then Sweep(t) else t
  }

  /** `n` consecutive ticks with no refresh in between. */
  ghost function Ticks(s: Keeper, n: nat): Keeper
    decreases n
  {
    if n == 0 then s else Ticks(Tick(s), n - 1)
  }

  /**
   * The keeper invariant:
   *  - there is a pivot exactly when there are entries, and an empty keeper
   *    has both stamps at zero;
   *  - the pivot is an entry and its stored value is the baseline;
   *  - 0 <= countdown <= baseline <= STAMP;
   *  - no entry is stored below the pivot (the pivot holds the minimum), and
   *    no entry has more than STAMP reconciled ticks left.
   */
  ghost predicate Inv(s: Keeper)
  {
    && (s.pivot.None? <==> s.clocks == map[])
    && (s.clocks == map[] ==> s.clockstamp == 0 && s.duration == 0)
    && (s.pivot.Some? ==> s.pivot.value in s.clocks && s.clocks[s.pivot.value] == s.duration)
    && 0 <= s.clockstamp <= s.duration <= STAMP
    && forall k :: k in s.clocks ==> s.duration <= s.clocks[k] && Remaining(s, k) <= STAMP
  }

  /** A sweep of entries that have at most STAMP ticks left establishes the invariant. */
  lemma SweepEstablishesInv(s: Keeper)
    requires forall k :: k in s.clocks ==> Remaining(s, k) <= STAMP
    ensures Inv(Sweep(s))
  {
    var r := Sweep(s);
    SweepSpec(s);
    if r.clocks != map[] {
      var p := r.pivot.value;
      assert Remaining(s, p) <= STAMP;
    }
  }

  /** Under the invariant every stored value lies in 0..2*STAMP, so it fits a 32-bit int. */
  lemma InvBounds(s: Keeper, k: nat)
    requires Inv(s) && k in s.clocks
    ensures 0 <= s.clocks[k] <= 2 * STAMP
    ensures Remaining(s, k) >= s.clockstamp >= 0
  {
  }

  lemma RefreshPreservesInv(s: Keeper, id: nat)
    requires Inv(s)
    ensures Inv(Refresh(s, id))
  {
    match s.pivot
    case None =>
      SweepEstablishesInv(Reset(s).(clocks := map[id := STAMP]));
    case Some(p) =>
      if p == id {
        if |s.clocks| == 1 {
          SingletonKeys(s.clocks, id);
        } else {
          SweepEstablishesInv(s.(clocks := s.clocks[id := STAMP + Interval(s)]));
        }
      }
  }

  lemma TickPreservesInv(s: Keeper)
    requires Inv(s)
    ensures Inv(Tick(s))
  {
    if s.clocks != map[] && s.clockstamp == 0 {
      SweepEstablishesInv(s.(clockstamp := -1));
    }
  }

  lemma {:induction false} TicksPreserveInv(s: Keeper, n: nat)
    decreases n
    requires Inv(s)
    ensures Inv(Ticks(s, n))
  {
    if n > 0 {
      TickPreservesInv(s);
      TicksPreserveInv(Tick(s), n - 1);
    }
  }

  /**
   * The pivot is the first entry to expire: no entry has fewer reconciled
   * ticks left, and the countdown is exactly what the pivot has left. So a
   * refresh that leaves the pivot in place can never leave an entry that
   * should expire before the countdown runs out.
   */
  lemma PivotExpiresFirst(s: Keeper, k: nat)
    requires Inv(s) && s.pivot.Some? && k in s.clocks
    ensures Remaining(s, s.pivot.value) == s.clockstamp
    ensures Remaining(s, s.pivot.value) <= Remaining(s, k)
  {
  }

  /** After `refresh(id)`, `id` is tracked, whichever branch ran. */
  lemma RefreshTracks(s: Keeper, id: nat)
    requires Inv(s)
    ensures id in Refresh(s, id).clocks
    ensures Refresh(s, id).pivot.Some?
  {
    if s.pivot.Some? && s.pivot.value == id && |s.clocks| != 1 {
      var t := s.clocks[id := STAMP + Interval(s)];
      assert t[id] - Interval(s) == STAMP;
    }
  }

  /**
   * Refreshing the pivot renews it to exactly STAMP ticks; as the only entry it
   * also restarts the countdown and the baseline at STAMP.
   */
  lemma RefreshRenewsPivot(s: Keeper, id: nat)
    requires Inv(s) && s.pivot == Some(id)
    ensures id in Refresh(s, id).clocks
    ensures Refresh(s, id).clocks[id] == STAMP
    ensures Remaining(Refresh(s, id), id) == STAMP
    ensures |s.clocks| == 1 ==> Refresh(s, id) == Keeper(map[id := STAMP], Some(id), STAMP, STAMP)
  {
    if |s.clocks| == 1 {
      SingletonKeys(s.clocks, id);
      assert s.clocks[id := STAMP] == map[id := STAMP];
    } else {
      RefreshTracks(s, id);
    }
  }

  /**
   * Refreshing an entry that is not the pivot never sweeps and never touches
   * the pivot or the stamps. A new id is stored at STAMP + Interval (exactly
   * STAMP ticks to live); an id already present keeps its stored value, since
   * `emplace` does not overwrite.
   */
  lemma RefreshNonPivot(s: Keeper, id: nat)
    requires Inv(s) && s.pivot.Some? && s.pivot.value != id
    ensures id in s.clocks ==> Refresh(s, id) == s
    ensures id !in s.clocks ==>
              && Refresh(s, id).clocks == s.clocks[id := STAMP + Interval(s)]
              && Remaining(Refresh(s, id), id) == STAMP
              && Refresh(s, id).pivot == s.pivot
              && Refresh(s, id).clockstamp == s.clockstamp
              && Refresh(s, id).duration == s.duration
  {
  }

  /** The first refresh of an empty keeper makes `id` its only entry and its pivot. */
  lemma RefreshEmpty(s: Keeper, id: nat)
    requires Inv(s) && s.pivot == None
    ensures Refresh(s, id) == Keeper(map[id := STAMP], Some(id), STAMP, STAMP)
  {
    var m := Refresh(s, id).clocks;
    assert m.Keys == {id};
    assert m == map[id := STAMP];
    PivotUnique(m, Refresh(s, id).pivot.value, id);
  }

  /**
   * The keys a refresh adds and removes: only `id` can be added, and it is
   * added exactly when it was not tracked; every removed key was swept out.
   */
  lemma RefreshKeys(s: Keeper, id: nat)
    requires Inv(s)
    ensures Refresh(s, id).clocks.Keys - s.clocks.Keys == {id} - s.clocks.Keys
    ensures id in s.clocks ==> Refresh(s, id).clocks.Keys <= s.clocks.Keys
  {
    RefreshTracks(s, id);
  }

  /**
   * One tick takes exactly one reconciled tick from every entry, and removes
   * the entries that had none left.
   */
  lemma TickAges(s: Keeper, k: nat)
    requires Inv(s) && k in s.clocks
    ensures k in Tick(s).clocks <==> Remaining(s, k) >= 1
    ensures k in Tick(s).clocks ==> Remaining(Tick(s), k) == Remaining(s, k) - 1
  {
    InvBounds(s, k);
  }

  lemma TickNeverAdds(s: Keeper)
    ensures Tick(s).clocks.Keys <= s.clocks.Keys
  {
  }

  lemma {:induction false} TicksNeverAdd(s: Keeper, n: nat)
    decreases n
    ensures Ticks(s, n).clocks.Keys <= s.clocks.Keys
  {
    if n > 0 {
      TickNeverAdds(s);
      TicksNeverAdd(Tick(s), n - 1);
    }
  }

  /**
   * Without refreshes, a tracked entry stays tracked for exactly as many ticks
   * as it has reconciled ticks left, and is gone on the tick after.
   */
  lemma {:induction false} Lifetime(s: Keeper, k: nat, n: nat)
    requires Inv(s) && k in s.clocks
    ensures k in Ticks(s, n).clocks <==> n <= Remaining(s, k)
    ensures k in Ticks(s, n).clocks ==> Remaining(Ticks(s, n), k) == Remaining(s, k) - n
    decreases n
  {
    if n > 0 {
      TickAges(s, k);
      TickPreservesInv(s);
      if k in Tick(s).clocks {
        Lifetime(Tick(s), k, n - 1);
      } else {
        TicksNeverAdd(Tick(s), n - 1);
      }
    }
  }

  /** Every tracked entry is gone after STAMP + 1 ticks without a refresh. */
  lemma ExpiresWithinTtl(s: Keeper, k: nat)
    requires Inv(s) && k in s.clocks
    ensures k !in Ticks(s, STAMP + 1).clocks
  {
    Lifetime(s, k, STAMP + 1);
  }

  /**
   * Refreshing a new id, or the current pivot, gives it exactly STAMP more
   * ticks: it is still tracked after n ticks if and only if n <= STAMP.
   */
  lemma RefreshLifetime(s: Keeper, id: nat, n: nat)
    requires Inv(s) && (id !in s.clocks || s.pivot == Some(id))
    ensures id in Ticks(Refresh(s, id), n).clocks <==> n <= STAMP
  {
    RefreshPreservesInv(s, id);
    RefreshTracks(s, id);
    if s.pivot == Some(id) {
      RefreshRenewsPivot(s, id);
    } else if s.pivot.Some? {
      RefreshNonPivot(s, id);
    } else {
      RefreshEmpty(s, id);
    }
    Lifetime(Refresh(s, id), id, n);
  }

  /**
   * Refreshing an entry that is tracked but is not the pivot does not extend
   * its life: it expires on the tick it would have expired on anyway.
   */
  lemma StaleRefreshLifetime(s: Keeper, id: nat, n: nat)
    requires Inv(s) && id in s.clocks && s.pivot != Some(id)
    ensures id in Ticks(Refresh(s, id), n).clocks <==> n <= Remaining(s, id)
  {
    RefreshNonPivot(s, id);
    Lifetime(s, id, n);
  }
}
