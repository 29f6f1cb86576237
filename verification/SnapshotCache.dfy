/** The quota-accounted cache of results too long for one answer (internal/mcpserver/cache.go). */
module SnapshotCache {
  import opened Wrappers
  import opened Bytes
  import opened SnapshotOwner

  const SNAPSHOT_TTL := 120_000_000_000
  const SNAPSHOT_MAX := 0x80_0000
  const GLOBAL_MAX := 0x400_0000
  const PRINCIPAL_MAX := 0x100_0000
  const MAX_ITEMS := 4096

  datatype Snapshot = Snapshot(data: Bytes, expires: int, principal: SnapshotKey, scope: string)

  // ---------- sums ----------

  ghost function Sum(sizes: map<string, nat>): nat {
    if sizes == map[] then 0 else
      var t :| t in sizes;
      sizes[t] + Sum(sizes - {t})
  }

  /** The sum does not depend on the order of adding. */
  lemma {:induction false} SumWithout(sizes: map<string, nat>, t: string)
    requires t in sizes
    ensures Sum(sizes) == sizes[t] + Sum(sizes - {t})
    decreases |sizes|
  {
    var u :| u in sizes && Sum(sizes) == sizes[u] + Sum(sizes - {u});
    if u != t {
      SumWithout(sizes - {u}, t);
      SumWithout(sizes - {t}, u);
      assert sizes - {u} - {t} == sizes - {t} - {u};
    }
  }

  ghost function Sizes(items: map<string, Snapshot>): map<string, nat> {
    map t | t in items :: |items[t].data|
  }

  ghost function SizesOf(items: map<string, Snapshot>, k: SnapshotKey): map<string, nat> {
    map t | t in items && items[t].principal == k :: |items[t].data|
  }

  ghost function Used(items: map<string, Snapshot>): nat {
    Sum(Sizes(items))
  }

  ghost function UsedBy(items: map<string, Snapshot>, k: SnapshotKey): nat {
    Sum(SizesOf(items, k))
  }

  /** What one snapshot adds to the sums. */
  lemma UsedWithout(items: map<string, Snapshot>, t: string)
    requires t in items
    ensures Used(items) == |items[t].data| + Used(items - {t})
    ensures forall k :: UsedBy(items, k) ==
              UsedBy(items - {t}, k) + if items[t].principal == k then |items[t].data| else 0
  {
    SumWithout(Sizes(items), t);
    assert Sizes(items) - {t} == Sizes(items - {t});
    forall k: SnapshotKey
      ensures UsedBy(items, k) == UsedBy(items - {t}, k) + if items[t].principal == k then |items[t].data| else 0
    {
      if items[t].principal == k {
        SumWithout(SizesOf(items, k), t);
        assert SizesOf(items, k) - {t} == SizesOf(items - {t}, k);
      } else {
        assert SizesOf(items, k) == SizesOf(items - {t}, k);
      }
    }
  }

  /** The counters hold the sums, and only callers with snapshots have one. */
  ghost predicate Exact(items: map<string, Snapshot>, byPrincipal: map<SnapshotKey, int>, total: int) {
    && (forall t :: t in items ==> items[t].data != [])
    && total == Used(items)
    && (forall k :: k in byPrincipal <==> 0 < UsedBy(items, k))
    && (forall k :: k in byPrincipal ==> byPrincipal[k] == UsedBy(items, k))
  }

  function Counter(byPrincipal: map<SnapshotKey, int>, k: SnapshotKey): int {
    if k in byPrincipal then byPrincipal[k] else 0
  }

  lemma ExactCounters(items: map<string, Snapshot>, byPrincipal: map<SnapshotKey, int>, total: int)
    requires Exact(items, byPrincipal, total)
    ensures total == Used(items) && forall k :: Counter(byPrincipal, k) == UsedBy(items, k)
  {
  }

  lemma DeletingKeepsExact(items: map<string, Snapshot>, byPrincipal: map<SnapshotKey, int>, total: int, t: string)
    requires Exact(items, byPrincipal, total) && t in items
    ensures var k, n := items[t].principal, |items[t].data|;
            var left := byPrincipal[k := Counter(byPrincipal, k) - n];
            Exact(items - {t}, if left[k] <= 0 then left - {k} else left, total - n)
  {
    hide Used;
    hide UsedBy;
    UsedWithout(items, t);
  }

  lemma AddingKeepsExact(items: map<string, Snapshot>, byPrincipal: map<SnapshotKey, int>, total: int,
                         t: string, s: Snapshot)
    requires Exact(items, byPrincipal, total) && t !in items && s.data != []
    ensures var k, n := s.principal, |s.data|;
            Exact(items[t := s], byPrincipal[k := Counter(byPrincipal, k) + n], total + n)
  {
    hide Used;
    hide UsedBy;
    UsedWithout(items[t := s], t);
    assert items[t := s] - {t} == items;
  }

  /** Deleting snapshots makes no sum larger. */
  lemma {:induction false} UsedIsMonotone(small: map<string, Snapshot>, large: map<string, Snapshot>)
    requires forall t :: t in small ==> t in large && small[t] == large[t]
    ensures Used(small) <= Used(large)
    ensures forall k :: UsedBy(small, k) <= UsedBy(large, k)
    ensures |small| <= |large|
    decreases |large|
  {
    if t :| t in large && t !in small {
      UsedIsMonotone(small, large - {t});
      UsedWithout(large, t);
    } else {
      assert small.Keys == large.Keys;
      assert small == large;
    }
  }

  /** The four capacity limits. */
  ghost predicate WithinLimits(items: map<string, Snapshot>, maxItems: int) {
    && |items| <= maxItems
    && Used(items) <= GLOBAL_MAX
    && (forall k :: UsedBy(items, k) <= PRINCIPAL_MAX)
    && (forall t :: t in items ==> |items[t].data| <= SNAPSHOT_MAX)
  }

  lemma DeletingKeepsLimits(small: map<string, Snapshot>, large: map<string, Snapshot>, maxItems: int)
    requires WithinLimits(large, maxItems)
    requires forall t :: t in small ==> t in large && small[t] == large[t]
    ensures WithinLimits(small, maxItems)
  {
    hide Used;
    hide UsedBy;
    UsedIsMonotone(small, large);
    forall k: SnapshotKey
      ensures UsedBy(small, k) <= PRINCIPAL_MAX
    {
      assert UsedBy(small, k) <= UsedBy(large, k);
    }
  }

  lemma AddingKeepsLimits(items: map<string, Snapshot>, maxItems: int, t: string, s: Snapshot)
    requires WithinLimits(items, maxItems) && t !in items
    requires |items| < maxItems && |s.data| <= SNAPSHOT_MAX
    requires Used(items) + |s.data| <= GLOBAL_MAX && UsedBy(items, s.principal) + |s.data| <= PRINCIPAL_MAX
    ensures WithinLimits(items[t := s], maxItems)
  {
    hide Used;
    hide UsedBy;
    UsedWithout(items[t := s], t);
    assert items[t := s] - {t} == items;
  }

  /** The cache holds what was last stored under each token: everything that has not expired. */
  ghost predicate Keeps(items: map<string, Snapshot>, stored: map<string, Snapshot>, clock: int) {
    && (forall t :: t in items ==> t in stored && items[t] == stored[t])
    && (forall t :: t in stored && clock < stored[t].expires ==> t in items)
  }

  lemma StoringIsKept(items: map<string, Snapshot>, stored: map<string, Snapshot>, clock: int,
                      t: string, s: Snapshot, later: int)
    requires Keeps(items, stored, clock) && clock <= later
    ensures Keeps(items[t := s], stored[t := s], later)
  {
  }

  ghost function Live(items: map<string, Snapshot>, now: int): map<string, Snapshot> {
    map t | t in items && now < items[t].expires :: items[t]
  }

  class SnapshotCache {
    var items: map<string, Snapshot>
    var byPrincipal: map<SnapshotKey, int>
    var total: int
    var maxItems: int
    /** What was last stored under each token, whether or not it has expired since. */
    ghost var stored: map<string, Snapshot>
    /** The latest time of any call. */
    ghost var clock: int

    /** The counters are exact, all limits hold, and the cache holds what was stored: everything that
        has not expired and nothing else. */
    ghost predicate Valid()
      reads this
    {
      && Exact(items, byPrincipal, total)
      && WithinLimits(items, maxItems)
      && Keeps(items, stored, clock)
    }

    constructor ()
      ensures Valid() && maxItems == MAX_ITEMS && items == map[] && stored == map[]
    {
      items, byPrincipal, total, maxItems := map[], map[], 0, MAX_ITEMS;
      stored, clock := map[], 0;
      new;
      assert Sizes(items) == map[];
      forall k: SnapshotKey
        ensures UsedBy(items, k) == 0
      {
        assert SizesOf(items, k) == map[];
      }
    }

    method CleanupLocked(now: int)
      requires Valid() && clock <= now
      modifies this
      ensures Valid() && stored == old(stored) && maxItems == old(maxItems) && clock == now
      ensures items == Live(old(items), now)
      ensures items == Live(stored, now) && items.Keys <= old(items).Keys
    {
      hide Exact;
      hide WithinLimits;
      var left := items.Keys;
      while left != {}
        invariant Exact(items, byPrincipal, total)
        invariant forall t :: t in items ==> t in old(items) && items[t] == old(items)[t]
        invariant forall t :: t in old(items) ==> (t in items <==> t in left || now < old(items)[t].expires)
        invariant left <= items.Keys
        invariant stored == old(stored) && maxItems == old(maxItems) && clock == old(clock)
      {
        var t :| t in left;
        left := left - {t};
        var s := items[t];
        if now < s.expires {
          continue;
        }
        DeletingKeepsExact(items, byPrincipal, total, t);
        items := items - {t};
        total := total - |s.data|;
        byPrincipal := byPrincipal[s.principal := Counter(byPrincipal, s.principal) - |s.data|];
        if byPrincipal[s.principal] <= 0 {
          byPrincipal := byPrincipal - {s.principal};
        }
      }
      DeletingKeepsLimits(items, old(items), maxItems);
      clock := now;
    }

    /** Adds a snapshot that stays within the limits. */
    method Store(t: string, s: Snapshot, ghost later: int)
      requires Valid() && clock <= later && t !in items && s.data != []
      requires |items| < maxItems && |s.data| <= SNAPSHOT_MAX
      requires Used(items) + |s.data| <= GLOBAL_MAX && UsedBy(items, s.principal) + |s.data| <= PRINCIPAL_MAX
      modifies this
      ensures Valid() && maxItems == old(maxItems)
      ensures items == old(items)[t := s] && stored == old(stored)[t := s] && clock == later
    {
      hide Exact;
      hide Used;
      hide UsedBy;
      hide WithinLimits;
      hide Keeps;
      AddingKeepsExact(items, byPrincipal, total, t, s);
      AddingKeepsLimits(items, maxItems, t, s);
      StoringIsKept(items, stored, clock, t, s, later);
      items := items[t := s];
      byPrincipal := byPrincipal[s.principal := Counter(byPrincipal, s.principal) + |s.data|];
      total := total + |s.data|;
      stored, clock := stored[t := s], later;
    }

    /** Stores the encoded value, unless a limit would be exceeded. An encoded value has at least one
        byte; token is None when no random bytes could be had. */
    method Put(now: int, later: int, p: Principal, scope: string, data: Bytes, token: Option<string>)
      returns (r: Result<string>)
      requires Valid() && clock <= now <= later && data != []
      requires token.Some? ==> token.value !in items
      modifies this
      ensures Valid() && maxItems == old(maxItems)
      ensures var k, live := PrincipalSnapshotKey(p), Live(old(stored), now);
              r.Ok? <==>
              && |data| <= SNAPSHOT_MAX && token.Some?
              && |live| < maxItems
              && UsedBy(live, k) + |data| <= PRINCIPAL_MAX
              && Used(live) + |data| <= GLOBAL_MAX
      ensures r.Ok? ==>
              && r.value == token.value && clock == later
              && stored == old(stored)[r.value := Snapshot(data, later + SNAPSHOT_TTL, PrincipalSnapshotKey(p), scope)]
      ensures r.Err? ==> stored == old(stored) && clock <= now
    {
      if |data| > SNAPSHOT_MAX {
        return Err("snapshot exceeds maximum size");
      }
      hide Exact;
      hide Used;
      hide UsedBy;
      hide WithinLimits;
      hide Keeps;
      hide Live;
      hide PrincipalSnapshotKey;
      var k := PrincipalSnapshotKey(p);
      CleanupLocked(now);
      ExactCounters(items, byPrincipal, total);
      if |items| >= maxItems || Counter(byPrincipal, k) + |data| > PRINCIPAL_MAX || total + |data| > GLOBAL_MAX {
        return Err("snapshot capacity unavailable");
      }
      if token.None? {
        return Err("snapshot token unavailable");
      }
      Store(token.value, Snapshot(data, later + SNAPSHOT_TTL, k, scope), later);
      return Ok(token.value);
    }

    /** Gives back what was last stored under the token exactly if it has not expired, the caller has the
        key of the one who stored it and holds the scope it was stored under. */
    method Get(now: int, t: string, p: Principal) returns (r: Result<Bytes>)
      requires Valid() && clock <= now
      modifies this
      ensures Valid() && stored == old(stored) && maxItems == old(maxItems) && clock == now
      ensures r.Ok? <==>
              && t in stored && now < stored[t].expires
              && stored[t].principal == PrincipalSnapshotKey(p) && stored[t].scope in p.scopes
      ensures r.Ok? ==> r.value == stored[t].data
    {
      CleanupLocked(now);
      if t !in items {
        return Err("snapshot expired or not found");
      }
      var s := items[t];
      if s.principal != PrincipalSnapshotKey(p) || s.scope !in p.scopes {
        return Err("snapshot access denied");
      }
      return Ok(s.data);
    }
  }
}
