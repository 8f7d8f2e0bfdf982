/** Hierarchical leased locks: the `LockState` of `lock_state.rs` and its state-transition primitives. */
module Locks {
  import opened Bytes
  import opened LockPaths

  type u32 = x: int | 0 <= x < 0x1_0000_0000
  type u64 = x: int | 0 <= x < 0x1_0000_0000_0000_0000

  const MAX_U64: u64 := 0xFFFF_FFFF_FFFF_FFFF

  /** One holder; it counts until the clock reaches `expires`. */
  datatype Holder = Holder(id: string, info: string, acquired: u64, expires: u64)

  datatype Entry = Entry(max: u32, holders: seq<Holder>)

  type LockMap = map<bytes, Entry>

  /** What the caller of an acquire is told. */
  datatype Acquired = Acquired(acquired: bool, current: u32, max: u32, holders: seq<Holder>)

  // ── What each primitive must do ────────────────────────────────────────

  function SaturatingAdd(a: u64, b: u32): u64 {
    if a + b <= MAX_U64 then a + b else MAX_U64
  }

  /** `len() as u32`. */
  function Truncate(n: nat): u32 {
    n % 0x1_0000_0000
  }

  /** The holders whose lease is not over, in order. */
  function Live(hs: seq<Holder>, now: u64): seq<Holder> {
    if hs == [] then []
    else Live(hs[..|hs| - 1], now) + if hs[|hs| - 1].expires > now then [hs[|hs| - 1]] else []
  }

  /** The holders other than `id`, in order. */
  function Without(hs: seq<Holder>, id: string): seq<Holder> {
    if hs == [] then []
    else Without(hs[..|hs| - 1], id) + if hs[|hs| - 1].id != id then [hs[|hs| - 1]] else []
  }

  /** The first position `id` holds. */
  function IndexOf(hs: seq<Holder>, id: string): (i: Option<nat>)
    ensures i.Some? ==> i.value < |hs| && hs[i.value].id == id
    ensures i.None? ==> forall k | 0 <= k < |hs| :: hs[k].id != id
  {
    if hs == [] then None
    else if hs[0].id == id then Some(0)
    else
      var i := IndexOf(hs[1..], id);
      if i.Some? then Some(i.value + 1) else None
  }

  predicate Held(locks: LockMap, path: bytes) {
    path in locks && locks[path].holders != []
  }

  predicate AncestorConflict(locks: LockMap, path: bytes) {
    exists a | a in Ancestors(path) :: Held(locks, a)
  }

  predicate DescendantConflict(locks: LockMap, path: bytes) {
    exists key | key in locks :: InRange(path, key) && Held(locks, key)
  }

  function Report(e: Entry, acquired: bool): Acquired {
    Acquired(acquired, Truncate(|e.holders|), e.max, e.holders)
  }

  /** Renewal, the first holder's shape, and capacity, on an entry without expired holders. */
  function Admit(e: Entry, id: string, max: u32, h: Holder): (Entry, bool) {
    var i := IndexOf(e.holders, id);
    if i.Some? then (e.(holders := e.holders[i.value := e.holders[i.value].(expires := h.expires)]), true)
    else if e.holders != [] && e.max != max then (e, false)
    else
      var e' := if e.holders == [] then Entry(max, []) else e;
      if Truncate(|e'.holders|) < e'.max then (e'.(holders := e'.holders + [h]), true) else (e', false)
  }

  function EntryAt(locks: LockMap, path: bytes): Entry {
    if path in locks then locks[path] else Entry(0, [])
  }

  function Pruned(e: Entry, now: u64): Entry {
    e.(holders := Live(e.holders, now))
  }

  function Acquire(locks: LockMap, path: bytes, id: string, max: u32, ttl: u32, info: string, now: u64): (LockMap, Acquired) {
    if AncestorConflict(locks, path) || DescendantConflict(locks, path) then (locks, Acquired(false, 0, max, []))
    else
      var (e, ok) := Admit(Pruned(EntryAt(locks, path), now), id, max, Holder(id, info, now, SaturatingAdd(now, ttl)));
      (locks[path := e], Report(e, ok))
  }

  function Release(locks: LockMap, path: bytes, id: string): (LockMap, bool) {
    if path !in locks then (locks, false)
    else
      var hs := Without(locks[path].holders, id);
      (if hs == [] then locks - {path} else locks[path := locks[path].(holders := hs)], |hs| < |locks[path].holders|)
  }

  function Force(locks: LockMap, path: bytes): (LockMap, bool) {
    (locks - {path}, path in locks)
  }

  function Extend(locks: LockMap, path: bytes, id: string, ttl: u32, now: u64): (LockMap, bool) {
    if path !in locks then (locks, false)
    else
      var e := Pruned(locks[path], now);
      var i := IndexOf(e.holders, id);
      if i.Some? then
        (locks[path := e.(holders := e.holders[i.value := e.holders[i.value].(expires := SaturatingAdd(now, ttl))])], true)
      else (if e.holders == [] then locks - {path} else locks[path := e], false)
  }

  /** No expired holder and no empty entry is left. */
  function Collect(locks: LockMap, now: u64): LockMap {
    map path | path in locks && Live(locks[path].holders, now) != [] :: Pruned(locks[path], now)
  }

  // ── The state and its methods ──────────────────────────────────────────

  method RetainLive(hs: seq<Holder>, now: u64) returns (kept: seq<Holder>)
    ensures kept == Live(hs, now)
  {
    kept := [];
    var i := 0;
    while i < |hs|
      invariant 0 <= i <= |hs| && kept == Live(hs[..i], now)
    {
      assert hs[..i + 1][..i] == hs[..i];
      if hs[i].expires > now {
        kept := kept + [hs[i]];
      }
      i := i + 1;
    }
    assert hs[..i] == hs;
  }

  method RetainOthers(hs: seq<Holder>, id: string) returns (kept: seq<Holder>)
    ensures kept == Without(hs, id)
  {
    kept := [];
    var i := 0;
    while i < |hs|
      invariant 0 <= i <= |hs| && kept == Without(hs[..i], id)
    {
      assert hs[..i + 1][..i] == hs[..i];
      if hs[i].id != id {
        kept := kept + [hs[i]];
      }
      i := i + 1;
    }
    assert hs[..i] == hs;
  }

  lemma {:induction false} IndexFrom(hs: seq<Holder>, id: string, i: nat)
    requires i <= |hs| && forall k | 0 <= k < i :: hs[k].id != id
    ensures i < |hs| && hs[i].id == id ==> IndexOf(hs, id) == Some(i)
    ensures i == |hs| ==> IndexOf(hs, id) == None
  {
    if i > 0 {
      IndexFrom(hs[1..], id, i - 1);
    }
  }

  method FindHolder(hs: seq<Holder>, id: string) returns (found: Option<nat>)
    ensures found == IndexOf(hs, id)
  {
    var i := 0;
    while i < |hs|
      invariant 0 <= i <= |hs| && forall k | 0 <= k < i :: hs[k].id != id
    {
      if hs[i].id == id {
        IndexFrom(hs, id, i);
        return Some(i);
      }
      i := i + 1;
    }
    IndexFrom(hs, id, i);
    found := None;
  }

  class LockState {
    var locks: LockMap

    constructor ()
      ensures locks == map[]
    {
      locks := map[];
    }

    /** Whether a strict ancestor is held. */
    method HasAncestorConflict(path: bytes) returns (conflict: bool)
      ensures conflict == AncestorConflict(locks, path)
    {
      var ancestors := CollectAncestors(path);
      var i := 0;
      while i < |ancestors|
        invariant 0 <= i <= |ancestors|
        invariant forall k | 0 <= k < i :: !Held(locks, ancestors[k])
      {
        if Held(locks, ancestors[i]) {
          return true;
        }
        i := i + 1;
      }
      conflict := false;
    }

    method ApplyAcquire(path: bytes, id: string, max: u32, ttl: u32, info: string, now: u64) returns (r: Acquired)
      modifies this
      ensures (locks, r) == Acquire(old(locks), path, id, max, ttl, info, now)
    {
      var above := HasAncestorConflict(path);
      if above || DescendantConflict(locks, path) {
        return Acquired(false, 0, max, []);
      }
      var expires := SaturatingAdd(now, ttl);
      var entry := EntryAt(locks, path);
      var live := RetainLive(entry.holders, now);
      entry := entry.(holders := live);
      var i := FindHolder(live, id);
      if i.Some? {
        entry := entry.(holders := live[i.value := live[i.value].(expires := expires)]);
        locks := locks[path := entry];
        return Report(entry, true);
      }
      if entry.holders == [] {
        entry := entry.(max := max);
      } else if entry.max != max {
        locks := locks[path := entry];
        return Report(entry, false);
      }
      if Truncate(|entry.holders|) < entry.max {
        entry := entry.(holders := entry.holders + [Holder(id, info, now, expires)]);
        locks := locks[path := entry];
        r := Report(entry, true);
      } else {
        locks := locks[path := entry];
        r := Report(entry, false);
      }
    }

    method ApplyRelease(path: bytes, id: string) returns (removed: bool)
      modifies this
      ensures (locks, removed) == Release(old(locks), path, id)
    {
      if path !in locks {
        return false;
      }
      var entry := locks[path];
      var kept := RetainOthers(entry.holders, id);
      removed := |kept| < |entry.holders|;
      locks := if kept == [] then locks - {path} else locks[path := entry.(holders := kept)];
    }

    method ApplyForceRelease(path: bytes) returns (existed: bool)
      modifies this
      ensures (locks, existed) == Force(old(locks), path)
    {
      existed := path in locks;
      locks := locks - {path};
    }

    method ApplyExtend(path: bytes, id: string, ttl: u32, now: u64) returns (extended: bool)
      modifies this
      ensures (locks, extended) == Extend(old(locks), path, id, ttl, now)
    {
      var expires := SaturatingAdd(now, ttl);
      if path !in locks {
        return false;
      }
      var live := RetainLive(locks[path].holders, now);
      var entry := locks[path].(holders := live);
      var i := FindHolder(live, id);
      if i.Some? {
        locks := locks[path := entry.(holders := live[i.value := live[i.value].(expires := expires)])];
        return true;
      }
      locks := if live == [] then locks - {path} else locks[path := entry];
      extended := false;
    }

    /** Visits every entry once, dropping expired holders and then empty entries. */
    method GcExpired(now: u64)
      modifies this
      ensures locks == Collect(old(locks), now)
    {
      var left, kept: LockMap := locks.Keys, map[];
      while left != {}
        invariant left <= locks.Keys && locks == old(locks)
        invariant kept == map path | path in locks && path !in left && Live(locks[path].holders, now) != []
                          :: Pruned(locks[path], now)
        decreases left
      {
        var path :| path in left;
        var live := RetainLive(locks[path].holders, now);
        if live != [] {
          kept := kept[path := locks[path].(holders := live)];
        }
        left := left - {path};
      }
      locks := kept;
    }
  }
}
