/** What every run of lock commands keeps, and what a lease is worth to its holder. */
module LockRuns {
  import opened Bytes
  import opened LockPaths
  import opened Locks

  // ── Holders ────────────────────────────────────────────────────────────

  ghost predicate Distinct(hs: seq<Holder>) {
    forall i, j | 0 <= i < j < |hs| :: hs[i].id != hs[j].id
  }

  /** Distinct lock ids, and at most as many holders as the entry allows. */
  ghost predicate Sound(e: Entry) {
    Distinct(e.holders) && |e.holders| <= e.max
  }

  lemma {:induction false} LiveOnly(hs: seq<Holder>, now: u64, h: Holder)
    ensures h in Live(hs, now) <==> h in hs && h.expires > now
  {
    if hs != [] {
      var front, last := hs[..|hs| - 1], hs[|hs| - 1];
      LiveOnly(front, now, h);
      assert hs == front + [last];
    }
  }

  lemma {:induction false} LiveSound(hs: seq<Holder>, now: u64)
    requires Distinct(hs)
    ensures Distinct(Live(hs, now)) && |Live(hs, now)| <= |hs|
  {
    if hs != [] {
      var front, last := hs[..|hs| - 1], hs[|hs| - 1];
      LiveSound(front, now);
      forall i | 0 <= i < |Live(front, now)| ensures Live(front, now)[i].id != last.id {
        LiveOnly(front, now, Live(front, now)[i]);
      }
    }
  }

  lemma {:induction false} WithoutOnly(hs: seq<Holder>, id: string, h: Holder)
    ensures h in Without(hs, id) <==> h in hs && h.id != id
  {
    if hs != [] {
      var front, last := hs[..|hs| - 1], hs[|hs| - 1];
      WithoutOnly(front, id, h);
      assert hs == front + [last];
    }
  }

  lemma {:induction false} WithoutSound(hs: seq<Holder>, id: string)
    requires Distinct(hs)
    ensures Distinct(Without(hs, id)) && |Without(hs, id)| <= |hs|
  {
    if hs != [] {
      var front, last := hs[..|hs| - 1], hs[|hs| - 1];
      WithoutSound(front, id);
      forall i | 0 <= i < |Without(front, id)| ensures Without(front, id)[i].id != last.id {
        WithoutOnly(front, id, Without(front, id)[i]);
      }
    }
  }

  lemma PrunedSound(e: Entry, now: u64)
    requires Sound(e)
    ensures Sound(Pruned(e, now))
    ensures Pruned(e, now).holders != [] ==> e.holders != []
  {
    LiveSound(e.holders, now);
  }

  lemma AdmitSound(e: Entry, id: string, max: u32, h: Holder)
    requires Sound(e) && h.id == id
    ensures Sound(Admit(e, id, max, h).0)
    ensures Admit(e, id, max, h).1 ==> exists k :: 0 <= k < |Admit(e, id, max, h).0.holders|
                                                && Admit(e, id, max, h).0.holders[k].id == id
                                                && Admit(e, id, max, h).0.holders[k].expires == h.expires
    ensures !Admit(e, id, max, h).1 && Admit(e, id, max, h).0.holders != [] ==> e.holders != []
  {
    var (e', ok) := Admit(e, id, max, h);
    var i := IndexOf(e.holders, id);
    if i.Some? {
      assert e'.holders[i.value].id == id;
    } else if ok {
      assert e'.holders[|e'.holders| - 1] == h;
    }
  }

  // ── Commands and states ────────────────────────────────────────────────

  datatype Command =
    | AcquireLock(path: bytes, id: string, max: u32, ttl: u32, info: string, now: u64)
    | ReleaseLock(path: bytes, id: string)
    | ForceRelease(path: bytes)
    | ExtendLock(path: bytes, id: string, ttl: u32, now: u64)
    | CollectExpired(now: u64)

  function Step(locks: LockMap, c: Command): LockMap {
    match c
    case AcquireLock(path, id, max, ttl, info, now) => Acquire(locks, path, id, max, ttl, info, now).0
    case ReleaseLock(path, id) => Release(locks, path, id).0
    case ForceRelease(path) => Force(locks, path).0
    case ExtendLock(path, id, ttl, now) => Extend(locks, path, id, ttl, now).0
    case CollectExpired(now) => Collect(locks, now)
  }

  /** No two held paths are one above the other. */
  ghost predicate Exclusive(locks: LockMap) {
    forall p, q | Held(locks, p) && Held(locks, q) :: !IsAncestor(p, q)
  }

  ghost predicate Inv(locks: LockMap) {
    && (forall p | p in locks :: Normalized(p) && Sound(locks[p]))
    && Exclusive(locks)
  }

  /** Every held path of the new state was held before, or is `path`, which then stands in nobody's way. */
  lemma HeldKept(locks: LockMap, locks': LockMap, path: bytes)
    requires Exclusive(locks)
    requires forall p | p != path && Held(locks', p) :: Held(locks, p)
    requires Held(locks', path) ==>
               Held(locks, path) || forall p | Held(locks, p) :: !IsAncestor(p, path) && !IsAncestor(path, p)
    ensures Exclusive(locks')
  {
  }

  /** The two conflict checks together see every held path above or below. */
  lemma ConflictFree(locks: LockMap, path: bytes, p: bytes)
    requires (forall q | q in locks :: Normalized(q)) && Normalized(path)
    requires !AncestorConflict(locks, path) && !DescendantConflict(locks, path) && Held(locks, p)
    ensures !IsAncestor(p, path) && !IsAncestor(path, p)
  {
    AncestorsExact(p, path);
    AncestorsExact(path, p);
    ChecksAgree(path, p);
  }

  lemma AcquireKeeps(locks: LockMap, path: bytes, id: string, max: u32, ttl: u32, info: string, now: u64)
    requires Inv(locks) && Normalized(path)
    ensures Inv(Acquire(locks, path, id, max, ttl, info, now).0)
  {
    if !AncestorConflict(locks, path) && !DescendantConflict(locks, path) {
      var locks' := Acquire(locks, path, id, max, ttl, info, now).0;
      PrunedSound(EntryAt(locks, path), now);
      AdmitSound(Pruned(EntryAt(locks, path), now), id, max, Holder(id, info, now, SaturatingAdd(now, ttl)));
      forall p | Held(locks, p) ensures !IsAncestor(p, path) && !IsAncestor(path, p) {
        ConflictFree(locks, path, p);
      }
      HeldKept(locks, locks', path);
    }
  }

  lemma ExtendKeeps(locks: LockMap, path: bytes, id: string, ttl: u32, now: u64)
    requires Inv(locks)
    ensures Inv(Extend(locks, path, id, ttl, now).0)
  {
    if path in locks {
      PrunedSound(locks[path], now);
      HeldKept(locks, Extend(locks, path, id, ttl, now).0, path);
    }
  }

  lemma CollectKeeps(locks: LockMap, now: u64)
    requires Inv(locks)
    ensures Inv(Collect(locks, now))
  {
    forall p | p in Collect(locks, now) ensures Sound(Collect(locks, now)[p]) && locks[p].holders != [] {
      PrunedSound(locks[p], now);
    }
  }

  lemma StepKeeps(locks: LockMap, c: Command)
    requires Inv(locks) && (c.AcquireLock? ==> Normalized(c.path))
    ensures Inv(Step(locks, c))
  {
    match c
    case AcquireLock(path, id, max, ttl, info, now) => AcquireKeeps(locks, path, id, max, ttl, info, now);
    case ReleaseLock(path, id) =>
      if path in locks {
        WithoutSound(locks[path].holders, id);
      }
    case ForceRelease(path) =>
    case ExtendLock(path, id, ttl, now) => ExtendKeeps(locks, path, id, ttl, now);
    case CollectExpired(now) => CollectKeeps(locks, now);
  }

  ghost predicate IsRun(states: seq<LockMap>, cs: seq<Command>) {
    && |states| == |cs| + 1 && states[0] == map[]
    && (forall i | 0 <= i < |cs| :: states[i + 1] == Step(states[i], cs[i]))
    && (forall i | 0 <= i < |cs| :: cs[i].AcquireLock? ==> Normalized(cs[i].path))
  }

  /** In every reachable state: hierarchical exclusion, distinct lock ids, and no more holders than allowed. */
  lemma {:induction false} ReachableKeeps(states: seq<LockMap>, cs: seq<Command>, i: nat)
    requires IsRun(states, cs) && i < |states|
    ensures Inv(states[i])
  {
    if i > 0 {
      ReachableKeeps(states, cs, i - 1);
      StepKeeps(states[i - 1], cs[i - 1]);
      assert states[i] == Step(states[i - 1], cs[i - 1]);
    }
  }
}
