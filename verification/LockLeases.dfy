/** Leases over whole runs, collection of expired holders, and where renewal fails. */
module LockLeases {
  import opened Bytes
  import opened LockPaths
  import opened Locks
  import opened LockRuns

  // ── An acquire harms no one else ───────────────────────────────────────

  ghost predicate Holds(locks: LockMap, path: bytes, h: Holder) {
    path in locks && h in locks[path].holders
  }

  lemma AdmitKeeps(e: Entry, id: string, max: u32, n: Holder, h: Holder)
    requires h in e.holders && h.id != id
    ensures h in Admit(e, id, max, n).0.holders
  {
    var k :| 0 <= k < |e.holders| && e.holders[k] == h;
    var (e', _) := Admit(e, id, max, n);
    assert e'.holders[k] == h;
  }

  /** Whatever an acquire comes to, every other lease that is not over stands as it did. */
  lemma AcquireHarmless(locks: LockMap, path: bytes, id: string, max: u32, ttl: u32, info: string, now: u64,
                        p: bytes, h: Holder)
    requires Holds(locks, p, h) && h.expires > now && (p != path || h.id != id)
    ensures Holds(Acquire(locks, path, id, max, ttl, info, now).0, p, h)
  {
    if p == path && !AncestorConflict(locks, path) && !DescendantConflict(locks, path) {
      LiveOnly(locks[path].holders, now, h);
      AdmitKeeps(Pruned(locks[path], now), id, max, Holder(id, info, now, SaturatingAdd(now, ttl)), h);
    }
  }

  /**
   What an acquire leaves and what it tells: refused for a held path in the way,
   nothing changes and nothing is told; otherwise the other holders of the path
   stay unless expired, other paths stay, and the caller is told who holds the
   path now.
   */
  lemma AcquireTells(locks: LockMap, path: bytes, id: string, max: u32, ttl: u32, info: string, now: u64, p: bytes, h: Holder)
    requires Inv(locks) && Normalized(path) && h.id != id
    ensures
      var (locks', r) := Acquire(locks, path, id, max, ttl, info, now);
      if exists q :: Held(locks, q) && InTheWay(q, path)
      then locks' == locks && r == Acquired(false, 0, max, [])
      else
        && (Holds(locks', p, h) <==> Holds(locks, p, h) && (p == path ==> h.expires > now))
        && path in locks' && r.holders == locks'[path].holders && r.max == locks'[path].max
        && r.current == |r.holders| % 0x1_0000_0000
        && (r.acquired <==> exists g :: Holds(locks', path, g) && g.id == id)
  {
    ConflictExact(locks, path);
    if !AncestorConflict(locks, path) && !DescendantConflict(locks, path) {
      var e := Pruned(EntryAt(locks, path), now);
      PrunedSound(EntryAt(locks, path), now);
      LiveOnly(EntryAt(locks, path).holders, now, h);
      AdmitLeaves(e, id, max, Holder(id, info, now, SaturatingAdd(now, ttl)), h);
    }
  }

  lemma AdmitLeaves(e: Entry, id: string, max: u32, n: Holder, h: Holder)
    requires Distinct(e.holders) && n.id == id && h.id != id
    ensures h in Admit(e, id, max, n).0.holders <==> h in e.holders
    ensures Admit(e, id, max, n).1 <==> exists g :: g in Admit(e, id, max, n).0.holders && g.id == id
  {
    var i := IndexOf(e.holders, id);
    var (e', ok) := Admit(e, id, max, n);
    if i.Some? {
      RenewedHolders(e.holders, i.value, n.expires, h);
      assert e'.holders[i.value].id == id;
    } else if ok {
      assert n in e'.holders;
    }
  }

  /** A new holder is recorded as it asked, from now; one that renews keeps its record but for the expiry. */
  lemma AcquireRecords(locks: LockMap, path: bytes, id: string, max: u32, ttl: u32, info: string, now: u64, g: Holder)
    requires Inv(locks) && Holds(Acquire(locks, path, id, max, ttl, info, now).0, path, g) && g.id == id
    requires Acquire(locks, path, id, max, ttl, info, now).1.acquired
    ensures g.expires == Min(now + ttl, 0xFFFF_FFFF_FFFF_FFFF)
    ensures || g == Holder(id, info, now, g.expires)
            || exists was :: Holds(locks, path, was) && was.expires > now && g == was.(expires := g.expires)
    ensures (exists was :: Holds(locks, path, was) && was.id == id && was.expires > now) ==>
      exists was :: Holds(locks, path, was) && was.expires > now && g == was.(expires := g.expires)
  {
    var hs := EntryAt(locks, path).holders;
    var e, n := Pruned(EntryAt(locks, path), now), Holder(id, info, now, SaturatingAdd(now, ttl));
    PrunedSound(EntryAt(locks, path), now);
    var i := IndexOf(e.holders, id);
    if i.Some? {
      var was := e.holders[i.value];
      RenewedHolders(e.holders, i.value, n.expires, g);
      LiveOnly(hs, now, was);
      assert Holds(locks, path, was) && g == was.(expires := g.expires);
    } else {
      NewHolder(e, id, max, n, g);
      forall was | Holds(locks, path, was) && was.expires > now ensures was.id != id {
        LiveOnly(hs, now, was);
        var k :| 0 <= k < |e.holders| && e.holders[k] == was;
      }
    }
  }

  lemma NewHolder(e: Entry, id: string, max: u32, n: Holder, g: Holder)
    requires n.id == id && IndexOf(e.holders, id).None? && g in Admit(e, id, max, n).0.holders && g.id == id
    ensures g == n
  {
  }

  /** A release takes the named holder away from the path and changes nothing else. */
  lemma ReleaseExact(locks: LockMap, path: bytes, id: string, p: bytes, h: Holder)
    ensures Holds(Release(locks, path, id).0, p, h) <==> Holds(locks, p, h) && !(p == path && h.id == id)
    ensures Release(locks, path, id).1 <==> exists g :: Holds(locks, path, g) && g.id == id
  {
    if path in locks {
      WithoutOnly(locks[path].holders, id, h);
      WithoutCount(locks[path].holders, id);
    }
  }

  lemma {:induction false} WithoutCount(hs: seq<Holder>, id: string)
    ensures |Without(hs, id)| <= |hs|
    ensures |Without(hs, id)| < |hs| <==> exists g :: g in hs && g.id == id
  {
    if hs != [] {
      var front, last := hs[..|hs| - 1], hs[|hs| - 1];
      WithoutCount(front, id);
      assert hs == front + [last];
    }
  }

  /** A forced release takes away every holder of the path, and says whether there was an entry. */
  lemma ForceExact(locks: LockMap, path: bytes, p: bytes, h: Holder)
    ensures Holds(Force(locks, path).0, p, h) <==> Holds(locks, p, h) && p != path
    ensures Force(locks, path).1 <==> path in locks
  {
  }

  /** Collecting takes away the holders whose lease is over, and no one else; what is left is held. */
  lemma CollectExact(locks: LockMap, now: u64, p: bytes, h: Holder)
    ensures Holds(Collect(locks, now), p, h) <==> Holds(locks, p, h) && h.expires > now
    ensures p in Collect(locks, now) ==> Held(Collect(locks, now), p)
  {
    if p in locks {
      LiveOnly(locks[p].holders, now, h);
    }
  }

  /** Renewing position `i` leaves every other holder as it was. */
  lemma RenewedHolders(hs: seq<Holder>, i: nat, expires: u64, h: Holder)
    requires Distinct(hs) && i < |hs|
    ensures h in hs[i := hs[i].(expires := expires)] <==> h == hs[i].(expires := expires) || (h in hs && h.id != hs[i].id)
  {
    var hs' := hs[i := hs[i].(expires := expires)];
    assert hs'[i] == hs[i].(expires := expires);
    if h in hs && h.id != hs[i].id {
      var k :| 0 <= k < |hs| && hs[k] == h;
      assert hs'[k] == h;
    }
  }

  /** An extension moves the named holder's expiry and drops the path's expired holders; other paths stay as they are. */
  lemma ExtendExact(locks: LockMap, path: bytes, id: string, ttl: u32, now: u64, p: bytes, h: Holder)
    requires Inv(locks) && h.id != id
    ensures Holds(Extend(locks, path, id, ttl, now).0, p, h) <==> Holds(locks, p, h) && (p == path ==> h.expires > now)
    ensures Extend(locks, path, id, ttl, now).1 <==> exists g :: Holds(locks, path, g) && g.id == id && g.expires > now
  {
    if path in locks {
      var hs := locks[path].holders;
      var live := Live(hs, now);
      var i := IndexOf(live, id);
      LiveOnly(hs, now, h);
      LiveSound(hs, now);
      if i.Some? {
        LiveOnly(hs, now, live[i.value]);
        RenewedHolders(live, i.value, SaturatingAdd(now, ttl), h);
        assert Holds(locks, path, live[i.value]);
      } else {
        forall g | Holds(locks, path, g) && g.expires > now ensures g.id != id {
          LiveOnly(hs, now, g);
          var k :| 0 <= k < |live| && live[k] == g;
        }
      }
    }
  }

  /** An extended lease runs from now. */
  lemma ExtendRenews(locks: LockMap, path: bytes, id: string, ttl: u32, now: u64)
    requires Extend(locks, path, id, ttl, now).1
    ensures exists h :: Holds(Extend(locks, path, id, ttl, now).0, path, h) && h.id == id
                        && h.expires == Min(now + ttl, 0xFFFF_FFFF_FFFF_FFFF)
  {
    var live := Live(locks[path].holders, now);
    var i := IndexOf(live, id).value;
    var h := live[i].(expires := SaturatingAdd(now, ttl));
    assert Extend(locks, path, id, ttl, now).0[path].holders[i] == h;
    assert Holds(Extend(locks, path, id, ttl, now).0, path, h);
  }

  /** A lock on `p` stands in the way of one on `path`: above it, below it, or the root in its own. */
  predicate InTheWay(p: bytes, path: bytes) {
    IsAncestor(p, path) || IsAncestor(path, p) || (p == ROOT && path == ROOT)
  }

  /** The caller holds the path, or nobody does and there is room at all, or there is room left of the shape agreed on. */
  ghost predicate HasRoom(e: Entry, id: string, max: u32, now: u64) {
    var live := Live(e.holders, now);
    || (exists h :: h in live && h.id == id)
    || (|live| < (if live == [] then max else e.max) && (live == [] || max == e.max))
  }

  /** An acquire succeeds exactly when no held path is in the way and there is room. */
  lemma AcquireExact(locks: LockMap, path: bytes, id: string, max: u32, ttl: u32, info: string, now: u64)
    requires Inv(locks) && Normalized(path)
    ensures Acquire(locks, path, id, max, ttl, info, now).1.acquired
       <==> (forall p | Held(locks, p) :: !InTheWay(p, path)) && HasRoom(EntryAt(locks, path), id, max, now)
  {
    ConflictExact(locks, path);
    PrunedSound(EntryAt(locks, path), now);
    AdmitExact(Pruned(EntryAt(locks, path), now), id, max, Holder(id, info, now, SaturatingAdd(now, ttl)));
  }

  lemma AdmitExact(e: Entry, id: string, max: u32, n: Holder)
    requires Sound(e)
    ensures Admit(e, id, max, n).1
       <==> || (exists h :: h in e.holders && h.id == id)
            || (|e.holders| < (if e.holders == [] then max else e.max) && (e.holders == [] || max == e.max))
  {
    var i := IndexOf(e.holders, id);
    if i.Some? {
      assert e.holders[i.value] in e.holders;
    }
  }

  /** The two checks find a conflict exactly when a held path is above or below, or the path is the held root. */
  lemma ConflictExact(locks: LockMap, path: bytes)
    requires Inv(locks) && Normalized(path)
    ensures AncestorConflict(locks, path) || DescendantConflict(locks, path)
       <==> (exists p :: Held(locks, p) && (IsAncestor(p, path) || IsAncestor(path, p))) || (path == ROOT && Held(locks, ROOT))
  {
    if AncestorConflict(locks, path) {
      var a :| a in Ancestors(path) && Held(locks, a);
      AncestorsExact(a, path);
    } else if DescendantConflict(locks, path) {
      var key :| key in locks && InRange(path, key) && Held(locks, key);
      ChecksAgree(path, key);
      AncestorsExact(path, key);
    } else {
      forall p | Held(locks, p) ensures !IsAncestor(p, path) && !IsAncestor(path, p) {
        ConflictFree(locks, path, p);
      }
      ChecksAgree(path, path);
    }
    if p :| Held(locks, p) && (IsAncestor(p, path) || IsAncestor(path, p)) {
      AncestorsExact(p, path);
      AncestorsExact(path, p);
      ChecksAgree(path, p);
    }
    if path == ROOT && Held(locks, ROOT) {
      ChecksAgree(ROOT, ROOT);
    }
  }

  // ── Leases hold ────────────────────────────────────────────────────────

  /** The path has room for one holder, and `id` holds it until `expires`. */
  ghost predicate Leased(locks: LockMap, path: bytes, id: string, expires: u64) {
    && path in locks && locks[path].max == 1 && |locks[path].holders| == 1
    && locks[path].holders[0].id == id && locks[path].holders[0].expires == expires
  }

  function Clock(c: Command): Option<u64> {
    match c
    case AcquireLock(_, _, _, _, _, now) => Some(now)
    case ExtendLock(_, _, _, now) => Some(now)
    case CollectExpired(now) => Some(now)
    case _ => None
  }

  /** The command is the holder's own, or takes the lock away by force. */
  predicate Disturbs(c: Command, path: bytes, id: string) {
    match c
    case AcquireLock(p, i, _, _, _, _) => p == path && i == id
    case ReleaseLock(p, i) => p == path && i == id
    case ForceRelease(p) => p == path
    case ExtendLock(p, i, _, _) => p == path && i == id
    case CollectExpired(_) => false
  }

  lemma OneLive(hs: seq<Holder>, now: u64)
    requires |hs| == 1
    ensures Live(hs, now) == if hs[0].expires > now then hs else []
  {
    assert hs[..0] == [];
  }

  lemma OneOther(hs: seq<Holder>, id: string)
    requires |hs| == 1
    ensures Without(hs, id) == if hs[0].id != id then hs else []
  {
    assert hs[..0] == [];
  }

  /** A one-holder entry with a live holder admits no one else. */
  lemma AdmitsNoOther(e: Entry, id: string, max: u32, n: Holder)
    requires e.max == 1 && |e.holders| == 1 && e.holders[0].id != id
    ensures Admit(e, id, max, n) == (e, false)
  {
  }

  lemma LeaseAcquire(locks: LockMap, p: bytes, i: string, max: u32, ttl: u32, info: string, now: u64,
                     path: bytes, id: string, expires: u64)
    requires Leased(locks, path, id, expires) && !(p == path && i == id) && now < expires
    ensures Leased(Acquire(locks, p, i, max, ttl, info, now).0, path, id, expires)
    ensures p == path ==> !Acquire(locks, path, i, max, ttl, info, now).1.acquired
  {
    if p == path {
      OneLive(locks[path].holders, now);
      AdmitsNoOther(Pruned(locks[path], now), i, max, Holder(i, info, now, SaturatingAdd(now, ttl)));
    }
  }

  lemma LeaseExtend(locks: LockMap, p: bytes, i: string, ttl: u32, now: u64, path: bytes, id: string, expires: u64)
    requires Leased(locks, path, id, expires) && !(p == path && i == id) && now < expires
    ensures Leased(Extend(locks, p, i, ttl, now).0, path, id, expires)
  {
    if p == path {
      OneLive(locks[path].holders, now);
    }
  }

  /** Before its expiry, a lease outlives everything but its holder's own commands and force. */
  lemma LeaseStep(locks: LockMap, c: Command, path: bytes, id: string, expires: u64)
    requires Leased(locks, path, id, expires) && !Disturbs(c, path, id)
    requires Clock(c).Some? ==> Clock(c).value < expires
    ensures Leased(Step(locks, c), path, id, expires)
    ensures c.AcquireLock? && c.path == path ==> !Acquire(locks, path, c.id, c.max, c.ttl, c.info, c.now).1.acquired
  {
    var hs := locks[path].holders;
    match c
    case AcquireLock(p, i, max, ttl, info, now) => LeaseAcquire(locks, p, i, max, ttl, info, now, path, id, expires);
    case ReleaseLock(p, i) => OneOther(hs, i);
    case ForceRelease(p) =>
    case ExtendLock(p, i, ttl, now) => LeaseExtend(locks, p, i, ttl, now, path, id, expires);
    case CollectExpired(now) => OneLive(hs, now);
  }

  ghost predicate Quiet(cs: seq<Command>, i: nat, j: nat, path: bytes, id: string)
    requires i <= j <= |cs|
  {
    forall k | i <= k < j :: !Disturbs(cs[k], path, id)
  }

  ghost predicate Before(cs: seq<Command>, i: nat, j: nat, expires: u64)
    requires i <= j <= |cs|
  {
    forall k | i <= k < j :: Clock(cs[k]).Some? ==> Clock(cs[k]).value < expires
  }

  lemma {:induction false} LeaseRun(states: seq<LockMap>, cs: seq<Command>, i: nat, j: nat, path: bytes, id: string, expires: u64)
    requires IsRun(states, cs) && i <= j <= |cs| && Leased(states[i], path, id, expires)
    requires Quiet(cs, i, j, path, id) && Before(cs, i, j, expires)
    ensures Leased(states[j], path, id, expires)
  {
    if i < j {
      LeaseRun(states, cs, i, j - 1, path, id, expires);
      LeaseStep(states[j - 1], cs[j - 1], path, id, expires);
      assert states[j] == Step(states[j - 1], cs[j - 1]);
    }
  }

  /** A successful acquire of a one-holder path is a lease until its expiry. */
  lemma AcquireLeases(locks: LockMap, path: bytes, id: string, max: u32, ttl: u32, info: string, now: u64)
    requires Inv(locks)
    requires
      var r := Acquire(locks, path, id, max, ttl, info, now).1;
      r.acquired && r.max == 1
    ensures Leased(Acquire(locks, path, id, max, ttl, info, now).0, path, id, Min(now + ttl, 0xFFFF_FFFF_FFFF_FFFF))
  {
    PrunedSound(EntryAt(locks, path), now);
    AdmitSound(Pruned(EntryAt(locks, path), now), id, max, Holder(id, info, now, SaturatingAdd(now, ttl)));
  }

  /**
   Leases hold over whole runs: if two different ids both acquire a one-holder
   path, the first holder doing nothing further and no one releasing it, then
   some later command, up to the second acquire itself, carried a clock at or
   past the first lease's expiry.
   */
  lemma LeaseTheorem(states: seq<LockMap>, cs: seq<Command>, i: nat, j: nat) returns (k: nat)
    requires IsRun(states, cs) && i < j < |cs| && cs[i].AcquireLock? && cs[j].AcquireLock?
    requires cs[j].path == cs[i].path && cs[j].id != cs[i].id && Quiet(cs, i + 1, j, cs[i].path, cs[i].id)
    requires
      var r := Acquire(states[i], cs[i].path, cs[i].id, cs[i].max, cs[i].ttl, cs[i].info, cs[i].now).1;
      r.acquired && r.max == 1
    requires Acquire(states[j], cs[j].path, cs[j].id, cs[j].max, cs[j].ttl, cs[j].info, cs[j].now).1.acquired
    ensures i < k <= j && Clock(cs[k]).Some? && Clock(cs[k]).value >= Min(cs[i].now + cs[i].ttl, 0xFFFF_FFFF_FFFF_FFFF)
  {
    var path, id, expires := cs[i].path, cs[i].id, SaturatingAdd(cs[i].now, cs[i].ttl);
    ReachableKeeps(states, cs, i);
    AcquireLeases(states[i], path, id, cs[i].max, cs[i].ttl, cs[i].info, cs[i].now);
    assert states[i + 1] == Step(states[i], cs[i]);
    if Before(cs, i + 1, j + 1, expires) {
      assert Before(cs, i + 1, j, expires);
      LeaseRun(states, cs, i + 1, j, path, id, expires);
      LeaseStep(states[j], cs[j], path, id, expires);
      assert false;
    }
    k :| i + 1 <= k < j + 1 && !(Clock(cs[k]).Some? ==> Clock(cs[k]).value < expires);
  }

  /** A lease of any entry, whatever its capacity, outlives a command that is not its holder's nor force nor too late. */
  lemma HoldStep(locks: LockMap, c: Command, path: bytes, h: Holder)
    requires Inv(locks) && Holds(locks, path, h) && !Disturbs(c, path, h.id)
    requires Clock(c).Some? ==> Clock(c).value < h.expires
    ensures Holds(Step(locks, c), path, h)
  {
    match c
    case AcquireLock(p, i, max, ttl, info, now) => AcquireHarmless(locks, p, i, max, ttl, info, now, path, h);
    case ReleaseLock(p, i) => ReleaseExact(locks, p, i, path, h);
    case ForceRelease(p) =>
    case ExtendLock(p, i, ttl, now) =>
      if p == path {
        ExtendExact(locks, p, i, ttl, now, path, h);
      }
    case CollectExpired(now) => CollectExact(locks, now, path, h);
  }

  /**
   A lease is lost only through its holder's own command, by force, or to a
   command whose clock is at or past its expiry: over every run, on every path
   and at every capacity.
   */
  lemma {:induction false} LeaseLost(states: seq<LockMap>, cs: seq<Command>, i: nat, j: nat, path: bytes, h: Holder) returns (k: nat)
    requires IsRun(states, cs) && i <= j <= |cs| && Holds(states[i], path, h) && !Holds(states[j], path, h)
    ensures i <= k < j
    ensures Disturbs(cs[k], path, h.id) || (Clock(cs[k]).Some? && Clock(cs[k]).value >= h.expires)
  {
    k := j - 1;
    if Holds(states[k], path, h) {
      ReachableKeeps(states, cs, k);
      assert states[j] == Step(states[k], cs[k]);
      if !Disturbs(cs[k], path, h.id) && (Clock(cs[k]).Some? ==> Clock(cs[k]).value < h.expires) {
        HoldStep(states[k], cs[k], path, h);
      }
    } else {
      k := LeaseLost(states, cs, i, k, path, h);
    }
  }

  // ── Collecting expired holders ─────────────────────────────────────────

  lemma {:induction false} LiveTwice(hs: seq<Holder>, now: u64)
    ensures Live(Live(hs, now), now) == Live(hs, now)
  {
    if hs != [] {
      var front, last := hs[..|hs| - 1], hs[|hs| - 1];
      LiveTwice(front, now);
      if last.expires > now {
        assert (Live(front, now) + [last])[..|Live(front, now)|] == Live(front, now);
      } else {
        assert Live(front, now) + [] == Live(front, now);
      }
    }
  }

  lemma {:induction false} AllLive(hs: seq<Holder>, now: u64)
    requires forall h | h in hs :: h.expires > now
    ensures Live(hs, now) == hs
  {
    if hs != [] {
      AllLive(hs[..|hs| - 1], now);
      assert hs == hs[..|hs| - 1] + [hs[|hs| - 1]];
    }
  }

  /** An empty entry is as good as none. */
  lemma AdmitEmpty(e: Entry, e': Entry, id: string, max: u32, h: Holder)
    requires e.holders == [] && e'.holders == []
    ensures Admit(e, id, max, h) == Admit(e', id, max, h)
  {
  }

  /** The acquire itself comes to the same with the expired holders gone. */
  lemma AdmitCollected(locks: LockMap, path: bytes, id: string, max: u32, h: Holder, now: u64)
    ensures Admit(Pruned(EntryAt(Collect(locks, now), path), now), id, max, h)
         == Admit(Pruned(EntryAt(locks, path), now), id, max, h)
  {
    if path in locks {
      LiveTwice(locks[path].holders, now);
      if Live(locks[path].holders, now) == [] {
        AdmitEmpty(Pruned(EntryAt(Collect(locks, now), path), now), Pruned(locks[path], now), id, max, h);
      }
    }
  }

  lemma AcquireCollected(locks: LockMap, path: bytes, id: string, max: u32, ttl: u32, info: string, now: u64)
    requires !AncestorConflict(locks, path) && !DescendantConflict(locks, path)
    ensures
      var e := Acquire(locks, path, id, max, ttl, info, now).0[path];
      Acquire(Collect(locks, now), path, id, max, ttl, info, now)
      == (Collect(locks, now)[path := e], Acquire(locks, path, id, max, ttl, info, now).1)
  {
    var c := Collect(locks, now);
    assert !AncestorConflict(c, path) && !DescendantConflict(c, path);
    AdmitCollected(locks, path, id, max, Holder(id, info, now, SaturatingAdd(now, ttl)), now);
  }

  /**
   Collecting expired holders before a successful acquire or after it gives the
   same state exactly when the new lease ends later than the clock reads.
   */
  lemma CollectCommutes(locks: LockMap, path: bytes, id: string, max: u32, ttl: u32, info: string, now: u64)
    requires Inv(locks) && Acquire(locks, path, id, max, ttl, info, now).1.acquired
    ensures Collect(Acquire(locks, path, id, max, ttl, info, now).0, now)
         == Acquire(Collect(locks, now), path, id, max, ttl, info, now).0
       <==> ttl > 0 && now < 0xFFFF_FFFF_FFFF_FFFF
  {
    var n := Holder(id, info, now, SaturatingAdd(now, ttl));
    var after := Acquire(locks, path, id, max, ttl, info, now).0;
    AcquireCollected(locks, path, id, max, ttl, info, now);
    if n.expires > now {
      NewHoldersLive(EntryAt(locks, path), id, max, n, now);
      AllLive(after[path].holders, now);
      CollectUpdated(locks, path, after[path], now);
    } else {
      PrunedSound(EntryAt(locks, path), now);
      AdmitSound(Pruned(EntryAt(locks, path), now), id, max, n);
      var k :| 0 <= k < |after[path].holders| && after[path].holders[k].expires == n.expires;
      var h := after[path].holders[k];
      LiveOnly(after[path].holders, now, h);
      assert h in after[path].holders;
      assert path in Collect(after, now) ==> h !in Collect(after, now)[path].holders;
    }
  }

  lemma CollectUpdated(locks: LockMap, path: bytes, e: Entry, now: u64)
    requires e.holders != [] && Live(e.holders, now) == e.holders
    ensures Collect(locks[path := e], now) == Collect(locks, now)[path := e]
  {
    var a, b := Collect(locks[path := e], now), Collect(locks, now)[path := e];
    forall p ensures Get(a, p) == Get(b, p) {
      CollectUpdatedAt(locks, path, e, now, p);
    }
    SameMap(a, b);
  }

  lemma CollectUpdatedAt(locks: LockMap, path: bytes, e: Entry, now: u64, p: bytes)
    requires e.holders != [] && Live(e.holders, now) == e.holders
    ensures Get(Collect(locks[path := e], now), p) == Get(Collect(locks, now)[path := e], p)
  {
    CollectAt(locks[path := e], now, p);
    CollectAt(locks, now, p);
  }

  function Get(locks: LockMap, p: bytes): Option<Entry> {
    if p in locks then Some(locks[p]) else None
  }

  /** What is left of one entry. */
  lemma CollectAt(locks: LockMap, now: u64, p: bytes)
    ensures Get(Collect(locks, now), p)
         == if p in locks && Live(locks[p].holders, now) != [] then Some(Pruned(locks[p], now)) else None
  {
  }

  lemma SameMap(a: LockMap, b: LockMap)
    requires forall p :: Get(a, p) == Get(b, p)
    ensures a == b
  {
    forall p ensures p in a <==> p in b {
      assert Get(a, p) == Get(b, p);
    }
    forall p | p in a ensures a[p] == b[p] {
      assert Get(a, p) == Get(b, p);
    }
  }

  lemma NewHoldersLive(e: Entry, id: string, max: u32, n: Holder, now: u64)
    requires n.expires > now
    ensures forall h | h in Admit(Pruned(e, now), id, max, n).0.holders :: h.expires > now
    ensures Admit(Pruned(e, now), id, max, n).1 ==> Admit(Pruned(e, now), id, max, n).0.holders != []
  {
    forall h | h in Live(e.holders, now) ensures h.expires > now {
      LiveOnly(e.holders, now, h);
    }
  }

  // ── Where the code does less than it promises ──────────────────────────

  /**
   A holder whose lease is not over renews it by acquiring again, except at the
   root: the query below `/` finds `/` itself.
   */
  lemma RenewalExact(locks: LockMap, path: bytes, h: Holder, max: u32, ttl: u32, info: string, now: u64)
    requires Inv(locks) && Holds(locks, path, h) && h.expires > now
    ensures Acquire(locks, path, h.id, max, ttl, info, now).1.acquired <==> path != ROOT
  {
    if path == ROOT {
      ChecksAgree(ROOT, ROOT);
      assert InRange(ROOT, ROOT) && Held(locks, ROOT);
    } else {
      forall a | a in Ancestors(path) && Held(locks, a) ensures false {
        AncestorsExact(a, path);
      }
      forall key | key in locks && InRange(path, key) && Held(locks, key) ensures false {
        ChecksAgree(path, key);
        AncestorsExact(path, key);
      }
      LiveOnly(locks[path].holders, now, h);
    }
  }

  /** The root once held cannot be acquired again, not even by its holder. */
  lemma RootNotRenewed()
    ensures
      var locks := Acquire(map[], ROOT, "h", 1, 60, "", 1000).0;
      Held(locks, ROOT) && !Acquire(locks, ROOT, "h", 1, 60, "", 1001).1.acquired
  {
    var empty: LockMap := map[];
    assert Ancestors(ROOT) == [] && !AncestorConflict(empty, ROOT) && !DescendantConflict(empty, ROOT);
    var e := Pruned(EntryAt(empty, ROOT), 1000);
    assert e.holders == [] && IndexOf(e.holders, "h") == None;
    var locks := Acquire(empty, ROOT, "h", 1, 60, "", 1000).0;
    assert locks[ROOT].holders == [] + [Holder("h", "", 1000, 1060)];
    ChecksAgree(ROOT, ROOT);
    assert InRange(ROOT, ROOT) && Held(locks, ROOT);
  }

  /** An acquire leaves an entry without holders behind exactly when it asks for a lock nobody may hold and nobody does. */
  lemma EmptyEntryLeft(locks: LockMap, path: bytes, id: string, max: u32, ttl: u32, info: string, now: u64)
    requires !AncestorConflict(locks, path) && !DescendantConflict(locks, path)
    ensures Acquire(locks, path, id, max, ttl, info, now).0[path].holders == []
       <==> max == 0 && Live(EntryAt(locks, path).holders, now) == []
  {
    var e := Pruned(EntryAt(locks, path), now);
    if e.holders != [] && IndexOf(e.holders, id).None? {
      assert Admit(e, id, max, Holder(id, info, now, SaturatingAdd(now, ttl))).0.holders != [];
    }
  }

  lemma RoomCollected(locks: LockMap, path: bytes, id: string, max: u32, now: u64)
    ensures HasRoom(EntryAt(Collect(locks, now), path), id, max, now) <==> HasRoom(EntryAt(locks, path), id, max, now)
  {
    if path in locks {
      LiveTwice(locks[path].holders, now);
    }
  }

  /**
   Expired leases stand in the way until they are collected: an acquire is
   refused and would succeed after collecting exactly when there is room, some
   held path is in the way, and on no such path is a lease that is not over.
   */
  lemma ExpiredInTheWay(locks: LockMap, path: bytes, id: string, max: u32, ttl: u32, info: string, now: u64)
    requires Inv(locks) && Normalized(path)
    ensures && !Acquire(locks, path, id, max, ttl, info, now).1.acquired
            && Acquire(Collect(locks, now), path, id, max, ttl, info, now).1.acquired
       <==> && HasRoom(EntryAt(locks, path), id, max, now)
            && (exists p :: Held(locks, p) && InTheWay(p, path))
            && forall p | Held(locks, p) && InTheWay(p, path) :: Live(locks[p].holders, now) == []
  {
    CollectKeeps(locks, now);
    AcquireExact(locks, path, id, max, ttl, info, now);
    AcquireExact(Collect(locks, now), path, id, max, ttl, info, now);
    RoomCollected(locks, path, id, max, now);
    forall p ensures Held(Collect(locks, now), p) <==> Held(locks, p) && Live(locks[p].holders, now) != [] {
    }
  }

  /** A lease on `/` that ended long ago keeps `/a` from being acquired. */
  lemma ExpiredCase()
    ensures
      var locks, a := Acquire(map[], ROOT, "h", 1, 60, "", 1000).0, [SLASH, 0x61];
      && !Acquire(locks, a, "g", 1, 60, "", 2000).1.acquired
      && Acquire(Collect(locks, 2000), a, "g", 1, 60, "", 2000).1.acquired
  {
    var empty: LockMap, a := map[], [SLASH, 0x61];
    assert Ancestors(ROOT) == [] && !AncestorConflict(empty, ROOT) && !DescendantConflict(empty, ROOT);
    var e := Pruned(EntryAt(empty, ROOT), 1000);
    assert e.holders == [] && IndexOf(e.holders, "h") == None;
    var locks := Acquire(empty, ROOT, "h", 1, 60, "", 1000).0;
    assert locks[ROOT].holders == [] + [Holder("h", "", 1000, 1060)];
    AcquireKeeps(empty, ROOT, "h", 1, 60, "", 1000);
    OneLive(locks[ROOT].holders, 2000);
    assert Held(locks, ROOT) && InTheWay(ROOT, a);
    ExpiredInTheWay(locks, a, "g", 1, 60, "", 2000);
  }

  /** Asking for room for no holders on a free path is such a case. */
  lemma EmptyEntryCase()
    ensures
      var (locks, r) := Acquire(map[], ROOT, "h", 0, 60, "", 1000);
      !r.acquired && ROOT in locks && locks[ROOT].holders == []
  {
    var empty: LockMap := map[];
    assert Ancestors(ROOT) == [] && !AncestorConflict(empty, ROOT) && !DescendantConflict(empty, ROOT);
    EmptyEntryLeft(empty, ROOT, "h", 0, 60, "", 1000);
  }

  /** A lease of no length is granted, and collecting after the acquire takes it away while collecting before does not. */
  lemma CollectCase()
    ensures
      var (locks, r) := Acquire(map[], ROOT, "h", 1, 0, "", 1000);
      && r.acquired && !Held(Collect(locks, 1000), ROOT)
      && Held(Acquire(Collect(map[], 1000), ROOT, "h", 1, 0, "", 1000).0, ROOT)
  {
    var empty: LockMap := map[];
    assert Collect(empty, 1000) == empty;
    assert Ancestors(ROOT) == [] && !AncestorConflict(empty, ROOT) && !DescendantConflict(empty, ROOT);
    var e := Pruned(EntryAt(empty, ROOT), 1000);
    assert e.holders == [] && IndexOf(e.holders, "h") == None;
    var locks := Acquire(empty, ROOT, "h", 1, 0, "", 1000).0;
    assert locks[ROOT].holders == [] + [Holder("h", "", 1000, 1000)];
    OneLive(locks[ROOT].holders, 1000);
  }
}
