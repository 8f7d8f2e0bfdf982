/** The token path of `provider.rs`: the gates a stored record must pass, and the cache in front of them. */
module TokenCache {
  import opened Bytes

  // ── Records and the gates ──────────────────────────────────────────────

  datatype Subject = User | AgentSubject | Service

  datatype Record = Record(keyId: string, subject: Subject, subjectId: string, admin: bool, revoked: bool,
                           expires: Option<nat>, zones: seq<(string, string)>)

  /** A stored value that is, or is not, a record this build can decode. */
  datatype Row = Decodable(record: Record) | Undecodable

  const ROOT_ZONE := "root"

  /** Who a token acts as, and in which zone. */
  datatype Context = Context(userId: string, zone: string, admin: bool, agentId: Option<string>, subject: Subject,
                             zones: seq<(string, string)>)

  /** A single-zone record acts in its zone, any other in the root zone; only an agent's record names an agent. */
  function ContextOf(r: Record): Context {
    Context(r.subjectId, if |r.zones| == 1 then r.zones[0].0 else ROOT_ZONE, r.admin,
            if r.subject.AgentSubject? then Some(r.subjectId) else None, r.subject, r.zones)
  }

  predicate IsExpired(r: Record, now: nat) {
    r.expires.Some? && now > r.expires.value
  }

  /** Every gate but the clock: not revoked, and zone-scoped unless a global admin. */
  predicate Standing(r: Record) {
    !r.revoked && (r.zones != [] || r.admin)
  }

  /** Whom a lookup without a cache admits. */
  function Admit(row: Option<Row>, now: nat): Option<Context> {
    match row
    case Some(Decodable(r)) => if Standing(r) && !IsExpired(r, now) then Some(ContextOf(r)) else None
    case _ => None
  }

  /** Whom the gates let in, and as whom. */
  lemma AdmitExact(row: Option<Row>, now: nat)
    ensures Admit(row, now).Some?
       <==> && row.Some? && row.value.Decodable?
            && var r := row.value.record;
               !r.revoked && (r.zones != [] || r.admin) && (r.expires.Some? ==> now <= r.expires.value)
    ensures Admit(row, now).Some? ==>
      var r, ctx := row.value.record, Admit(row, now).value;
      && ctx.userId == r.subjectId && ctx.admin == r.admin && ctx.subject == r.subject && ctx.zones == r.zones
      && (r.subject == AgentSubject ==> ctx.agentId == Some(r.subjectId)) && (r.subject != AgentSubject ==> ctx.agentId == None)
      && (|r.zones| == 1 ==> ctx.zone == r.zones[0].0) && (|r.zones| != 1 ==> ctx.zone == "root")
  {
  }

  // ── The cache ──────────────────────────────────────────────────────────

  datatype Cached = Cached(ctx: Context, expiresAt: nat)

  /** What the cache answers at `now`, if anything. */
  function Hit(cache: map<string, Cached>, key: string, now: nat): Option<Context> {
    if key in cache && now < cache[key].expiresAt then Some(cache[key].ctx) else None
  }

  /** What the store answers. */
  datatype Reply = Stored(row: Option<Row>) | Unavailable

  datatype Denial = Unauthenticated | StoreUnavailable

  class KeyPlane {
    const ttl: nat
    var cache: map<string, Cached>

    constructor (ttl: nat)
      ensures this.ttl == ttl && cache == map[]
    {
      this.ttl, cache := ttl, map[];
    }

    method Invalidate(key: string)
      modifies this
      ensures cache == old(cache) - {key}
    {
      cache := cache - {key};
    }

    method InvalidateAll()
      modifies this
      ensures cache == map[]
    {
      cache := map[];
    }

    /**
     One lookup: `asked` is when the cache is asked, `gated` when the gates are
     applied to what the store replied, `kept` when the result is cached.
     */
    method Resolve(key: string, reply: Reply, asked: nat, gated: nat, kept: nat) returns (r: Result<Context, Denial>)
      modifies this
      ensures Hit(old(cache), key, asked).Some? ==> r == Ok(Hit(old(cache), key, asked).value) && cache == old(cache)
      ensures Hit(old(cache), key, asked).None? && reply.Unavailable? ==>
        r == Err(StoreUnavailable) && cache == old(cache) - {key}
      ensures Hit(old(cache), key, asked).None? && reply.Stored? ==>
        var ctx := Admit(reply.row, gated);
        && r == (if ctx.Some? then Ok(ctx.value) else Err(Unauthenticated))
        && cache == if ctx.Some? then old(cache)[key := Cached(ctx.value, kept + ttl)] else old(cache) - {key}
      ensures Hit(old(cache), key, asked).None? && r.Ok? ==>
        && reply.Stored? && reply.row.Some? && reply.row.value.Decodable?
        && var record := reply.row.value.record;
           && !record.revoked && (record.zones != [] || record.admin)
           && (record.expires.Some? ==> gated <= record.expires.value)
    {
      if key in cache {
        if asked < cache[key].expiresAt {
          return Ok(cache[key].ctx);
        }
      }
      cache := cache - {key};
      if reply.Unavailable? {
        return Err(StoreUnavailable);
      }
      if reply.row.None? || reply.row.value.Undecodable? {
        return Err(Unauthenticated);
      }
      var record := reply.row.value.record;
      if record.revoked {
        return Err(Unauthenticated);
      }
      if IsExpired(record, gated) {
        return Err(Unauthenticated);
      }
      if record.zones == [] && !record.admin {
        return Err(Unauthenticated);
      }
      var ctx := ContextOf(record);
      cache := cache[key := Cached(ctx, kept + ttl)];
      assert old(cache) - {key} + map[key := Cached(ctx, kept + ttl)] == old(cache)[key := Cached(ctx, kept + ttl)];
      r := Ok(ctx);
    }
  }
}
