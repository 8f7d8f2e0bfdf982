/**
 Lookups, changes of the store and invalidations, interleaved: how old an answer
 of the token cache can be. A lookup asks the cache, drops what is stale, reads
 the store, applies the gates and caches the result in separate steps, between
 which anything may come.
 */
module TokenRuns {
  import opened Bytes
  import opened TokenCache

  /** The row was read at world `read`, the gates were applied at world `gated`, the result was cached at world `kept`. */
  datatype Origin = Origin(row: Option<Row>, read: nat, gated: nat, kept: nat)

  datatype Lookup =
    | Idle
    | Missed(key: string)
    | Asking(key: string)
    | Gating(key: string, row: Option<Row>, read: nat)
    | Keeping(key: string, row: Option<Row>, read: nat, gated: nat)

  /** What a lookup was told, at world `at`. */
  datatype Answer = Answer(key: string, ctx: Option<Context>, at: nat, origin: Origin)

  /** `index` counts the steps so far; `origins` says where each cached context came from. */
  datatype World = World(index: nat, time: nat, store: map<string, Row>, cache: map<string, Cached>,
                         origins: map<string, Origin>, lookups: seq<Lookup>, answers: seq<Answer>, dirty: set<string>)

  datatype Step =
    | Tick(time: nat)
    | Change(key: string, row: Option<Row>)
    | Invalidate(key: string)
    | InvalidateAll
    | Ask(p: nat, key: string)
    | Drop(p: nat)
    | Outage(p: nat)
    | Read(p: nat)
    | Gate(p: nat)
    | Keep(p: nat)

  function Get(w: World, key: string): Option<Row> {
    if key in w.store then Some(w.store[key]) else None
  }

  function Changed(w: World, key: string, row: Option<Row>): World {
    w.(store := if row.Some? then w.store[key := row.value] else w.store - {key}, dirty := w.dirty + {key})
  }

  function Dropped(w: World, key: string): World {
    w.(cache := w.cache - {key}, origins := w.origins - {key})
  }

  function At(w: World, p: nat): Lookup {
    if p < |w.lookups| then w.lookups[p] else Idle
  }

  function Now(w: World, p: nat, l: Lookup): World {
    if p < |w.lookups| then w.(lookups := w.lookups[p := l]) else w
  }

  function Told(w: World, a: Answer): World {
    w.(answers := w.answers + [a])
  }

  /** The world after a step, not counting it. */
  function Effect(ttl: nat, w: World, step: Step): Option<World> {
    match step
    case Tick(time) => if time < w.time then None else Some(w.(time := time))
    case Change(key, row) => Some(Changed(w, key, row))
    case Invalidate(key) => Some(Dropped(w, key).(dirty := w.dirty - {key}))
    case InvalidateAll => Some(w.(cache := map[], origins := map[], dirty := {}))
    case Ask(p, key) =>
      if p >= |w.lookups| || !w.lookups[p].Idle? then None
      else
        var hit := Hit(w.cache, key, w.time);
        if hit.Some? && key in w.origins then Some(Told(w, Answer(key, hit, w.index, w.origins[key])))
        else Some(Now(w, p, Missed(key)))
    case Drop(p) => if !At(w, p).Missed? then None else Some(Now(Dropped(w, At(w, p).key), p, Asking(At(w, p).key)))
    case Outage(p) => if !At(w, p).Asking? then None else Some(Now(w, p, Idle))
    case Read(p) =>
      if !At(w, p).Asking? then None
      else Some(Now(w, p, Gating(At(w, p).key, Get(w, At(w, p).key), w.index)))
    case Gate(p) =>
      if !At(w, p).Gating? then None
      else
        var l := At(w, p);
        if Admit(l.row, w.time).Some? then Some(Now(w, p, Keeping(l.key, l.row, l.read, w.index)))
        else Some(Told(Now(w, p, Idle), Answer(l.key, None, w.index, Origin(l.row, l.read, w.index, w.index))))
    case Keep(p) =>
      if !At(w, p).Keeping? || At(w, p).row.None? || At(w, p).row.value.Undecodable? then None
      else
        var l := At(w, p);
        var ctx, origin := ContextOf(l.row.value.record), Origin(l.row, l.read, l.gated, w.index);
        Some(Told(Now(w, p, Idle), Answer(l.key, Some(ctx), w.index, origin))
             .(cache := w.cache[l.key := Cached(ctx, w.time + ttl)], origins := w.origins[l.key := origin]))
  }

  ghost predicate Next(ttl: nat, w: World, step: Step, w': World) {
    Effect(ttl, w, step).Some? && w' == Effect(ttl, w, step).value.(index := w.index + 1)
  }

  predicate Init(w: World) {
    w.index == 0 && w.cache == map[] && w.origins == map[] && w.answers == [] && w.dirty == {}
    && forall i | 0 <= i < |w.lookups| :: w.lookups[i].Idle?
  }

  ghost predicate IsRun(ttl: nat, ws: seq<World>, steps: seq<Step>) {
    && |ws| == |steps| + 1 && Init(ws[0])
    && forall i | 0 <= i < |steps| :: Next(ttl, ws[i], steps[i], ws[i + 1])
  }

  // ── Where an answer comes from ─────────────────────────────────────────

  /** Lookup `p` for the key read the row at step `read`. */
  ghost predicate ReadBy(ws: seq<World>, steps: seq<Step>, p: nat, key: string, row: Option<Row>, read: nat) {
    && read < |steps| < |ws| && steps[read] == Read(p) && At(ws[read], p) == Asking(key) && Get(ws[read], key) == row
  }

  /** It then passed the gates at step `gated`, as `ctx`. */
  ghost predicate GatedBy(ws: seq<World>, steps: seq<Step>, p: nat, key: string, o: Origin, ctx: Option<Context>) {
    && ReadBy(ws, steps, p, key, o.row, o.read) && o.read < o.gated < |steps| && steps[o.gated] == Gate(p)
    && At(ws[o.gated], p) == Gating(key, o.row, o.read) && Admit(o.row, ws[o.gated].time) == ctx
  }

  /** And was cached at step `kept`. */
  ghost predicate KeptBy(ws: seq<World>, steps: seq<Step>, p: nat, key: string, o: Origin, ctx: Context) {
    && GatedBy(ws, steps, p, key, o, Some(ctx)) && o.gated < o.kept < |steps| && steps[o.kept] == Keep(p)
    && At(ws[o.kept], p) == Keeping(key, o.row, o.read, o.gated)
  }

  /**
   The three ways to an answer: a denial by the gates, a result just cached, or
   one that some lookup cached less than the time-to-live ago.
   */
  ghost predicate SourceOf(ttl: nat, ws: seq<World>, steps: seq<Step>, a: Answer) {
    && a.at < |steps| < |ws|
    && match steps[a.at]
       case Gate(p) => a.ctx.None? && a.origin.gated == a.at && GatedBy(ws, steps, p, a.key, a.origin, None)
       case Keep(p) => a.ctx.Some? && a.origin.kept == a.at && KeptBy(ws, steps, p, a.key, a.origin, a.ctx.value)
       case Ask(_, key) =>
         && key == a.key && a.ctx.Some? && a.origin.kept < a.at && ws[a.at].time < ws[a.origin.kept].time + ttl
         && exists q :: KeptBy(ws, steps, q, a.key, a.origin, a.ctx.value)
       case _ => false
  }

  // ── The invariant ──────────────────────────────────────────────────────

  /** A cached context was kept by some lookup, and lives for the time-to-live from then. */
  ghost predicate Sourced(ttl: nat, ws: seq<World>, steps: seq<Step>, n: nat, key: string, entry: Cached, o: Origin) {
    && o.kept < n && o.kept < |ws| && entry.expiresAt == ws[o.kept].time + ttl
    && exists p :: KeptBy(ws, steps, p, key, o, entry.ctx)
  }

  ghost predicate LookupHolds(ws: seq<World>, steps: seq<Step>, n: nat, p: nat, l: Lookup) {
    match l
    case Gating(key, row, read) => read < n && ReadBy(ws, steps, p, key, row, read)
    case Keeping(key, row, read, gated) =>
      gated < n && row.Some? && row.value.Decodable?
      && GatedBy(ws, steps, p, key, Origin(row, read, gated, n), Some(ContextOf(row.value.record)))
    case _ => true
  }

  ghost predicate Inv(ttl: nat, ws: seq<World>, steps: seq<Step>, n: nat) {
    && n < |ws| == |steps| + 1 && ws[n].index == n && ws[n].cache.Keys == ws[n].origins.Keys
    && (forall key | key in ws[n].cache :: Sourced(ttl, ws, steps, n, key, ws[n].cache[key], ws[n].origins[key]))
    && (forall p | 0 <= p < |ws[n].lookups| :: LookupHolds(ws, steps, n, p, ws[n].lookups[p]))
    && (forall i | 0 <= i < |ws[n].answers| :: SourceOf(ttl, ws, steps, ws[n].answers[i]))
  }

  lemma StepShape(ttl: nat, w: World, step: Step, w': World)
    requires w.cache.Keys == w.origins.Keys && Next(ttl, w, step, w')
    ensures w'.cache.Keys == w'.origins.Keys && w'.index == w.index + 1 && |w'.lookups| == |w.lookups|
    ensures w'.answers == w.answers || exists a :: w'.answers == w.answers + [a]
  {
  }

  /** An entry of the cache was there before, or this step kept it. */
  lemma EntryFrom(ttl: nat, w: World, step: Step, w': World, key: string)
    requires w.cache.Keys == w.origins.Keys && Next(ttl, w, step, w') && key in w'.cache && key in w'.origins
    ensures
      || (key in w.cache && w'.cache[key] == w.cache[key] && w'.origins[key] == w.origins[key])
      || (step.Keep? && At(w, step.p).Keeping? && At(w, step.p).key == key && At(w, step.p).row.Some?
          && At(w, step.p).row.value.Decodable?
          && w'.cache[key] == Cached(ContextOf(At(w, step.p).row.value.record), w.time + ttl)
          && w'.origins[key] == Origin(At(w, step.p).row, At(w, step.p).read, At(w, step.p).gated, w.index))
  {
  }

  /** A lookup that is about to keep a context did read the row and pass the gates. */
  lemma KeepingKept(ws: seq<World>, steps: seq<Step>, n: nat, p: nat, o: Origin)
    requires n < |steps| < |ws| && steps[n] == Keep(p) && At(ws[n], p).Keeping?
    requires LookupHolds(ws, steps, n, p, At(ws[n], p))
    requires o == Origin(At(ws[n], p).row, At(ws[n], p).read, At(ws[n], p).gated, n)
    ensures o.row.Some? && o.row.value.Decodable?
    ensures KeptBy(ws, steps, p, At(ws[n], p).key, o, ContextOf(o.row.value.record))
  {
  }

  lemma CacheSourced(ttl: nat, ws: seq<World>, steps: seq<Step>, n: nat, key: string)
    requires n < |steps| < |ws| && ws[n].index == n && ws[n].cache.Keys == ws[n].origins.Keys
    requires Next(ttl, ws[n], steps[n], ws[n + 1]) && key in ws[n + 1].cache && key in ws[n + 1].origins
    requires key in ws[n].cache ==> Sourced(ttl, ws, steps, n, key, ws[n].cache[key], ws[n].origins[key])
    requires steps[n].Keep? ==> LookupHolds(ws, steps, n, steps[n].p, At(ws[n], steps[n].p))
    ensures Sourced(ttl, ws, steps, n + 1, key, ws[n + 1].cache[key], ws[n + 1].origins[key])
  {
    var w, w', step := ws[n], ws[n + 1], steps[n];
    EntryFrom(ttl, w, step, w', key);
    if !(key in w.cache && w'.cache[key] == w.cache[key] && w'.origins[key] == w.origins[key]) {
      KeepingKept(ws, steps, n, step.p, w'.origins[key]);
    }
  }

  /** A lookup's state was there before, or this step brought it about. */
  lemma LookupFrom(ttl: nat, w: World, step: Step, w': World, p: nat)
    requires Next(ttl, w, step, w') && p < |w.lookups| == |w'.lookups|
    ensures
      var l, l' := w.lookups[p], w'.lookups[p];
      l' != l ==>
        && (l'.Gating? ==> step == Read(p) && l == Asking(l'.key) && l'.row == Get(w, l'.key) && l'.read == w.index)
        && (l'.Keeping? ==> step == Gate(p) && l == Gating(l'.key, l'.row, l'.read) && l'.gated == w.index
                            && Admit(l'.row, w.time).Some?)
  {
  }

  lemma LookupSourced(ttl: nat, ws: seq<World>, steps: seq<Step>, n: nat, p: nat)
    requires n < |steps| < |ws| && ws[n].index == n && Next(ttl, ws[n], steps[n], ws[n + 1])
    requires p < |ws[n].lookups| == |ws[n + 1].lookups| && LookupHolds(ws, steps, n, p, ws[n].lookups[p])
    ensures LookupHolds(ws, steps, n + 1, p, ws[n + 1].lookups[p])
  {
    LookupFrom(ttl, ws[n], steps[n], ws[n + 1], p);
  }

  /** What a step tells, and from where. */
  lemma AnswerFrom(ttl: nat, w: World, step: Step, w': World, a: Answer)
    requires Next(ttl, w, step, w') && w'.answers == w.answers + [a]
    ensures a.at == w.index
    ensures match step
            case Ask(_, key) =>
              && a.key == key && key in w.cache && key in w.origins && w.time < w.cache[key].expiresAt
              && a.ctx == Some(w.cache[key].ctx) && a.origin == w.origins[key]
            case Gate(p) =>
              && At(w, p) == Gating(a.key, a.origin.row, a.origin.read) && a.ctx.None? && Admit(a.origin.row, w.time).None?
              && a.origin.gated == w.index
            case Keep(p) =>
              && At(w, p) == Keeping(a.key, a.origin.row, a.origin.read, a.origin.gated) && a.origin.kept == w.index
              && a.origin.row.Some? && a.origin.row.value.Decodable? && a.ctx == Some(ContextOf(a.origin.row.value.record))
            case _ => false
  {
    assert w'.answers[|w.answers|] == a;
  }

  lemma AnswerSourced(ttl: nat, ws: seq<World>, steps: seq<Step>, n: nat, a: Answer)
    requires n < |steps| < |ws| && ws[n].index == n && Next(ttl, ws[n], steps[n], ws[n + 1])
    requires ws[n + 1].answers == ws[n].answers + [a]
    requires a.key in ws[n].cache && a.key in ws[n].origins ==>
               Sourced(ttl, ws, steps, n, a.key, ws[n].cache[a.key], ws[n].origins[a.key])
    requires steps[n].Gate? || steps[n].Keep? ==> LookupHolds(ws, steps, n, steps[n].p, At(ws[n], steps[n].p))
    ensures SourceOf(ttl, ws, steps, a)
  {
    AnswerFrom(ttl, ws[n], steps[n], ws[n + 1], a);
    if steps[n].Keep? {
      KeepingKept(ws, steps, n, steps[n].p, a.origin);
    }
  }

  lemma StepInv(ttl: nat, ws: seq<World>, steps: seq<Step>, n: nat)
    requires n < |steps| && Inv(ttl, ws, steps, n) && Next(ttl, ws[n], steps[n], ws[n + 1])
    ensures Inv(ttl, ws, steps, n + 1)
  {
    var w, w' := ws[n], ws[n + 1];
    StepShape(ttl, w, steps[n], w');
    forall key | key in w'.cache ensures Sourced(ttl, ws, steps, n + 1, key, w'.cache[key], w'.origins[key]) {
      CacheSourced(ttl, ws, steps, n, key);
    }
    forall p | 0 <= p < |w'.lookups| ensures LookupHolds(ws, steps, n + 1, p, w'.lookups[p]) {
      LookupSourced(ttl, ws, steps, n, p);
    }
    forall i | 0 <= i < |w'.answers| ensures SourceOf(ttl, ws, steps, w'.answers[i]) {
      if i < |w.answers| {
        assert w'.answers[i] == w.answers[i];
      } else {
        assert w'.answers == w.answers + [w'.answers[i]];
        AnswerSourced(ttl, ws, steps, n, w'.answers[i]);
      }
    }
  }

  lemma {:induction false} RunInv(ttl: nat, ws: seq<World>, steps: seq<Step>, n: nat)
    requires IsRun(ttl, ws, steps) && n < |ws|
    ensures Inv(ttl, ws, steps, n)
  {
    if n > 0 {
      RunInv(ttl, ws, steps, n - 1);
      StepInv(ttl, ws, steps, n - 1);
    }
  }

  lemma {:induction false} RunTime(ttl: nat, ws: seq<World>, steps: seq<Step>, i: nat, j: nat)
    requires IsRun(ttl, ws, steps) && i <= j < |ws|
    ensures ws[i].time <= ws[j].time
  {
    if i < j {
      RunTime(ttl, ws, steps, i, j - 1);
      assert Next(ttl, ws[j - 1], steps[j - 1], ws[j]);
    }
  }

  // ── How old an answer can be ───────────────────────────────────────────

  /** The lookup whose verdict an answer is. */
  lemma WhoseVerdict(ttl: nat, ws: seq<World>, steps: seq<Step>, n: nat, i: nat) returns (p: nat)
    requires IsRun(ttl, ws, steps) && n < |ws| && i < |ws[n].answers|
    ensures
      var a := ws[n].answers[i];
      && SourceOf(ttl, ws, steps, a) && GatedBy(ws, steps, p, a.key, a.origin, a.ctx)
      && (a.ctx.Some? ==> KeptBy(ws, steps, p, a.key, a.origin, a.ctx.value))
  {
    RunInv(ttl, ws, steps, n);
    var a := ws[n].answers[i];
    assert SourceOf(ttl, ws, steps, a);
    match steps[a.at]
    case Ask(_, _) => p :| KeptBy(ws, steps, p, a.key, a.origin, a.ctx.value);
    case Gate(q) => p := q;
    case Keep(q) => p := q;
  }

  /**
   Staleness is bounded: whatever comes between, an answer is what the gates at
   step `gated` of some lookup said of the row it read at step `read`. An answer
   from the cache was cached by that lookup at step `kept`, so that its row is
   younger than the time-to-live and that lookup's own delay; any other answer
   is the lookup's own. A caller is let in exactly when that row was a record
   not revoked, with a zone or global, and not past its expiry at the gates, and
   acts as the record says.
   */
  lemma BoundedStaleness(ttl: nat, ws: seq<World>, steps: seq<Step>, n: nat, i: nat)
    returns (p: nat, read: nat, gated: nat, kept: nat)
    requires IsRun(ttl, ws, steps) && n < |ws| && i < |ws[n].answers|
    ensures
      var a := ws[n].answers[i];
      && read < gated <= a.at < |steps| && steps[read] == Read(p) && steps[gated] == Gate(p)
      && At(ws[gated], p) == Gating(a.key, Get(ws[read], a.key), read)
      && a.ctx == Admit(Get(ws[read], a.key), ws[gated].time)
      && (a.ctx.None? ==> gated == a.at)
      && (a.ctx.Some? ==>
            && gated < kept <= a.at && steps[kept] == Keep(p)
            && At(ws[kept], p) == Keeping(a.key, Get(ws[read], a.key), read, gated)
            && (kept != a.at ==>
                  && steps[a.at].Ask? && steps[a.at].key == a.key
                  && ws[a.at].time - ws[read].time < ttl + (ws[kept].time - ws[read].time)))
    ensures
      var a := ws[n].answers[i];
      var row := Get(ws[read], a.key);
      a.ctx.Some? <==>
        && row.Some? && row.value.Decodable?
        && var r := row.value.record;
           !r.revoked && (r.zones != [] || r.admin) && (r.expires.Some? ==> ws[gated].time <= r.expires.value)
    ensures
      var a := ws[n].answers[i];
      a.ctx.Some? ==>
        var r, ctx := Get(ws[read], a.key).value.record, a.ctx.value;
        && ctx.userId == r.subjectId && ctx.admin == r.admin
        && ctx.agentId == (if r.subject == AgentSubject then Some(r.subjectId) else None)
        && ctx.zone == (if |r.zones| == 1 then r.zones[0].0 else "root")
  {
    p := WhoseVerdict(ttl, ws, steps, n, i);
    var a := ws[n].answers[i];
    read, gated, kept := a.origin.read, a.origin.gated, a.origin.kept;
    AdmitExact(Get(ws[read], a.key), ws[gated].time);
  }

  // ── When changes are invalidated before the next lookup ────────────────

  /** The store changes only between lookups, and no lookup starts before every change is invalidated. */
  ghost predicate Disciplined(ws: seq<World>, steps: seq<Step>)
    requires |ws| == |steps| + 1
  {
    forall i | 0 <= i < |steps| ::
      && (steps[i].Change? ==> forall p | 0 <= p < |ws[i].lookups| :: ws[i].lookups[p].Idle?)
      && (steps[i].Ask? ==> ws[i].dirty == {})
  }

  predicate HasRow(l: Lookup) {
    l.Gating? || l.Keeping?
  }

  /** What is cached, and what is about to be, is what the store holds. */
  ghost predicate Current(w: World) {
    && w.cache.Keys == w.origins.Keys
    && (forall key | key in w.origins && key !in w.dirty :: Get(w, key) == w.origins[key].row)
    && (forall p | 0 <= p < |w.lookups| && HasRow(w.lookups[p]) :: Get(w, w.lookups[p].key) == w.lookups[p].row)
    && (forall p | 0 <= p < |w.lookups| && !w.lookups[p].Idle? :: w.dirty == {})
  }

  lemma StepRows(ttl: nat, w: World, step: Step, w': World, key: string)
    requires Current(w) && Next(ttl, w, step, w') && key in w'.origins && key !in w'.dirty
    requires step.Change? ==> forall p | 0 <= p < |w.lookups| :: w.lookups[p].Idle?
    ensures Get(w', key) == w'.origins[key].row
  {
  }

  lemma StepLookup(ttl: nat, w: World, step: Step, w': World, p: nat)
    requires Current(w) && Next(ttl, w, step, w') && p < |w.lookups| == |w'.lookups|
    requires step.Change? ==> w.lookups[p].Idle?
    requires step.Ask? ==> w.dirty == {}
    ensures HasRow(w'.lookups[p]) ==> Get(w', w'.lookups[p].key) == w'.lookups[p].row
    ensures !w'.lookups[p].Idle? ==> w'.dirty == {}
  {
  }

  lemma StepCurrent(ttl: nat, w: World, step: Step, w': World)
    requires Current(w) && Next(ttl, w, step, w')
    requires step.Change? ==> forall p | 0 <= p < |w.lookups| :: w.lookups[p].Idle?
    requires step.Ask? ==> w.dirty == {}
    ensures Current(w')
  {
    StepShape(ttl, w, step, w');
    forall key | key in w'.origins && key !in w'.dirty ensures Get(w', key) == w'.origins[key].row {
      StepRows(ttl, w, step, w', key);
    }
    forall p | 0 <= p < |w'.lookups|
      ensures HasRow(w'.lookups[p]) ==> Get(w', w'.lookups[p].key) == w'.lookups[p].row
      ensures !w'.lookups[p].Idle? ==> w'.dirty == {}
    {
      StepLookup(ttl, w, step, w', p);
    }
  }

  ghost predicate AnswersCurrent(ws: seq<World>, n: nat)
    requires n < |ws|
  {
    forall i | 0 <= i < |ws[n].answers| ::
      ws[n].answers[i].at < |ws| && Get(ws[ws[n].answers[i].at], ws[n].answers[i].key) == ws[n].answers[i].origin.row
  }

  lemma AnswerCurrent(ttl: nat, ws: seq<World>, n: nat, step: Step)
    requires n + 1 < |ws| && ws[n].index == n && Current(ws[n]) && AnswersCurrent(ws, n) && Next(ttl, ws[n], step, ws[n + 1])
    requires step.Ask? ==> ws[n].dirty == {}
    ensures AnswersCurrent(ws, n + 1)
  {
    var w, w' := ws[n], ws[n + 1];
    forall i | 0 <= i < |w'.answers|
      ensures w'.answers[i].at < |ws| && Get(ws[w'.answers[i].at], w'.answers[i].key) == w'.answers[i].origin.row
    {
      if i < |w.answers| {
        assert w'.answers[i] == w.answers[i];
      }
    }
  }

  lemma RunStep(ttl: nat, ws: seq<World>, steps: seq<Step>, i: nat)
    requires IsRun(ttl, ws, steps) && Disciplined(ws, steps) && i < |steps|
    ensures Next(ttl, ws[i], steps[i], ws[i + 1])
    ensures steps[i].Change? ==> forall p | 0 <= p < |ws[i].lookups| :: ws[i].lookups[p].Idle?
    ensures steps[i].Ask? ==> ws[i].dirty == {}
  {
  }

  lemma {:induction false} RunCurrent(ttl: nat, ws: seq<World>, steps: seq<Step>, n: nat)
    requires IsRun(ttl, ws, steps) && Disciplined(ws, steps) && n < |ws|
    ensures Current(ws[n]) && AnswersCurrent(ws, n)
  {
    if n > 0 {
      RunCurrent(ttl, ws, steps, n - 1);
      assert ws[n - 1].index == n - 1 by {
        RunInv(ttl, ws, steps, n - 1);
      }
      RunStep(ttl, ws, steps, n - 1);
      StepCurrent(ttl, ws[n - 1], steps[n - 1], ws[n]);
      AnswerCurrent(ttl, ws, n - 1, steps[n - 1]);
    }
  }

  /** Two verdicts on one row differ only by its expiry. */
  lemma TimeOnly(row: Option<Row>, t: nat, t': nat)
    ensures Admit(row, t) != Admit(row, t') ==>
      && row.Some? && row.value.Decodable? && Standing(row.value.record)
      && IsExpired(row.value.record, t) != IsExpired(row.value.record, t')
    ensures Admit(row, t).Some? ==> Admit(row, t).value == ContextOf(row.value.record)
  {
  }

  /**
   With every change invalidated before the next lookup, a lookup is told what
   the gates say at that moment, except that a record may outlive its own
   expiry: by no more than the delay from its lookup's gates to its caching,
   and on a later answer from the cache by less than that and the time-to-live.
   */
  lemma CacheAgrees(ttl: nat, ws: seq<World>, steps: seq<Step>, n: nat, i: nat)
    returns (p: nat, gated: nat, kept: nat)
    requires IsRun(ttl, ws, steps) && Disciplined(ws, steps) && n < |ws| && i < |ws[n].answers|
    ensures
      var a := ws[n].answers[i];
      && gated <= a.at < |steps| && steps[gated] == Gate(p) && At(ws[gated], p).Gating? && At(ws[gated], p).key == a.key
      && (a.ctx == Admit(Get(ws[a.at], a.key), ws[a.at].time)
          || (&& Get(ws[a.at], a.key).Some? && Get(ws[a.at], a.key).value.Decodable?
              && var r := Get(ws[a.at], a.key).value.record;
                 && a.ctx == Some(ContextOf(r)) && Standing(r) && r.expires.Some? && ws[a.at].time > r.expires.value
                 && gated < kept <= a.at && steps[kept] == Keep(p) && At(ws[kept], p).Keeping?
                 && At(ws[kept], p).key == a.key && At(ws[kept], p).gated == gated
                 && (kept == a.at ==> ws[a.at].time - r.expires.value <= ws[kept].time - ws[gated].time)
                 && (kept != a.at ==> ws[a.at].time - r.expires.value < ttl + (ws[kept].time - ws[gated].time))))
  {
    var a := ws[n].answers[i];
    p := WhoseVerdict(ttl, ws, steps, n, i);
    gated, kept := a.origin.gated, a.origin.kept;
    RunCurrent(ttl, ws, steps, n);
    var row := Get(ws[a.at], a.key);
    assert row == a.origin.row;
    if a.ctx != Admit(row, ws[a.at].time) {
      TimeOnly(row, ws[gated].time, ws[a.at].time);
      RunTime(ttl, ws, steps, gated, a.at);
    }
  }
}
