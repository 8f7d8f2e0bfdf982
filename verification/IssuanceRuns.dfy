/**
 What every interleaving of issuance, minting and revocation keeps: name claims
 are permanent and keep their kind, and everyone who is told an outcome is told
 the same one.
 */
module IssuanceRuns {
  import opened Bytes
  import opened Issuance
  import TokenCache

  // ── Claims are permanent ───────────────────────────────────────────────

  /** The row is a legacy record of the agent whose key it is under. */
  ghost predicate OwnLegacy(key: string, row: Row) {
    && row.Legacy? && row.record.subject == AgentSubject && key == AgentKey(row.record.subjectId)
  }

  /** A claim stays as it is, except that an agent's own legacy record may give way to another of its own. */
  ghost predicate KeepsClaim(s: Store, s': Store, key: string) {
    key in s ==> key in s' && (s'[key] == s[key] || (OwnLegacy(key, s[key]) && OwnLegacy(key, s'[key])))
  }

  ghost predicate KeepsClaims(s: Store, s': Store) {
    forall key {:trigger IsReserved(key)} | IsReserved(key) :: KeepsClaim(s, s', key)
  }

  /** The effect can be applied, now or later, without touching a claim it may not touch. */
  ghost predicate Harmless(s: Store, e: Effect) {
    match e
    case Insert(_, _) => true
    case Put(key, row) => IsReserved(key) ==> key in s && OwnLegacy(key, s[key]) && OwnLegacy(key, row)
    case Delete(key) => !IsReserved(key)
  }

  lemma ApplyKeeps(s: Store, e: Effect)
    requires Harmless(s, e)
    ensures KeepsClaims(s, Apply(s, e))
  {
  }

  /** An effect that was harmless stays so while claims are kept. */
  lemma StillHarmless(s: Store, s': Store, e: Effect)
    requires KeepsClaims(s, s') && Harmless(s, e)
    ensures Harmless(s', e)
  {
    if e.Put? && IsReserved(e.key) {
      assert KeepsClaim(s, s', e.key);
    }
  }

  lemma KeepsTrans(s: Store, s': Store, s'': Store)
    requires KeepsClaims(s, s') && KeepsClaims(s', s'')
    ensures KeepsClaims(s, s'')
  {
    forall key | IsReserved(key) ensures KeepsClaim(s, s'', key) {
      assert KeepsClaim(s, s', key) && KeepsClaim(s', s'', key);
    }
  }

  // ── The invariant ──────────────────────────────────────────────────────

  /** The agent's name is bound to this intent, in a row whose own credential opens nothing. */
  ghost predicate Bound(env: Env, s: Store, i: Intent) {
    && AgentKey(i.binding.agent) in s && s[AgentKey(i.binding.agent)].Managed? && s[AgentKey(i.binding.agent)].intent == i
    && env.ValidIntent(i) && Shut(s[AgentKey(i.binding.agent)].auth, i.binding.agent)
  }

  /** The agent's own record, expired since the beginning of time, in force and without any right. */
  predicate Shut(auth: AuthRecord, name: string) {
    auth == AuthRecord(auth.keyId, AgentSubject, name, false, false, Some(0), false)
  }

  /** This certificate was elected for the intent. */
  ghost predicate Elected(env: Env, s: Store, i: Intent, f: Final) {
    Bound(env, s, i) && Matches(env, i, f) && FinalKey(env, i) in s && s[FinalKey(env, i)] == Certificate(f)
  }

  ghost predicate EventHolds(env: Env, s: Store, e: Event) {
    match e
    case Committed(i) => Bound(env, s, i)
    case Signed(i) => Bound(env, s, i)
    case Finalized(i, f) => Elected(env, s, i, f)
  }

  /**
   A process about to commit holds a valid intent and a record without rights;
   one past its first read holds the bound intent; one about to rotate a legacy
   row has one to rotate.
   */
  ghost predicate ProcHolds(env: Env, s: Store, proc: Proc) {
    match proc
    case CommitPut(auth, i) => env.ValidIntent(i) && Shut(auth.(expires := Some(0)), i.binding.agent)
    case FinalCheck(i) => Bound(env, s, i)
    case FinalSign(i) => Bound(env, s, i)
    case FinalPut(i, f) => Bound(env, s, i) && Matches(env, i, f)
    case FinalSelect(i) => Bound(env, s, i)
    case QueryFinal(i) => Bound(env, s, i)
    case MintRead(record) => record.subject.AgentSubject?
    case MintInsert(record) => record.subject.AgentSubject?
    case MintPut(record) =>
      && record.subject.AgentSubject? && AgentKey(record.subjectId) in s
      && OwnLegacy(AgentKey(record.subjectId), s[AgentKey(record.subjectId)])
    case _ => true
  }

  ghost predicate Inv(env: Env, w: World) {
    && (forall i | 0 <= i < |w.procs| :: ProcHolds(env, w.store, w.procs[i]))
    && (forall e | e in w.late :: Harmless(w.store, e))
    && (forall i | 0 <= i < |w.events| :: EventHolds(env, w.store, w.events[i]))
  }

  lemma BoundKept(env: Env, s: Store, s': Store, i: Intent)
    requires KeepsClaims(s, s') && Bound(env, s, i)
    ensures Bound(env, s', i)
  {
    AgentKeys(i.binding.agent, "");
    assert KeepsClaim(s, s', AgentKey(i.binding.agent));
  }

  lemma ElectedKept(env: Env, s: Store, s': Store, i: Intent, f: Final)
    requires env.Injective() && KeepsClaims(s, s') && Elected(env, s, i, f)
    ensures Elected(env, s', i, f)
  {
    BoundKept(env, s, s', i);
    FinalKeys(env, i, i, "");
    assert KeepsClaim(s, s', FinalKey(env, i));
  }

  lemma EventKept(env: Env, s: Store, s': Store, e: Event)
    requires env.Injective() && KeepsClaims(s, s') && EventHolds(env, s, e)
    ensures EventHolds(env, s', e)
  {
    match e
    case Committed(i) => BoundKept(env, s, s', i);
    case Signed(i) => BoundKept(env, s, s', i);
    case Finalized(i, f) => ElectedKept(env, s, s', i, f);
  }

  lemma ProcKept(env: Env, s: Store, s': Store, proc: Proc)
    requires KeepsClaims(s, s') && ProcHolds(env, s, proc)
    ensures ProcHolds(env, s', proc)
  {
    match proc
    case FinalCheck(i) => BoundKept(env, s, s', i);
    case FinalSign(i) => BoundKept(env, s, s', i);
    case FinalPut(i, f) => BoundKept(env, s, s', i);
    case FinalSelect(i) => BoundKept(env, s, s', i);
    case QueryFinal(i) => BoundKept(env, s, s', i);
    case MintPut(record) =>
      AgentKeys(record.subjectId, "");
      assert KeepsClaim(s, s', AgentKey(record.subjectId));
    case _ =>
  }

  /** A change of the store that keeps claims keeps everything else. */
  lemma StoreKept(env: Env, w: World, s': Store)
    requires env.Injective() && Inv(env, w) && KeepsClaims(w.store, s')
    ensures Inv(env, w.(store := s'))
  {
    forall i | 0 <= i < |w.procs| ensures ProcHolds(env, s', w.procs[i]) {
      ProcKept(env, w.store, s', w.procs[i]);
    }
    forall e | e in w.late ensures Harmless(s', e) {
      StillHarmless(w.store, s', e);
    }
    forall i | 0 <= i < |w.events| ensures EventHolds(env, s', w.events[i]) {
      EventKept(env, w.store, s', w.events[i]);
    }
  }

  // ── Each step ──────────────────────────────────────────────────────────

  /** No call a process is about to make can touch a claim it may not touch. */
  lemma CallHarmless(env: Env, s: Store, proc: Proc)
    requires ProcHolds(env, s, proc) && CallEffect(env, proc).Some?
    ensures Harmless(s, CallEffect(env, proc).value)
  {
  }

  function After(env: Env, s: Store, proc: Proc): Store {
    if CallEffect(env, proc).Some? then Apply(s, CallEffect(env, proc).value) else s
  }

  lemma ReadBound(env: Env, s: Store, expected: Binding)
    ensures
      var r := ReadIntent(env, Get(s, AgentKey(expected.agent)), expected);
      r.Ok? && r.value.Some? ==> Bound(env, s, r.value.value)
  {
    var r := ReadIntent(env, Get(s, AgentKey(expected.agent)), expected);
    if r.Ok? && r.value.Some? {
      ReadIntentExact(env, Get(s, AgentKey(expected.agent)), expected, r.value.value);
    }
  }

  /** What a process reports, and what it holds from then on, is true of the store it leaves. */
  lemma AnswerHolds(env: Env, s: Store, proc: Proc, authorized: bool, signature: Option<Signature>)
    requires ProcHolds(env, s, proc)
    ensures
      var (proc', events) := Answer(env, s, proc, authorized, signature);
      && ProcHolds(env, After(env, s, proc), proc')
      && forall i | 0 <= i < |events| :: EventHolds(env, After(env, s, proc), events[i])
  {
    match proc
    case CommitRead(candidate) => ReadBound(env, s, candidate.binding);
    case FinalRead(expected) => ReadBound(env, s, expected);
    case QueryRead(expected) => ReadBound(env, s, expected);
    case FinalPut(intent, final) =>
      ApplyKeeps(s, CallEffect(env, proc).value);
      BoundKept(env, s, After(env, s, proc), intent);
    case _ =>
  }

  lemma AnsweredKeeps(env: Env, w: World, p: nat, authorized: bool, signature: Option<Signature>)
    requires env.Injective() && Inv(env, w) && p < |w.procs|
    ensures Inv(env, Called(env, w, p, Answered, authorized, signature))
    ensures KeepsClaims(w.store, Called(env, w, p, Answered, authorized, signature).store)
  {
    var proc := w.procs[p];
    var s' := After(env, w.store, proc);
    if CallEffect(env, proc).Some? {
      CallHarmless(env, w.store, proc);
      ApplyKeeps(w.store, CallEffect(env, proc).value);
    }
    StoreKept(env, w, s');
    AnswerHolds(env, w.store, proc, authorized, signature);
  }

  lemma FailedKeeps(env: Env, w: World, p: nat, applied: bool)
    requires env.Injective() && Inv(env, w) && p < |w.procs|
    ensures Inv(env, Called(env, w, p, Failed(applied), false, None))
    ensures KeepsClaims(w.store, Called(env, w, p, Failed(applied), false, None).store)
  {
    var proc := w.procs[p];
    if CallEffect(env, proc).Some? {
      var effect := CallEffect(env, proc).value;
      CallHarmless(env, w.store, proc);
      ApplyKeeps(w.store, effect);
      StillHarmless(w.store, Apply(w.store, effect), effect);
      StoreKept(env, w, Apply(w.store, effect));
    }
  }

  lemma EffectKeeps(env: Env, w: World, e: Effect)
    requires env.Injective() && Inv(env, w) && Harmless(w.store, e)
    ensures Inv(env, w.(store := Apply(w.store, e), late := w.late + {e}))
    ensures KeepsClaims(w.store, Apply(w.store, e))
  {
    ApplyKeeps(w.store, e);
    StillHarmless(w.store, Apply(w.store, e), e);
    StoreKept(env, w, Apply(w.store, e));
  }

  ghost predicate Moves(env: Env, w: World, w': World) {
    exists step :: Next(env, w, step, w')
  }

  /** Every step keeps the invariant and every claim. */
  lemma StepKeeps(env: Env, w: World, w': World)
    requires env.Injective() && Inv(env, w) && Moves(env, w, w')
    ensures Inv(env, w') && KeepsClaims(w.store, w'.store)
  {
    var step :| Next(env, w, step, w');
    match step
    case Start(p, proc) =>
    case Call(p, Answered, authorized, signature) => AnsweredKeeps(env, w, p, authorized, signature);
    case Call(p, Failed(applied), _, _) => FailedKeeps(env, w, p, applied);
    case Arrive(effect) =>
      EffectKeeps(env, w, effect);
      assert w.late + {effect} == w.late;
    case MintToken(hash, record) =>
      HexNotReserved(hash);
      EffectKeeps(env, w, Put(hash, Legacy(record)));
    case RevokeToken(hash) =>
      HexNotReserved(hash);
      EffectKeeps(env, w, Delete(hash));
    case RevokeHash(key) => EffectKeeps(env, w, Delete(key));
  }

  // ── Runs ───────────────────────────────────────────────────────────────

  ghost predicate IsRun(env: Env, ws: seq<World>) {
    && env.Injective() && ws != [] && Init(ws[0])
    && forall i | 0 <= i < |ws| - 1 :: Moves(env, ws[i], ws[i + 1])
  }

  lemma {:induction false} RunKeeps(env: Env, ws: seq<World>, i: nat)
    requires IsRun(env, ws) && i < |ws|
    ensures Inv(env, ws[i])
  {
    if i > 0 {
      RunKeeps(env, ws, i - 1);
      assert Moves(env, ws[i - 1], ws[i]);
      StepKeeps(env, ws[i - 1], ws[i]);
    }
  }

  /**
   Name claims are permanent and keep their kind: between any two points of any
   run, a claimed name stays claimed, and no row under it, nor a certificate, is
   ever modified, except that the agent's own legacy record may be replaced by
   another legacy record of the same agent.
   */
  lemma {:induction false} ClaimsPermanent(env: Env, ws: seq<World>, i: nat, j: nat)
    requires IsRun(env, ws) && i <= j < |ws|
    ensures KeepsClaims(ws[i].store, ws[j].store)
  {
    if i < j {
      ClaimsPermanent(env, ws, i, j - 1);
      RunKeeps(env, ws, j - 1);
      assert Moves(env, ws[j - 1], ws[j]);
      StepKeeps(env, ws[j - 1], ws[j]);
      KeepsTrans(ws[i].store, ws[j - 1].store, ws[j].store);
    }
  }

  /** What a name claim is worth to its holder. */
  lemma NameClaim(env: Env, ws: seq<World>, i: nat, j: nat, name: string)
    requires IsRun(env, ws) && i <= j < |ws| && AgentKey(name) in ws[i].store
    ensures AgentKey(name) in ws[j].store
    ensures
      var row, row' := ws[i].store[AgentKey(name)], ws[j].store[AgentKey(name)];
      row' != row ==>
        && row.Legacy? && row.record.subject == AgentSubject && row.record.subjectId == name
        && row'.Legacy? && row'.record.subject == AgentSubject && row'.record.subjectId == name
    ensures IsManaged(ws[j].store[AgentKey(name)]) ==> ws[j].store[AgentKey(name)] == ws[i].store[AgentKey(name)]
  {
    ClaimsPermanent(env, ws, i, j);
    AgentKeys(name, "");
    assert KeepsClaim(ws[i].store, ws[j].store, AgentKey(name));
    var row, row' := ws[i].store[AgentKey(name)], ws[j].store[AgentKey(name)];
    if row.Legacy? {
      AgentKeys(name, row.record.subjectId);
    }
    if row'.Legacy? {
      AgentKeys(name, row'.record.subjectId);
    }
  }

  /** Whatever was reported or signed for an agent's name is bound to that name. */
  lemma EventBound(env: Env, ws: seq<World>, i: nat, k: nat)
    requires IsRun(env, ws) && i < |ws| && k < |ws[i].events|
    ensures Bound(env, ws[i].store, ws[i].events[k].intent)
    ensures ws[i].events[k].Finalized? ==> Elected(env, ws[i].store, ws[i].events[k].intent, ws[i].events[k].final)
  {
    RunKeeps(env, ws, i);
    assert EventHolds(env, ws[i].store, ws[i].events[k]);
  }

  /**
   Agreement: in every run, all that was ever committed, finalized or signed
   for one agent name is one and the same intent, whoever was told.
   */
  lemma IntentAgreement(env: Env, ws: seq<World>, i: nat, k: nat, l: nat)
    requires IsRun(env, ws) && i < |ws| && k < |ws[i].events| && l < |ws[i].events|
    requires ws[i].events[k].intent.binding.agent == ws[i].events[l].intent.binding.agent
    ensures ws[i].events[k].intent == ws[i].events[l].intent
  {
    EventBound(env, ws, i, k);
    EventBound(env, ws, i, l);
  }

  /**
   What was reported stands: from then on, in every run, the intent is read back
   for its operation, and the row that claims the name is the agent's, expired
   from the start and without admin right or zone.
   */
  lemma CommittedStands(env: Env, ws: seq<World>, i: nat, j: nat, k: nat)
    requires IsRun(env, ws) && i <= j < |ws| && k < |ws[i].events|
    ensures
      var intent := ws[i].events[k].intent;
      var row := Get(ws[j].store, AgentKey(intent.binding.agent));
      && ReadIntent(env, row, intent.binding) == Ok(Some(intent))
      && row.Some? && row.value.Managed?
      && var auth := row.value.auth;
         && auth.subject.AgentSubject? && auth.subjectId == intent.binding.agent && auth.expires == Some(0)
         && !auth.admin && !auth.revoked && !auth.hasZones
    ensures
      var intent := ws[i].events[k].intent;
      && intent.schema == 2 && intent.certificate.agent == intent.binding.agent
      && intent.certificate.issuer == intent.binding.issuer
  {
    RunReports(env, ws, i, j);
    assert ws[j].events[k] == ws[i].events[k];
    EventBound(env, ws, j, k);
  }

  /** No time and no key makes a caller of such a record. */
  lemma ShutOut(auth: AuthRecord, name: string, r: TokenCache.Record, now: nat)
    requires Shut(auth, name) && r.admin == auth.admin && (r.zones != [] <==> auth.hasZones)
    ensures TokenCache.Admit(Some(TokenCache.Decodable(r)), now).None?
  {
  }

  // ── Progress ───────────────────────────────────────────────────────────

  /** Whatever came between, an operation that was committed is found committed by whoever asks for it next. */
  lemma FoundCommitted(env: Env, ws: seq<World>, i: nat, j: nat, k: nat, p: nat, authorized: bool)
    requires IsRun(env, ws) && i <= j < |ws| && k < |ws[i].events| && p < |ws[j].procs|
    ensures
      var w, w', intent := ws[j], Called(env, ws[j], p, Answered, authorized, None), ws[i].events[k].intent;
      match w.procs[p]
      case CommitPut(_, candidate) =>
        candidate.binding == intent.binding ==> w' == w.(procs := w.procs[p := CommitRead(candidate)])
      case CommitRead(candidate) =>
        candidate.binding == intent.binding && authorized ==>
          w' == w.(procs := w.procs[p := Idle], events := w.events + [Committed(intent)])
      case FinalRead(expected) => expected == intent.binding ==> w' == w.(procs := w.procs[p := FinalCheck(intent)])
      case QueryRead(expected) => expected == intent.binding ==> w' == w.(procs := w.procs[p := QueryFinal(intent)])
      case _ => true
  {
    CommittedStands(env, ws, i, j, k);
    assert ws[j].events + [] == ws[j].events;
  }

  /** After the next `n` calls of process `p`, all answered and authorized, with nothing between. */
  function Proceeds(env: Env, w: World, p: nat, signature: Option<Signature>, n: nat): (w': World)
    requires p < |w.procs|
    ensures |w'.procs| == |w.procs|
  {
    if n == 0 then w else Called(env, Proceeds(env, w, p, signature, n - 1), p, Answered, true, signature)
  }

  /** The world once an idle process `p` has started. */
  function Started(w: World, p: nat, proc: Proc): World
    requires p < |w.procs|
  {
    w.(procs := w.procs[p := proc])
  }

  lemma OneCall(env: Env, w: World, p: nat, proc: Proc, signature: Option<Signature>, proc': Proc, events: seq<Event>)
    requires p < |w.procs| && (proc', events) == Answer(env, w.store, proc, true, signature)
    ensures Called(env, Started(w, p, proc), p, Answered, true, signature)
         == Started(w.(store := After(env, w.store, proc), events := w.events + events), p, proc')
  {
    assert w.procs[p := proc][p := proc'] == w.procs[p := proc'];
  }

  /** An authorized retry of a committed operation, whose calls are answered, reports the committed intent. */
  lemma RetryReports(env: Env, ws: seq<World>, i: nat, j: nat, k: nat, p: nat, auth: AuthRecord, candidate: Intent)
    requires IsRun(env, ws) && i <= j < |ws| && k < |ws[i].events| && p < |ws[j].procs| && ws[j].procs[p].Idle?
    requires Starts(env, CommitPut(auth, candidate)) && candidate.binding == ws[i].events[k].intent.binding
    ensures
      var w := ws[j];
      var begun := Started(w, p, CommitPut(auth, candidate));
      && Next(env, w, Start(p, CommitPut(auth, candidate)), begun)
      && Proceeds(env, begun, p, None, 2) == w.(events := w.events + [Committed(ws[i].events[k].intent)])
  {
    CommittedStands(env, ws, i, j, k);
    var w, intent := ws[j], ws[i].events[k].intent;
    OneCall(env, w, p, CommitPut(auth, candidate), None, CommitRead(candidate), []);
    OneCall(env, w, p, CommitRead(candidate), None, Idle, [Committed(intent)]);
    assert w.events + [] == w.events && w.procs[p := Idle] == w.procs;
    var begun := Started(w, p, CommitPut(auth, candidate));
    assert Proceeds(env, begun, p, None, 1) == Started(w, p, CommitRead(candidate));
  }

  /** An authorized query reports the certificate that is stored for the intent, or the intent if there is none. */
  lemma QueryReports(env: Env, ws: seq<World>, i: nat, j: nat, k: nat, p: nat)
    requires IsRun(env, ws) && i <= j < |ws| && k < |ws[i].events| && p < |ws[j].procs| && ws[j].procs[p].Idle?
    ensures
      var w, intent := ws[j], ws[i].events[k].intent;
      var begun := Started(w, p, QueryRead(intent.binding));
      && Next(env, w, Start(p, QueryRead(intent.binding)), begun)
      && (FinalKey(env, intent) !in w.store ==>
            Proceeds(env, begun, p, None, 2) == w.(events := w.events + [Committed(intent)]))
      && (ws[i].events[k].Finalized? ==>
            Proceeds(env, begun, p, None, 2) == w.(events := w.events + [Finalized(intent, ws[i].events[k].final)]))
  {
    CommittedStands(env, ws, i, j, k);
    var w, intent := ws[j], ws[i].events[k].intent;
    RunReports(env, ws, i, j);
    assert ws[j].events[k] == ws[i].events[k];
    EventBound(env, ws, j, k);
    var begun := Started(w, p, QueryRead(intent.binding));
    OneCall(env, w, p, QueryRead(intent.binding), None, QueryFinal(intent), []);
    assert w.events + [] == w.events && w.procs[p := Idle] == w.procs;
    assert Proceeds(env, begun, p, None, 1) == Started(w, p, QueryFinal(intent));
    QueryStep(env, w, p, intent);
  }

  lemma QueryStep(env: Env, w: World, p: nat, intent: Intent)
    requires p < |w.procs| && w.procs[p].Idle?
    ensures
      var r := ReadFinal(env, Get(w.store, FinalKey(env, intent)), intent);
      r.Ok? ==> Called(env, Started(w, p, QueryFinal(intent)), p, Answered, true, None)
                == w.(events := w.events + [if r.value.Some? then Finalized(intent, r.value.value) else Committed(intent)])
  {
    var r := ReadFinal(env, Get(w.store, FinalKey(env, intent)), intent);
    if r.Ok? {
      var e := if r.value.Some? then Finalized(intent, r.value.value) else Committed(intent);
      OneCall(env, w, p, QueryFinal(intent), None, Idle, [e]);
      assert w.procs[p := Idle] == w.procs;
    }
  }

  /** Minting for an agent puts the record where there is none, replaces the agent's own legacy record, and touches no other. */
  lemma MintExact(env: Env, w: World, p: nat, record: AuthRecord)
    requires p < |w.procs| && w.procs[p].Idle? && record.subject == AgentSubject
    ensures
      var key, begun := AgentKey(record.subjectId), Started(w, p, MintRead(record));
      && Next(env, w, Start(p, MintRead(record)), begun)
      && Proceeds(env, begun, p, None, 2)
         == if key !in w.store || (w.store[key].Legacy? && w.store[key].record.subject == AgentSubject
                                   && w.store[key].record.subjectId == record.subjectId)
            then w.(store := w.store[key := Legacy(record)]) else w
  {
    var key, begun := AgentKey(record.subjectId), Started(w, p, MintRead(record));
    var next := Answer(env, w.store, MintRead(record), true, None).0;
    OneCall(env, w, p, MintRead(record), None, next, []);
    assert w.events + [] == w.events && w.procs[p := Idle] == w.procs;
    assert Proceeds(env, begun, p, None, 1) == Started(w, p, next);
    OneCall(env, w, p, next, None, Idle, []);
  }

  /** The certificate record of a signature over the committed certificate belongs to the intent. */
  lemma SignedMatches(env: Env, i: Intent, s: Signature)
    requires s.tbs == i.certificate.tbs && s.serial == i.certificate.serial && 0 < |s.der| <= MAX_DER
    ensures SignatureFits(i, s) && Matches(env, i, FinalOf(env, i, s)) && FinalOf(env, i, s).der == s.der
  {
  }

  /** One with no certificate yet, whose signer signs what was committed, is finalized with that signature. */
  lemma FinalizeReports(env: Env, ws: seq<World>, i: nat, j: nat, k: nat, p: nat, s: Signature) returns (final: Final)
    requires IsRun(env, ws) && i <= j < |ws| && k < |ws[i].events| && p < |ws[j].procs| && ws[j].procs[p].Idle?
    requires FinalKey(env, ws[i].events[k].intent) !in ws[j].store && 0 < |s.der| <= MAX_DER
    requires s.tbs == ws[i].events[k].intent.certificate.tbs && s.serial == ws[i].events[k].intent.certificate.serial
    ensures
      var w, intent := ws[j], ws[i].events[k].intent;
      var begun := Started(w, p, FinalRead(intent.binding));
      && Next(env, w, Start(p, FinalRead(intent.binding)), begun)
      && Proceeds(env, begun, p, Some(s), 5)
         == World(w.store[FinalKey(env, intent) := Certificate(final)], w.procs, w.late,
                  w.events + [Signed(intent)] + [Finalized(intent, final)])
    ensures final.der == s.der
  {
    CommittedStands(env, ws, i, j, k);
    final := FinalOf(env, ws[i].events[k].intent, s);
    FinalizeSteps(env, ws[j], p, ws[i].events[k].intent, s, final);
  }

  lemma {:induction false} FinalizeSteps(env: Env, w: World, p: nat, intent: Intent, s: Signature, final: Final)
    requires p < |w.procs| && w.procs[p].Idle? && FinalKey(env, intent) !in w.store
    requires ReadIntent(env, Get(w.store, AgentKey(intent.binding.agent)), intent.binding) == Ok(Some(intent))
    requires s.tbs == intent.certificate.tbs && s.serial == intent.certificate.serial && 0 < |s.der| <= MAX_DER
    requires final == FinalOf(env, intent, s)
    ensures Proceeds(env, Started(w, p, FinalRead(intent.binding)), p, Some(s), 5)
         == World(w.store[FinalKey(env, intent) := Certificate(final)], w.procs, w.late,
                  w.events + [Signed(intent)] + [Finalized(intent, final)])
    ensures final.der == s.der
  {
    var sig := Some(s);
    SignedMatches(env, intent, s);
    var signed := w.(events := w.events + [Signed(intent)]);
    var put := signed.(store := w.store[FinalKey(env, intent) := Certificate(final)]);
    var begun := Started(w, p, FinalRead(intent.binding));
    assert w.events + [] == w.events && signed.events + [] == signed.events && put.procs[p := Idle] == put.procs;
    OneCall(env, w, p, FinalRead(intent.binding), sig, FinalCheck(intent), []);
    assert Proceeds(env, begun, p, sig, 1) == Started(w, p, FinalCheck(intent));
    OneCall(env, w, p, FinalCheck(intent), sig, FinalSign(intent), []);
    assert Proceeds(env, begun, p, sig, 2) == Started(w, p, FinalSign(intent));
    OneCall(env, w, p, FinalSign(intent), sig, FinalPut(intent, final), [Signed(intent)]);
    assert Proceeds(env, begun, p, sig, 3) == Started(signed, p, FinalPut(intent, final));
    OneCall(env, signed, p, FinalPut(intent, final), sig, FinalSelect(intent), []);
    assert Proceeds(env, begun, p, sig, 4) == Started(put, p, FinalSelect(intent));
    OneCall(env, put, p, FinalSelect(intent), sig, Idle, [Finalized(intent, final)]);
  }

  /** All successful finalizations for one name return one certificate record, which carries the bound intent's digest and serial. */
  lemma CertificateAgreement(env: Env, ws: seq<World>, i: nat, k: nat, l: nat)
    requires IsRun(env, ws) && i < |ws| && k < |ws[i].events| && l < |ws[i].events|
    requires ws[i].events[k].Finalized? && ws[i].events[l].Finalized?
    requires ws[i].events[k].intent.binding.agent == ws[i].events[l].intent.binding.agent
    ensures ws[i].events[k].final == ws[i].events[l].final
    ensures
      var intent, f := ws[i].events[k].intent, ws[i].events[k].final;
      && f.tbsDigest == env.tbsDigest(intent.certificate.tbs) && f.serial == intent.certificate.serial
      && f.intentDigest == env.digest(intent) && f.schema == 1 && 0 < |f.der| <= 16384
  {
    IntentAgreement(env, ws, i, k, l);
    EventBound(env, ws, i, k);
    EventBound(env, ws, i, l);
  }

  /** The signer is only ever called on the intent its agent's name is bound to at that moment. */
  lemma SignsCommitted(env: Env, ws: seq<World>, i: nat, p: nat)
    requires IsRun(env, ws) && i < |ws| && p < |ws[i].procs| && ws[i].procs[p].FinalSign?
    ensures Bound(env, ws[i].store, ws[i].procs[p].intent)
  {
    RunKeeps(env, ws, i);
    assert ProcHolds(env, ws[i].store, ws[i].procs[p]);
  }

  /**
   Nothing is reported to a caller, and no process gets as far as the signer or
   as storing a certificate, except by a call that was answered and authorized.
   */
  lemma AuthorizedOnly(env: Env, w: World, step: Step, w': World)
    requires Next(env, w, step, w') && !(step.Call? && step.reply.Answered? && step.authorized)
    ensures w'.events == w.events || exists i :: w'.events == w.events + [Signed(i)]
    ensures forall p | 0 <= p < |w'.procs| && w'.procs[p] != w.procs[p] :: !w'.procs[p].FinalSign? && !w'.procs[p].FinalPut?
  {
  }

  /** Reports are never taken back. */
  lemma StepReports(env: Env, w: World, w': World)
    requires Moves(env, w, w')
    ensures w.events <= w'.events
  {
    var step :| Next(env, w, step, w');
  }

  lemma {:induction false} RunReports(env: Env, ws: seq<World>, i: nat, j: nat)
    requires IsRun(env, ws) && i <= j < |ws|
    ensures ws[i].events <= ws[j].events
  {
    if i < j {
      RunReports(env, ws, i, j - 1);
      assert Moves(env, ws[j - 1], ws[j]);
      StepReports(env, ws[j - 1], ws[j]);
    }
  }

  /** Agreement across time: a later report for the name says what an earlier one said. */
  lemma AgreementOverTime(env: Env, ws: seq<World>, i: nat, j: nat, k: nat, l: nat)
    requires IsRun(env, ws) && i <= j < |ws| && k < |ws[i].events| && l < |ws[j].events|
    requires ws[i].events[k].intent.binding.agent == ws[j].events[l].intent.binding.agent
    ensures ws[i].events[k].intent == ws[j].events[l].intent
  {
    RunReports(env, ws, i, j);
    assert ws[j].events[k] == ws[i].events[k];
    IntentAgreement(env, ws, j, k, l);
  }
}
