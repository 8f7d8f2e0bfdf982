/**
 Agent certificate issuance as two immutable records in a shared key-value
 store: `agent_issuance.rs`, interleaved with the minting and revoking of
 `mint.rs`. Every store call is an atomic step of some process; a call may
 report an error and still take effect, at once or later.
 */
module Issuance {
  import opened Bytes

  // ── Records ────────────────────────────────────────────────────────────

  datatype Subject = AgentSubject | OtherSubject

  datatype AuthRecord = AuthRecord(keyId: string, subject: Subject, subjectId: string, admin: bool, revoked: bool,
                                   expires: Option<nat>, hasZones: bool)

  datatype Binding = Binding(issuer: string, caller: string, owner: string, agent: string, operation: string,
                             request: string)

  /** The unsigned certificate: everything a signature will cover. */
  datatype CertIntent = CertIntent(agent: string, issuer: string, tbs: bytes, serial: bytes)

  datatype Intent = Intent(schema: nat, binding: Binding, certificate: CertIntent)

  datatype Final = Final(schema: nat, intentDigest: string, tbsDigest: string, serial: bytes, der: bytes)

  /** What a stored value reads as. `Odd` rows are JSON that is not the record it should be. */
  datatype Row =
    | Unreadable
    | Legacy(record: AuthRecord)
    | LegacyOdd
    | Managed(auth: AuthRecord, intent: Intent)
    | ManagedOdd
    | Certificate(final: Final)

  /** The row carries the lifecycle marker. */
  predicate IsManaged(row: Row) {
    row.Managed? || row.ManagedOdd?
  }

  /** Digests and the shape checks of other crates. */
  datatype Env = Env(digest: Intent -> string, tbsDigest: bytes -> string, bindingOk: Binding -> bool,
                     shapeOk: CertIntent -> bool)
  {
    /** Different intents have different digests. */
    ghost predicate Injective() {
      forall i, j :: digest(i) == digest(j) ==> i == j
    }

    predicate ValidIntent(i: Intent) {
      && bindingOk(i.binding) && shapeOk(i.certificate)
      && i.schema == 2 && i.binding.agent == i.certificate.agent && i.binding.issuer == i.certificate.issuer
    }
  }

  // ── Keys ───────────────────────────────────────────────────────────────

  const AGENT_PREFIX := "agent:"
  const LIFECYCLE_PREFIX := "credential-"
  const FINAL_PREFIX := "credential-final:"

  function AgentKey(name: string): string {
    AGENT_PREFIX + name
  }

  function FinalKey(env: Env, i: Intent): string {
    FINAL_PREFIX + env.digest(i)
  }

  predicate IsReserved(key: string) {
    AGENT_PREFIX <= key || LIFECYCLE_PREFIX <= key
  }

  predicate IsHexString(s: string) {
    forall i | 0 <= i < |s| :: '0' <= s[i] <= '9' || 'a' <= s[i] <= 'f'
  }

  lemma AgentKeys(a: string, b: string)
    ensures IsReserved(AgentKey(a)) && (AgentKey(a) == AgentKey(b) ==> a == b)
  {
    assert AgentKey(a)[|AGENT_PREFIX|..] == a && AgentKey(b)[|AGENT_PREFIX|..] == b;
  }

  /** Certificate keys are reserved, no agent's, and no two intents share one. */
  lemma FinalKeys(env: Env, i: Intent, j: Intent, name: string)
    requires env.Injective()
    ensures IsReserved(FinalKey(env, i)) && FinalKey(env, i) != AgentKey(name)
    ensures FinalKey(env, i) == FinalKey(env, j) ==> i == j
  {
    var n := |FINAL_PREFIX|;
    assert LIFECYCLE_PREFIX <= FINAL_PREFIX <= FinalKey(env, i);
    assert FinalKey(env, i)[0] == 'c' && AgentKey(name)[0] == 'a';
    assert FinalKey(env, i)[n..] == env.digest(i) && FinalKey(env, j)[n..] == env.digest(j);
  }

  /** A token's hash is never a reserved key. */
  lemma HexNotReserved(key: string)
    requires IsHexString(key)
    ensures !IsReserved(key)
  {
    assert AGENT_PREFIX[1] == 'g' && LIFECYCLE_PREFIX[1] == 'r';
  }

  // ── Reading ────────────────────────────────────────────────────────────

  datatype IssuanceError =
    | Invalid | NotAuthorized | LegacyNameOccupied | DifferentOperation | DifferentRequest | UnknownOutcome

  /** An agent row that authenticates nobody. */
  predicate FailsClosed(auth: AuthRecord, name: string) {
    && auth.subject.AgentSubject? && auth.subjectId == name && auth.expires == Some(0)
    && !auth.revoked && !auth.admin && !auth.hasZones
  }

  /** `read_intent` on what the store holds under the agent's key. */
  function ReadIntent(env: Env, row: Option<Row>, expected: Binding): Result<Option<Intent>, IssuanceError> {
    if !env.bindingOk(expected) then Err(Invalid)
    else if row.None? then Ok(None)
    else match row.value
      case Unreadable => Err(UnknownOutcome)
      case ManagedOdd => Err(UnknownOutcome)
      case Managed(auth, i) =>
        if !env.ValidIntent(i) then Err(UnknownOutcome)
        else if i.binding.issuer != expected.issuer || i.binding.caller != expected.caller
                || i.binding.owner != expected.owner || i.binding.agent != expected.agent then Err(NotAuthorized)
        else if i.binding.operation != expected.operation then Err(DifferentOperation)
        else if i.binding.request != expected.request then Err(DifferentRequest)
        else if !FailsClosed(auth, i.binding.agent) then Err(UnknownOutcome)
        else Ok(Some(i))
      case _ => Err(LegacyNameOccupied)
  }

  /**
   An intent is read back exactly if it is the committed one, valid, for exactly
   the operation that was asked for, under a record that opens nothing; none
   exactly if nothing is stored. Who asks for another's name is not told more;
   the same parties are told which part of their operation differs.
   */
  lemma ReadIntentExact(env: Env, row: Option<Row>, expected: Binding, i: Intent)
    ensures ReadIntent(env, row, expected) == Ok(Some(i))
       <==> && env.bindingOk(expected) && env.ValidIntent(i) && i.binding == expected
            && exists key :: row == Some(Managed(AuthRecord(key, AgentSubject, expected.agent, false, false, Some(0), false), i))
    ensures ReadIntent(env, row, expected) == Ok(None) <==> env.bindingOk(expected) && row == None
    ensures ReadIntent(env, row, expected) == Err(NotAuthorized) ==>
      row.Some? && row.value.Managed? && row.value.intent.binding
        != expected.(operation := row.value.intent.binding.operation, request := row.value.intent.binding.request)
    ensures ReadIntent(env, row, expected) == Err(DifferentOperation) ==>
      && row.Some? && row.value.Managed? && row.value.intent.binding.operation != expected.operation
      && row.value.intent.binding
         == expected.(operation := row.value.intent.binding.operation, request := row.value.intent.binding.request)
    ensures ReadIntent(env, row, expected) == Err(DifferentRequest) ==>
      && row.Some? && row.value.Managed? && row.value.intent.binding.request != expected.request
      && row.value.intent.binding == expected.(request := row.value.intent.binding.request)
  {
    if ReadIntent(env, row, expected) == Ok(Some(i)) {
      var auth := row.value.auth;
      assert auth == AuthRecord(auth.keyId, AgentSubject, expected.agent, false, false, Some(0), false);
    }
  }

  const MAX_DER := 16 * 1024

  /** The certificate record belongs to the intent. */
  predicate Matches(env: Env, i: Intent, f: Final) {
    && f.schema == 1 && f.intentDigest == env.digest(i) && f.tbsDigest == env.tbsDigest(i.certificate.tbs)
    && f.serial == i.certificate.serial && 0 < |f.der| <= MAX_DER
  }

  function ReadFinal(env: Env, row: Option<Row>, i: Intent): Result<Option<Final>, IssuanceError> {
    if row.None? then Ok(None)
    else if !row.value.Certificate? || !Matches(env, i, row.value.final) then Err(UnknownOutcome)
    else Ok(Some(row.value.final))
  }

  /** What legacy rotation may overwrite. */
  predicate RequireLegacy(row: Row, name: string) {
    row.Legacy? && row.record.subject.AgentSubject? && row.record.subjectId == name
  }

  // ── The store and what calls do to it ──────────────────────────────────

  type Store = map<string, Row>

  function Get(s: Store, key: string): Option<Row> {
    if key in s then Some(s[key]) else None
  }

  datatype Effect = Insert(key: string, row: Row) | Put(key: string, row: Row) | Delete(key: string)

  function Apply(s: Store, e: Effect): Store {
    match e
    case Insert(key, row) => if key in s then s else s[key := row]
    case Put(key, row) => s[key := row]
    case Delete(key) => s - {key}
  }

  // ── Processes ──────────────────────────────────────────────────────────

  /** Where a process is: the next store call it will make. */
  datatype Proc =
    | Idle
    | CommitPut(auth: AuthRecord, candidate: Intent)
    | CommitRead(candidate: Intent)
    | FinalRead(expected: Binding)
    | FinalCheck(intent: Intent)
    | FinalSign(intent: Intent)
    | FinalPut(intent: Intent, final: Final)
    | FinalSelect(intent: Intent)
    | QueryRead(expected: Binding)
    | QueryFinal(intent: Intent)
    | MintRead(record: AuthRecord)
    | MintPut(record: AuthRecord)
    | MintInsert(record: AuthRecord)

  /** What a process has learned or done: a reported intent, a reported certificate, a call of the signer. */
  datatype Event = Committed(intent: Intent) | Finalized(intent: Intent, final: Final) | Signed(intent: Intent)

  /** `late` holds effects whose call reported an error; they may still happen. */
  datatype World = World(store: Store, procs: seq<Proc>, late: set<Effect>, events: seq<Event>)

  /** How a mutating call comes back: with its answer, or with an error, having taken effect or not. */
  datatype Reply = Answered | Failed(applied: bool)

  /** What a signer hands back. */
  datatype Signature = Signature(tbs: bytes, serial: bytes, der: bytes)

  datatype Step =
    | Start(p: nat, proc: Proc)
    | Call(p: nat, reply: Reply, authorized: bool, signature: Option<Signature>)
    | Arrive(effect: Effect)
    | MintToken(hash: string, record: AuthRecord)
    | RevokeToken(hash: string)
    | RevokeHash(key: string)

  /** The states an operation may start in, its own checks passed. */
  predicate Starts(env: Env, proc: Proc) {
    match proc
    case CommitPut(auth, candidate) =>
      && env.ValidIntent(candidate) && auth.subject.AgentSubject? && auth.subjectId == candidate.binding.agent
      && !auth.admin && !auth.revoked && !auth.hasZones && auth.expires.None?
    case FinalRead(expected) => env.bindingOk(expected)
    case QueryRead(expected) => env.bindingOk(expected)
    case MintRead(record) => record.subject.AgentSubject?
    case MintInsert(record) => record.subject.AgentSubject?
    case _ => false
  }

  /** The effect of the process's next call, if it changes the store. */
  function CallEffect(env: Env, proc: Proc): Option<Effect> {
    match proc
    case CommitPut(auth, candidate) =>
      Some(Insert(AgentKey(candidate.binding.agent), Managed(auth.(expires := Some(0)), candidate)))
    case FinalPut(intent, final) => Some(Insert(FinalKey(env, intent), Certificate(final)))
    case MintPut(record) => Some(Put(AgentKey(record.subjectId), Legacy(record)))
    case MintInsert(record) => Some(Insert(AgentKey(record.subjectId), Legacy(record)))
    case _ => None
  }

  /** Where the process goes when its call is answered, and what it reports. */
  function Answer(env: Env, s: Store, proc: Proc, authorized: bool, signature: Option<Signature>): (Proc, seq<Event>) {
    match proc
    case Idle => (Idle, [])
    case CommitPut(auth, candidate) =>
      if AgentKey(candidate.binding.agent) in s then (CommitRead(candidate), [])
      else (Idle, if authorized then [Committed(candidate)] else [])
    case CommitRead(candidate) =>
      var r := ReadIntent(env, Get(s, AgentKey(candidate.binding.agent)), candidate.binding);
      (Idle, if r.Ok? && r.value.Some? && authorized then [Committed(r.value.value)] else [])
    case FinalRead(expected) =>
      var r := ReadIntent(env, Get(s, AgentKey(expected.agent)), expected);
      (if r.Ok? && r.value.Some? then FinalCheck(r.value.value) else Idle, [])
    case FinalCheck(intent) =>
      var r := ReadFinal(env, Get(s, FinalKey(env, intent)), intent);
      if r.Err? || !authorized then (Idle, [])
      else if r.value.Some? then (Idle, [Finalized(intent, r.value.value)])
      else (FinalSign(intent), [])
    case FinalSign(intent) =>
      (if signature.Some? && authorized && SignatureFits(intent, signature.value)
       then FinalPut(intent, FinalOf(env, intent, signature.value)) else Idle, [Signed(intent)])
    case FinalPut(intent, final) => (FinalSelect(intent), [])
    case FinalSelect(intent) =>
      var r := ReadFinal(env, Get(s, FinalKey(env, intent)), intent);
      (Idle, if r.Ok? && r.value.Some? && authorized then [Finalized(intent, r.value.value)] else [])
    case QueryRead(expected) =>
      var r := ReadIntent(env, Get(s, AgentKey(expected.agent)), expected);
      (if r.Ok? && r.value.Some? then QueryFinal(r.value.value) else Idle, [])
    case QueryFinal(intent) =>
      var r := ReadFinal(env, Get(s, FinalKey(env, intent)), intent);
      (Idle, if r.Err? || !authorized then []
             else if r.value.Some? then [Finalized(intent, r.value.value)] else [Committed(intent)])
    case MintRead(record) =>
      var row := Get(s, AgentKey(record.subjectId));
      (if row.None? then MintInsert(record)
       else if RequireLegacy(row.value, record.subjectId) then MintPut(record) else Idle, [])
    case MintPut(record) => (Idle, [])
    case MintInsert(record) => (Idle, [])
  }

  /** The signer signed the committed certificate and nothing else. */
  predicate SignatureFits(i: Intent, s: Signature) {
    s.tbs == i.certificate.tbs && s.serial == i.certificate.serial && 0 < |s.der| <= MAX_DER
  }

  function FinalOf(env: Env, i: Intent, s: Signature): Final {
    Final(1, env.digest(i), env.tbsDigest(s.tbs), s.serial, s.der)
  }

  /** One store call of process `p`, or a call of the signer. */
  function Called(env: Env, w: World, p: nat, reply: Reply, authorized: bool, signature: Option<Signature>): World
    requires p < |w.procs|
  {
    var proc := w.procs[p];
    var effect := CallEffect(env, proc);
    match reply
    case Answered =>
      var (proc', events) := Answer(env, w.store, proc, authorized, signature);
      World(if effect.Some? then Apply(w.store, effect.value) else w.store, w.procs[p := proc'], w.late, w.events + events)
    case Failed(applied) =>
      World(if effect.Some? && applied then Apply(w.store, effect.value) else w.store, w.procs[p := Idle],
            if effect.Some? then w.late + {effect.value} else w.late, w.events)
  }

  ghost predicate Next(env: Env, w: World, step: Step, w': World) {
    match step
    case Start(p, proc) =>
      p < |w.procs| && w.procs[p].Idle? && Starts(env, proc) && w' == w.(procs := w.procs[p := proc])
    case Call(p, reply, authorized, signature) =>
      p < |w.procs| && w' == Called(env, w, p, reply, authorized, signature)
    case Arrive(effect) => effect in w.late && w' == w.(store := Apply(w.store, effect))
    case MintToken(hash, record) =>
      IsHexString(hash) && w' == w.(store := Apply(w.store, Put(hash, Legacy(record))), late := w.late + {Put(hash, Legacy(record))})
    case RevokeToken(hash) =>
      IsHexString(hash) && w' == w.(store := Apply(w.store, Delete(hash)), late := w.late + {Delete(hash)})
    case RevokeHash(key) =>
      !IsReserved(key) && w' == w.(store := Apply(w.store, Delete(key)), late := w.late + {Delete(key)})
  }

  predicate Init(w: World) {
    w.late == {} && w.events == [] && forall i | 0 <= i < |w.procs| :: w.procs[i].Idle?
  }
}
