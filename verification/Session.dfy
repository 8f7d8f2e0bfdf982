/**
 The session protocol's codecs: `session.rs` and the codec in `session.ts`.
 Serialized JSON is represented by what the two parsers can tell apart.
 */
module Session {
  import opened Bytes

  const PROTOCOL := "acp-mailbox/1"
  const MAX_SAFE_INTEGER := 9_007_199_254_740_991
  const MAX_FRAME_BYTES := 4 * 1024 * 1024

  // ── What a record holds ────────────────────────────────────────────────

  /** A member of a JSON object, as far as a check for a string can tell. */
  datatype Field = Missing | Text(text: string) | Other

  /**
   A JSON number. `Integer` is one the Rust parser keeps as an integer: spelled
   as one, in the range of its 64-bit types, and not `-0`. Any other is a
   double there, as all are in Node; `whole` is the whole number that double
   stands for, if it stands for one.
   */
  datatype Number = Integer(value: int) | Floating(whole: Option<int>)

  datatype Id = NoId | TextId(text: string) | NumberId(number: Number) | OddId

  /**
   `strict` says that the Rust parser can read what is written: it holds no
   half of a surrogate pair, no number out of range, no nesting past its limit.
   Node's parser reads all of these.
   */
  datatype Rpc =
    | NotAnObject
    | Message(version: Field, id: Id, verb: Field, hasResult: bool, hasError: bool, content: string, strict: bool)

  datatype Payload = Rpc(message: Rpc) | Closed(reason: string)

  /** The payload part of a frame, before it is known to be one. */
  datatype PayloadField = RpcField(message: Option<Rpc>) | ClosedField(reason: Field) | UnknownField

  /** The body of a record; `strict` is about everything in it but the message. */
  datatype Body =
    | NotText
    | Unparsable
    | NotObject(strict: bool)
    | Frame(strict: bool, channel: Field, protocol: Field, sequence: Option<Number>, payload: PayloadField)

  /** One record of the shared log. `Mail` is any JSON whose kind is not `session`. */
  datatype Record =
    | Empty
    | Garbage
    | Mail(strict: bool)
    | Session(strict: bool, size: nat, from: Field, to: Field, body: Body)

  // ── Numbers and payloads ───────────────────────────────────────────────

  predicate IsSafe(value: int) {
    -MAX_SAFE_INTEGER <= value <= MAX_SAFE_INTEGER
  }

  /** What `Number.isSafeInteger` finds; an integer past the bound becomes a double past it. */
  function SafeWhole(n: Number): Option<int> {
    match n
    case Integer(v) => if IsSafe(v) then Some(v) else None
    case Floating(Some(v)) => if IsSafe(v) then Some(v) else None
    case Floating(None) => None
  }

  /** What the Rust parser takes for an unsigned integer. */
  function Unsigned(n: Option<Number>): Option<nat> {
    match n
    case Some(Integer(v)) => if v >= 0 then Some(v) else None
    case _ => None
  }

  /** The checks the two implementations share, apart from that of the id. */
  predicate ValidShape(m: Rpc) {
    && m.Message? && m.version == Text("2.0")
    && if !m.verb.Missing?
       then m.verb.Text? && !m.hasResult && !m.hasError
       else !m.id.NoId? && m.hasResult != m.hasError
  }

  /** `validate_payload`. */
  predicate ValidRpc(m: Rpc) {
    ValidShape(m) && (m.id.NoId? || m.id.TextId? || (m.id.NumberId? && m.id.number.Integer? && IsSafe(m.id.number.value)))
  }

  /** `rpcMessage` on the other side. */
  predicate NodeValidRpc(m: Rpc) {
    ValidShape(m) && (m.id.NoId? || m.id.TextId? || (m.id.NumberId? && SafeWhole(m.id.number).Some?))
  }

  predicate ValidPayload(p: Payload) {
    p.Rpc? ==> ValidRpc(p.message)
  }

  predicate NodeValidPayload(p: Payload) {
    p.Rpc? ==> NodeValidRpc(p.message)
  }

  predicate StrictPayload(p: Payload) {
    p.Rpc? && p.message.Message? ==> p.message.strict
  }

  /** The payload a field reads as, in either implementation. */
  function ReadPayload(f: PayloadField): Option<Payload> {
    match f
    case RpcField(Some(m)) => Some(Rpc(m))
    case ClosedField(Text(reason)) => Some(Closed(reason))
    case _ => None
  }

  function WritePayload(p: Payload): PayloadField {
    match p
    case Rpc(m) => RpcField(Some(m))
    case Closed(reason) => ClosedField(Text(reason))
  }

  /** The Rust parser can read the body's text. */
  predicate StrictBody(b: Body) {
    match b
    case Frame(strict, _, _, _, payload) => strict && (ReadPayload(payload).Some? ==> StrictPayload(ReadPayload(payload).value))
    case NotObject(strict) => strict
    case _ => true
  }

  // ── One attachment ─────────────────────────────────────────────────────

  datatype Side = Agent | Controller

  /** Whose codec it is: who it writes as, whom it reads from, and which generation it belongs to. */
  datatype Attachment = Attachment(sender: string, recipient: string, channel: string) {
    predicate Valid() {
      sender != "" && recipient != "" && sender != recipient && channel != ""
    }

    function Peer(): Attachment {
      Attachment(recipient, sender, channel)
    }
  }

  /** What the control plane hands out. */
  datatype Endpoint = Endpoint(protocol: string, channel: string, agent: string, controller: string, transcript: string)

  /** Distinct, named participants, a generation, and the pair's own transcript; `address` names that. */
  predicate Sound(e: Endpoint, address: (string, string) -> string) {
    && e.protocol == PROTOCOL && e.agent != "" && e.controller != "" && e.agent != e.controller && e.channel != ""
    && e.transcript == address(e.agent, e.controller)
  }

  /** The attachment of one side, checked in the order of `validate`. */
  function Attach(e: Endpoint, side: Side, address: (string, string) -> string): (a: Option<Attachment>) {
    if e.protocol != PROTOCOL then None
    else if e.agent == "" || e.controller == "" || e.agent == e.controller then None
    else if e.channel == "" then None
    else if e.transcript != address(e.agent, e.controller) then None
    else match side
      case Agent => Some(Attachment(e.agent, e.controller, e.channel))
      case Controller => Some(Attachment(e.controller, e.agent, e.channel))
  }

  /** Exactly a sound endpoint attaches; its two sides are each other's peers, and each writes as itself. */
  lemma AttachExact(e: Endpoint, side: Side, address: (string, string) -> string)
    ensures Attach(e, side, address).Some? <==> Sound(e, address)
    ensures Sound(e, address) ==>
      var agent, controller := Attach(e, Agent, address).value, Attach(e, Controller, address).value;
      && agent.Valid() && controller.Valid() && controller == agent.Peer() && agent == controller.Peer()
      && agent.sender == e.agent && controller.sender == e.controller && agent.channel == controller.channel == e.channel
  {
  }

  datatype Fault =
    | NotJson | TooLarge | BadEnvelope | BadBody | BadFrame | WrongParticipants | WrongProtocol | BadSequence
    | Gap | BadPayload | Exhausted

  /** What reading one record comes to. */
  datatype Outcome = Skip | Deliver(payload: Payload) | Fail(fault: Fault)

  /** The record a codec writes for its frame number `n`. */
  function FrameOf(a: Attachment, n: nat, p: Payload, size: nat): Record {
    Session(true, size, Text(a.sender), Text(a.recipient),
            Frame(true, Text(a.channel), Text(PROTOCOL), Some(Integer(n)), WritePayload(p)))
  }

  function FromText(f: Field): Option<string> {
    match f
    case Missing => Some("")
    case Text(s) => Some(s)
    case Other => None
  }

  /** `SessionCodec::decode`, in the order of its checks. */
  function Read(a: Attachment, received: nat, r: Record): Outcome {
    match r
    case Empty => Fail(NotJson)
    case Garbage => Fail(NotJson)
    case Mail(strict) => if strict then Skip else Fail(NotJson)
    case Session(strict, size, from, to, body) =>
      if !strict then Fail(NotJson)
      else if size > MAX_FRAME_BYTES then Fail(TooLarge)
      else if FromText(from).None? || !to.Text? || body.NotText? then Fail(BadEnvelope)
      else if FromText(from).value == a.sender && to.text == a.recipient then Skip
      else if body.Unparsable? || !StrictBody(body) then Fail(BadBody)
      else if body.NotObject? || body.channel != Text(a.channel) then Skip
      else if !body.protocol.Text? || Unsigned(body.sequence).None? || ReadPayload(body.payload).None? then Fail(BadFrame)
      else if FromText(from).value != a.recipient || to.text != a.sender then Fail(WrongParticipants)
      else if body.protocol.text != PROTOCOL then Fail(WrongProtocol)
      else
        var n := Unsigned(body.sequence).value;
        if n == 0 || n > MAX_SAFE_INTEGER then Fail(BadSequence)
        else if n <= received then Skip
        else if n != received + 1 then Fail(Gap)
        else if !ValidPayload(ReadPayload(body.payload).value) then Fail(BadPayload)
        else Deliver(ReadPayload(body.payload).value)
  }

  /** The Node codec's `decode`: the same checks, some in another order, behind a more permissive parser. */
  function NodeRead(a: Attachment, received: nat, r: Record): Outcome {
    match r
    case Empty => Fail(NotJson)
    case Garbage => Fail(NotJson)
    case Mail(_) => Skip
    case Session(_, size, from, to, body) =>
      if size > MAX_FRAME_BYTES then Fail(TooLarge)
      else if from == Text(a.sender) && to == Text(a.recipient) then Skip
      else if body.NotText? then Fail(BadEnvelope)
      else if body.Unparsable? then Fail(BadBody)
      else if body.NotObject? then Fail(BadFrame)
      else if body.channel != Text(a.channel) then Skip
      else if from != Text(a.recipient) || to != Text(a.sender) then Fail(WrongParticipants)
      else if body.protocol != Text(PROTOCOL) then Fail(WrongProtocol)
      else if body.sequence.None? || SafeWhole(body.sequence.value).None? || SafeWhole(body.sequence.value).value < 1
      then Fail(BadSequence)
      else
        var n := SafeWhole(body.sequence.value).value;
        if n <= received then Skip
        else if n != received + 1 then Fail(Gap)
        else match body.payload
          case RpcField(None) => Fail(BadPayload)
          case _ =>
            if ReadPayload(body.payload).None? then Fail(BadFrame)
            else if !NodeValidPayload(ReadPayload(body.payload).value) then Fail(BadPayload)
            else Deliver(ReadPayload(body.payload).value)
  }

  // ── Where the two implementations differ ───────────────────────────────

  /** The id is not a number, or is one that both parsers keep as an integer. */
  predicate PlainId(m: Rpc) {
    m.Message? && m.id.NumberId? ==> m.id.number.Integer?
  }

  /** Written so that the Rust parser reads it, with the sequence and the id spelled as integers. */
  predicate Plain(r: Record) {
    && r.Session? && r.strict && r.body.Frame? && StrictBody(r.body)
    && r.body.sequence.Some? && r.body.sequence.value.Integer?
    && (r.body.payload.RpcField? && r.body.payload.message.Some? ==> PlainId(r.body.payload.message.value))
  }

  /** Rust delivers exactly what Node delivers of the plainly written records, and the same payload. */
  lemma SameDeliveries(a: Attachment, received: nat, r: Record, p: Payload)
    requires a.Valid()
    ensures Read(a, received, r) == Deliver(p) <==> NodeRead(a, received, r) == Deliver(p) && Plain(r)
  {
  }

  /** The envelope is for this reader to look into: of a bearable size, and not its own writing. */
  predicate LooksInto(a: Attachment, r: Record)
    requires r.Session?
  {
    r.size <= MAX_FRAME_BYTES && !(r.from == Text(a.sender) && r.to == Text(a.recipient))
  }

  /** The members the Rust envelope asks for. */
  predicate GoodEnvelope(r: Record)
    requires r.Session?
  {
    FromText(r.from).Some? && r.to.Text? && !r.body.NotText?
  }

  /** A frame of the reader's channel that Rust can make nothing of, while Node looks at its payload last. */
  predicate OddFrame(a: Attachment, b: Body) {
    b.Frame? && b.channel == Text(a.channel) && (Unsigned(b.sequence).None? || ReadPayload(b.payload).None?)
  }

  /** The reader's next frame, with a message whose id is not spelled as an integer. */
  predicate OddNext(a: Attachment, received: nat, b: Body) {
    && b.Frame? && b.channel == Text(a.channel) && Unsigned(b.sequence) == Some(received + 1)
    && b.payload.RpcField? && b.payload.message.Some? && !PlainId(b.payload.message.value)
  }

  /**
   What Rust refuses and Node need not: text only Node's parser reads, an
   envelope that lacks a member, a frame whose sequence is not spelled as an
   integer or that has no payload, and the next frame if the id of its message
   is not spelled as an integer.
   */
  predicate RustMinds(a: Attachment, received: nat, r: Record) {
    match r
    case Mail(strict) => !strict
    case Session(strict, _, _, _, body) =>
      if !strict then true
      else if !LooksInto(a, r) then body.NotText?
      else !GoodEnvelope(r) || !StrictBody(body) || OddFrame(a, body) || OddNext(a, received, body)
    case _ => false
  }

  /** What Node refuses and Rust does not: a body that is JSON but not an object. */
  predicate OnlyNodeMinds(a: Attachment, r: Record) {
    r.Session? && r.strict && LooksInto(a, r) && GoodEnvelope(r) && r.body == NotObject(true)
  }

  /**
   Of what Node does not refuse, Rust refuses exactly what it minds, and does
   the same with the rest; of what Node refuses, Rust skips exactly what only
   Node minds, and refuses the rest.
   */
  lemma SameOutcomes(a: Attachment, received: nat, r: Record)
    requires a.Valid()
    ensures !NodeRead(a, received, r).Fail? ==>
      if RustMinds(a, received, r) then Read(a, received, r).Fail? else Read(a, received, r) == NodeRead(a, received, r)
    ensures NodeRead(a, received, r).Fail? ==>
      if OnlyNodeMinds(a, r) then Read(a, received, r) == Skip else Read(a, received, r).Fail?
  {
  }

  /** A frame of the peer whose sequence is spelled `1.0`, and one whose message has the id `1.0`. */
  lemma FloatSpelled(a: Attachment, p: Payload, m: Rpc)
    requires a.Valid() && ValidPayload(p) && StrictPayload(p) && ValidRpc(m) && m.strict
    ensures
      var r := FrameOf(a.Peer(), 1, p, 0);
      var r' := r.(body := r.body.(sequence := Some(Floating(Some(1)))));
      Read(a, 0, r') == Fail(BadFrame) && NodeRead(a, 0, r') == Deliver(p)
    ensures
      var m' := m.(id := NumberId(Floating(Some(1))));
      Read(a, 0, FrameOf(a.Peer(), 1, Rpc(m'), 0)) == Fail(BadPayload)
      && NodeRead(a, 0, FrameOf(a.Peer(), 1, Rpc(m'), 0)) == Deliver(Rpc(m'))
  {
  }

  /** A message with half a surrogate pair is encoded, and then only the Node implementation can read it. */
  lemma HalfPairSent(a: Attachment, m: Rpc)
    requires a.Valid() && ValidRpc(m) && !m.strict
    ensures EncodeFault(0, Rpc(m), 0).None?
    ensures Read(a.Peer(), 0, FrameOf(a, 1, Rpc(m), 0)) == Fail(BadBody)
    ensures NodeRead(a.Peer(), 0, FrameOf(a, 1, Rpc(m), 0)) == Deliver(Rpc(m))
  {
  }

  // ── The codec ──────────────────────────────────────────────────────────

  /** Why a payload is not encoded, if it is not. */
  function EncodeFault(sent: nat, p: Payload, size: nat): Option<Fault> {
    if !ValidPayload(p) then Some(BadPayload)
    else if sent + 1 > MAX_SAFE_INTEGER then Some(Exhausted)
    else if size > MAX_FRAME_BYTES then Some(TooLarge)
    else None
  }

  /** One side's counters. `node` picks the Node implementation's order of checks. */
  class SessionCodec {
    const a: Attachment
    const node: bool
    var sent: nat
    var received: nat

    constructor (a: Attachment, node: bool)
      ensures this.a == a && this.node == node && sent == 0 && received == 0
    {
      this.a, this.node, sent, received := a, node, 0, 0;
    }

    function Outcome(r: Record): Outcome
      reads this
    {
      if node then NodeRead(a, received, r) else Read(a, received, r)
    }

    /** `size` is the serialized frame's length. A refusal leaves the counters as they were. */
    method Encode(p: Payload, size: nat) returns (r: Result<Record, Fault>)
      modifies this
      ensures received == old(received)
      ensures r.Err? <==> EncodeFault(old(sent), p, size).Some?
      ensures r.Err? ==> sent == old(sent) && EncodeFault(sent, p, size) == Some(r.error)
      ensures r.Ok? ==> sent == old(sent) + 1 && r.value == FrameOf(a, sent, p, size)
      ensures r.Ok?
         <==> && old(sent) < 9007199254740991 && size <= 4194304
              && (p.Rpc? ==> (IsRequest(p.message) || IsResponse(p.message)) && PlainlyNamed(p.message))
    {
      if !ValidPayload(p) {
        return Err(BadPayload);
      }
      var sequence := sent + 1;
      if sequence > MAX_SAFE_INTEGER {
        return Err(Exhausted);
      }
      var record := FrameOf(a, sequence, p, size);
      if record.size > MAX_FRAME_BYTES {
        return Err(TooLarge);
      }
      sent := sequence;
      r := Ok(record);
    }

    /** Only a delivery moves the counter, and by one. */
    method Decode(record: Record) returns (r: Result<Option<Payload>, Fault>)
      modifies this
      ensures sent == old(sent)
      ensures received == old(received) + if old(Outcome(record)).Deliver? then 1 else 0
      ensures r == match old(Outcome(record))
                   case Skip => Ok(None)
                   case Deliver(p) => Ok(Some(p))
                   case Fail(fault) => Err(fault)
    {
      match Outcome(record) {
        case Skip => r := Ok(None);
        case Deliver(p) =>
          received := if node then SafeWhole(record.body.sequence.value).value else Unsigned(record.body.sequence).value;
          r := Ok(Some(p));
        case Fail(fault) => r := Err(fault);
      }
    }
  }

  // ── Which messages go through ──────────────────────────────────────────

  /** A request or a notification: a method, and no outcome. */
  predicate IsRequest(m: Rpc) {
    m.Message? && m.version == Text("2.0") && m.verb.Text? && !m.hasResult && !m.hasError
  }

  /** A response: no method, an id, and one outcome. */
  predicate IsResponse(m: Rpc) {
    && m.Message? && m.version == Text("2.0") && m.verb.Missing?
    && !m.id.NoId? && (m.hasResult || m.hasError) && !(m.hasResult && m.hasError)
  }

  /** No id, a string, or a number both parsers keep as a safe integer. */
  predicate PlainlyNamed(m: Rpc) {
    && m.Message?
    && match m.id
       case NoId => true
       case TextId(_) => true
       case NumberId(Integer(v)) => -9007199254740991 <= v <= 9007199254740991
       case _ => false
  }

  /** As Node reads ids: also a double that is a safe integer. */
  predicate Named(m: Rpc) {
    && m.Message?
    && match m.id
       case NumberId(Floating(Some(v))) => -9007199254740991 <= v <= 9007199254740991
       case _ => PlainlyNamed(m)
  }

  /**
   Exactly the requests, notifications and responses with a plain id are encoded
   and, as the peer's next frame, delivered by Rust, which must be able to read
   them; Node delivers those and the ones whose id is a double that is an
   integer. Every other message is refused.
   */
  lemma MessageExact(a: Attachment, received: nat, m: Rpc, size: nat)
    requires a.Valid() && received < 9007199254740991 && size <= 4194304
    ensures EncodeFault(received, Rpc(m), size)
         == if (IsRequest(m) || IsResponse(m)) && PlainlyNamed(m) then None else Some(BadPayload)
    ensures
      var o := Read(a, received, FrameOf(a.Peer(), received + 1, Rpc(m), size));
      if m.Message? && !m.strict then o == Fail(BadBody)
      else if (IsRequest(m) || IsResponse(m)) && PlainlyNamed(m) then o == Deliver(Rpc(m)) else o == Fail(BadPayload)
    ensures NodeRead(a, received, FrameOf(a.Peer(), received + 1, Rpc(m), size))
         == if (IsRequest(m) || IsResponse(m)) && Named(m) then Deliver(Rpc(m)) else Fail(BadPayload)
  {
  }

  /** Notices of closing always go through. */
  lemma ClosedExact(a: Attachment, received: nat, reason: string, size: nat)
    requires a.Valid() && received < 9007199254740991 && size <= 4194304
    ensures EncodeFault(received, Closed(reason), size).None?
    ensures
      var r := FrameOf(a.Peer(), received + 1, Closed(reason), size);
      Read(a, received, r) == NodeRead(a, received, r) == Deliver(Closed(reason))
  {
  }

  // ── Writing and reading back ───────────────────────────────────────────

  /** What the peer, the writer itself and any other generation make of a frame. */
  lemma FrameRead(a: Attachment, n: nat, p: Payload, size: nat, received: nat, node: bool)
    requires a.Valid() && 1 <= n <= MAX_SAFE_INTEGER && ValidPayload(p) && size <= MAX_FRAME_BYTES
    ensures
      var r := FrameOf(a, n, p, size);
      (if node then NodeRead(a.Peer(), received, r) else Read(a.Peer(), received, r))
      == if !node && !StrictPayload(p) then Fail(BadBody)
         else if n <= received then Skip else if n == received + 1 then Deliver(p) else Fail(Gap)
    ensures Read(a, received, FrameOf(a, n, p, size)) == Skip == NodeRead(a, received, FrameOf(a, n, p, size))
    ensures forall c | c != a.channel ::
      NodeRead(a.Peer().(channel := c), received, FrameOf(a, n, p, size)) == Skip
      && Read(a.Peer().(channel := c), received, FrameOf(a, n, p, size)) == if StrictPayload(p) then Skip else Fail(BadBody)
  {
  }
}
