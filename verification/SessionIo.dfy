/**
 The two transports that carry a session over the shared log:
 `SessionMailbox` in `session_io.rs` and `NexusSessionTransport` in
 `session.ts`. Each call into the kernel appears as its reply.
 */
module SessionIo {
  import opened Bytes
  import opened Session

  /** What one side knows: its counters, its place in the log, and whether it is closed. */
  datatype Port = Port(sent: nat, received: nat, offset: nat, closed: bool)

  const START := Port(0, 0, 0, false)

  datatype ReadReply =
    | NoData
    | Data(record: Record, next: Option<nat>)
    | Truncated(earliest: nat, at: nat)
    | ReadError(retryable: bool)

  /** `Hit` is the only reply that says the append took effect. */
  datatype WriteReply = Hit | Miss | WriteError

  datatype IoFault = ChannelClosed | CannotRead | NotFramed | NotAdvancing | Codec(fault: Fault) | OutcomeUnknown

  function Reading(a: Attachment, node: bool, received: nat, r: Record): Outcome {
    if node then NodeRead(a, received, r) else Read(a, received, r)
  }

  /** A read that went wrong: the Node transport closes, the Rust one reports and stays. */
  function Failed(node: bool, p: Port): Port {
    if node then p.(closed := true) else p
  }

  /** The port after one read of the log. */
  function AfterRead(a: Attachment, node: bool, p: Port, reply: ReadReply): Port {
    if p.closed then p
    else match reply
      case NoData => p
      case ReadError(retryable) => if retryable then p else Failed(node, p)
      case Truncated(earliest, at) =>
        if at == 0 && p.offset == 0 && earliest > 0 then p.(offset := earliest) else Failed(node, p)
      case Data(record, next) =>
        if record.Empty? then p
        else if next.None? || next.value <= p.offset then Failed(node, p)
        else match Reading(a, node, p.received, record)
          case Skip => p.(offset := next.value)
          case Fail(_) => Failed(node, p)
          case Deliver(payload) => Port(p.sent, p.received + 1, next.value, payload.Closed?)
  }

  /** What the caller is handed. */
  function Handed(a: Attachment, node: bool, p: Port, reply: ReadReply): Option<Payload> {
    if p.closed || !reply.Data? || reply.record.Empty? || reply.next.None? || reply.next.value <= p.offset then None
    else match Reading(a, node, p.received, reply.record)
      case Deliver(payload) => Some(payload)
      case _ => None
  }

  /** A read either hands over the next payload in sequence or leaves the counters alone; an error moves nothing. */
  lemma ReadEffects(a: Attachment, node: bool, p: Port, reply: ReadReply)
    ensures AfterRead(a, node, p, reply).sent == p.sent
    ensures AfterRead(a, node, p, reply).received == p.received + if Handed(a, node, p, reply).Some? then 1 else 0
    ensures p.offset <= AfterRead(a, node, p, reply).offset
    ensures reply.Data? && Reading(a, node, p.received, reply.record).Fail? ==>
      && AfterRead(a, node, p, reply).offset == p.offset && AfterRead(a, node, p, reply).received == p.received
  {
  }

  // ── The kernel-backed mailbox ──────────────────────────────────────────

  /** Reading and writing have a codec each, as each is under its own lock. */
  class SessionMailbox {
    const a: Attachment
    const reader: SessionCodec
    const writer: SessionCodec
    var offset: nat
    var closed: bool
    /** Every record handed to the kernel, in order. */
    ghost var attempts: seq<Record>
    /** Whether some append's outcome is unknown. */
    ghost var uncertain: bool

    ghost predicate Valid()
      reads this, reader, writer
    {
      && reader != writer && reader.a == writer.a == a && !reader.node && !writer.node
      && |attempts| == writer.sent && (forall i | 0 <= i < |attempts| :: IsFrame(a, i + 1, attempts[i]))
      && (uncertain ==> closed)
    }

    ghost function State(): Port
      reads this, reader, writer
    {
      Port(writer.sent, reader.received, offset, closed)
    }

    constructor (a: Attachment)
      ensures Valid() && this.a == a && State() == START && attempts == []
      ensures fresh(reader) && fresh(writer)
    {
      this.a := a;
      reader := new SessionCodec(a, false);
      writer := new SessionCodec(a, false);
      offset, closed, attempts, uncertain := 0, false, [], false;
    }

    /** Appends one frame. Any reply but a hit closes the channel for good: no later frame can leave a gap. */
    method Send(payload: Payload, size: nat, reply: WriteReply) returns (r: Result<(), IoFault>)
      requires Valid()
      modifies this, writer
      ensures Valid()
      ensures old(closed) || EncodeFault(old(writer.sent), payload, size).Some? ==>
        r.Err? && State() == old(State()) && attempts == old(attempts)
      ensures !old(closed) && EncodeFault(old(writer.sent), payload, size).None? ==>
        && attempts == old(attempts) + [FrameOf(a, old(writer.sent) + 1, payload, size)]
        && State() == old(State()).(sent := old(writer.sent) + 1, closed := !reply.Hit? || payload.Closed?)
        && (r.Ok? <==> reply.Hit?)
      ensures old(closed) ==> closed
    {
      if closed {
        return Err(ChannelClosed);
      }
      var encoded := writer.Encode(payload, size);
      if encoded.Err? {
        return Err(Codec(encoded.error));
      }
      attempts := attempts + [encoded.value];
      if !reply.Hit? {
        closed, uncertain := true, true;
        return Err(OutcomeUnknown);
      }
      if payload.Closed? {
        closed := true;
      }
      r := Ok(());
    }

    /** Consumes one record of the log. */
    method Receive(reply: ReadReply) returns (r: Result<Option<Payload>, IoFault>)
      requires Valid()
      modifies this`offset, this`closed, reader
      ensures Valid()
      ensures State() == AfterRead(a, false, old(State()), reply)
      ensures (if r.Ok? then r.value else None) == Handed(a, false, old(State()), reply)
      ensures r.Err? ==> State() == old(State())
      ensures reply.Data? && !old(closed) && !reply.record.Empty? && Read(a, old(reader.received), reply.record).Fail? ==> r.Err?
    {
      if closed {
        return Err(ChannelClosed);
      }
      match reply {
        case NoData => return Ok(None);
        case ReadError(_) => return Err(CannotRead);
        case Truncated(earliest, at) =>
          if at == 0 && offset == 0 && earliest > 0 {
            offset := earliest;
            return Ok(None);
          }
          return Err(CannotRead);
        case Data(record, next) =>
          if record.Empty? {
            return Ok(None);
          }
          if next.None? {
            return Err(NotFramed);
          }
          if next.value <= offset {
            return Err(NotAdvancing);
          }
          var decoded := reader.Decode(record);
          if decoded.Err? {
            return Err(Codec(decoded.error));
          }
          offset := next.value;
          if decoded.value.Some? && decoded.value.value.Closed? {
            closed := true;
          }
          r := Ok(decoded.value);
      }
    }
  }

  /** A frame of the attachment, numbered `n`, that its peer can read. */
  predicate IsFrame(a: Attachment, n: nat, r: Record) {
    && r.Session? && r.size <= MAX_FRAME_BYTES && r.body.Frame? && 1 <= n <= MAX_SAFE_INTEGER
    && ReadPayload(r.body.payload).Some? && ValidPayload(ReadPayload(r.body.payload).value)
    && r == FrameOf(a, n, ReadPayload(r.body.payload).value, r.size)
  }

  // ── The Node transport ─────────────────────────────────────────────────

  /** A queued append; `last` marks the frame that closes the transport. */
  datatype Write = Write(record: Record, last: bool)

  /** Frames are numbered when they are queued; the promise chain appends them one at a time. */
  class NexusSessionTransport {
    const a: Attachment
    const codec: SessionCodec
    var offset: nat
    var isClosed: bool
    var isStarted: bool
    var writes: seq<Write>
    var inFlight: Option<Write>
    /** Every record handed to the client, in order. */
    ghost var attempts: seq<Record>
    ghost var uncertain: bool

    /** What was handed over is numbered from one; until the transport closes, what is queued goes on from there. */
    ghost predicate Valid()
      reads this, codec
    {
      && codec.a == a && codec.node
      && (forall i | 0 <= i < |attempts| :: IsFrame(a, i + 1, attempts[i]))
      && (!isClosed ==> |attempts| + |writes| == codec.sent)
      && (!isClosed ==> forall i | 0 <= i < |writes| :: IsFrame(a, |attempts| + i + 1, writes[i].record))
      && (uncertain ==> isClosed)
    }

    ghost function State(): Port
      reads this, codec
    {
      Port(codec.sent, codec.received, offset, isClosed)
    }

    constructor (a: Attachment)
      ensures Valid() && this.a == a && State() == START && attempts == [] && !isStarted && fresh(codec)
    {
      this.a := a;
      codec := new SessionCodec(a, true);
      offset, isClosed, isStarted, writes, inFlight := 0, false, false, [], None;
      attempts, uncertain := [], false;
    }

    method Start() returns (ok: bool)
      requires Valid()
      modifies this`isStarted
      ensures Valid() && State() == old(State()) && ok == (!old(isStarted) && !isClosed)
      ensures isStarted == (old(isStarted) || ok)
    {
      if isStarted || isClosed {
        return false;
      }
      isStarted := true;
      ok := true;
    }

    /** Encodes before queueing, so that a payload that is refused does not poison the channel. */
    method Send(message: Rpc, size: nat) returns (r: Result<(), IoFault>)
      requires Valid()
      modifies this`writes, codec
      ensures Valid() && attempts == old(attempts)
      ensures r.Ok? <==> isStarted && !isClosed && EncodeFault(old(codec.sent), Rpc(message), size).None?
      ensures r.Err? ==> State() == old(State()) && writes == old(writes)
      ensures r.Ok? ==> State() == old(State()).(sent := old(codec.sent) + 1)
      ensures r.Ok? ==> writes == old(writes) + [Write(FrameOf(a, codec.sent, Rpc(message), size), false)]
    {
      if !isStarted || isClosed {
        return Err(ChannelClosed);
      }
      var encoded := codec.Encode(Rpc(message), size);
      if encoded.Err? {
        return Err(Codec(encoded.error));
      }
      writes := writes + [Write(encoded.value, false)];
      r := Ok(());
    }

    /** The next queued append gets its turn; once closed, nothing more is handed over. */
    method StartAppend()
      requires Valid() && inFlight.None? && writes != []
      modifies this`writes, this`inFlight, this`attempts
      ensures Valid() && State() == old(State()) && writes == old(writes)[1..]
      ensures attempts == if isClosed then old(attempts) else old(attempts) + [old(writes)[0].record]
      ensures inFlight == if isClosed then None else Some(old(writes)[0])
    {
      var write := writes[0];
      writes := writes[1..];
      if !isClosed {
        attempts := attempts + [write.record];
        inFlight := Some(write);
      }
    }

    /** An append that fails closes the transport for good, and so does the closing frame. */
    method SettleAppend(ok: bool)
      requires Valid() && inFlight.Some?
      modifies this`inFlight, this`isClosed, this`uncertain
      ensures Valid() && inFlight.None? && attempts == old(attempts)
      ensures isClosed == (old(isClosed) || !ok || old(inFlight).value.last)
      ensures State() == old(State()).(closed := isClosed)
    {
      if !ok {
        isClosed, uncertain := true, true;
      }
      if inFlight.value.last {
        isClosed := true;
      }
      inFlight := None;
    }

    method Close(size: nat)
      requires Valid()
      modifies this`writes, this`isClosed, codec
      ensures Valid() && attempts == old(attempts)
      ensures !isClosed ==>
        writes == old(writes) + [Write(FrameOf(a, codec.sent, Closed("controller disconnected"), size), true)]
      ensures isClosed == (old(isClosed) || !isStarted
                           || EncodeFault(old(codec.sent), Closed("controller disconnected"), size).Some?)
    {
      if isClosed || !isStarted {
        isClosed := true;
        return;
      }
      var encoded := codec.Encode(Closed("controller disconnected"), size);
      if encoded.Err? {
        isClosed := true;
        return;
      }
      writes := writes + [Write(encoded.value, true)];
    }

    /** One turn of the read loop; `handed` is what `onMessage` is called with. */
    method OnRead(reply: ReadReply) returns (handed: Option<Rpc>)
      requires Valid()
      modifies this`offset, this`isClosed, codec
      ensures Valid() && attempts == old(attempts)
      ensures State() == AfterRead(a, true, old(State()), reply)
      ensures handed == match Handed(a, true, old(State()), reply)
                        case Some(Rpc(message)) => Some(message)
                        case _ => None
    {
      handed := None;
      if isClosed {
        return;
      }
      match reply {
        case NoData =>
        case ReadError(retryable) => isClosed := !retryable;
        case Truncated(earliest, at) =>
          if at == 0 && offset == 0 && earliest > 0 {
            offset := earliest;
          } else {
            isClosed := true;
          }
        case Data(record, next) =>
          if record.Empty? {
            return;
          }
          if next.None? || next.value <= offset {
            isClosed := true;
            return;
          }
          var decoded := codec.Decode(record);
          if decoded.Err? {
            isClosed := true;
            return;
          }
          offset := next.value;
          if decoded.value.Some? {
            if decoded.value.value.Closed? {
              isClosed := true;
            } else {
              handed := Some(decoded.value.value.message);
            }
          }
      }
    }
  }
}
