/**
 Whole runs of the session protocol: one shared log, two parties that write and
 read it, appends whose outcome is unknown, repeated appends, other traffic and
 trimming. Both transports are covered: a party queues frames when it encodes
 them and appends them one at a time.
 */
module SessionRuns {
  import opened Bytes
  import opened Session
  import opened SessionIo

  /** What a party has written: its payloads, their frames, and how many frames it has tried to append. */
  datatype Writer = Writer(encoded: seq<Payload>, frames: seq<Record>, attempted: nat, broken: bool)

  /** What it has read; `skipped` once it has jumped to the retention floor. */
  datatype Reader = Reader(received: nat, offset: nat, delivered: seq<Payload>, skipped: bool)

  datatype Party = Party(writer: Writer, reader: Reader, closed: bool)

  datatype World = World(log: seq<Record>, floor: nat, agent: Party, controller: Party) {
    function At(side: Side): Party {
      if side.Agent? then agent else controller
    }

    function With(side: Side, p: Party): World {
      if side.Agent? then this.(agent := p) else this.(controller := p)
    }
  }

  /** The agent's attachment, and which side runs the Node implementation. */
  datatype Config = Config(a: Attachment, nodeAgent: bool, nodeController: bool) {
    function At(side: Side): Attachment {
      if side.Agent? then a else a.Peer()
    }

    function Node(side: Side): bool {
      if side.Agent? then nodeAgent else nodeController
    }
  }

  const FRESH := Party(Writer([], [], 0, false), Reader(0, 0, [], false), false)

  predicate Init(c: Config, w: World) {
    c.a.Valid() && w.floor <= |w.log| && w.agent == FRESH && w.controller == FRESH
    && forall i | 0 <= i < |w.log| :: !MadeBy(c.At(Agent), w.log[i]) && !MadeBy(c.At(Controller), w.log[i])
  }

  /**
   The record is a session frame of this generation sent by this side. The
   stamp hook makes `from` truthful and each side has one codec for a channel,
   so only that codec's frames are.
   */
  predicate MadeBy(a: Attachment, r: Record) {
    r.Session? && r.from == Text(a.sender) && r.body.Frame? && r.body.channel == Text(a.channel)
  }

  // ── Steps ──────────────────────────────────────────────────────────────

  datatype Step =
    | Encode(side: Side, payload: Payload, size: nat)
    | Append(side: Side, landed: bool, reply: WriteReply)
    | Late(side: Side)
    | Repeat(i: nat)
    | Foreign(record: Record)
    | Trim(floor: nat)
    | Receive(side: Side)
    | Trouble(side: Side, retryable: bool)
    | Shut(side: Side)

  function PortOf(p: Party): Port {
    Port(|p.writer.frames|, p.reader.received, p.reader.offset, p.closed)
  }

  /** What a read at `offset` finds. */
  function KernelRead(w: World, offset: nat): ReadReply {
    if offset < w.floor then Truncated(w.floor, offset)
    else if offset < |w.log| then Data(w.log[offset], Some(offset + 1))
    else NoData
  }

  /** What the reader holds after a read with this reply. */
  function AfterReading(a: Attachment, node: bool, r: Reader, sent: nat, closed: bool, reply: ReadReply): Reader {
    var port := Port(sent, r.received, r.offset, closed);
    var port', handed := AfterRead(a, node, port, reply), Handed(a, node, port, reply);
    Reader(port'.received, port'.offset,
           r.delivered + if handed.Some? then [handed.value] else [],
           r.skipped || (reply.Truncated? && port'.offset != port.offset))
  }

  function Reads(c: Config, w: World, side: Side, reply: ReadReply): World {
    var p, a, node := w.At(side), c.At(side), c.Node(side);
    w.With(side, Party(p.writer, AfterReading(a, node, p.reader, |p.writer.frames|, p.closed, reply),
                       AfterRead(a, node, PortOf(p), reply).closed))
  }

  ghost predicate Next(c: Config, w: World, step: Step, w': World) {
    match step
    case Encode(side, payload, size) =>
      var p := w.At(side);
      && !p.closed && EncodeFault(|p.writer.frames|, payload, size).None?
      && w' == w.With(side, p.(writer := Encoded(c.At(side), p.writer, payload, size)))
    case Append(side, landed, reply) =>
      var p := w.At(side);
      && p.writer.attempted < |p.writer.frames| && !p.writer.broken && (reply.Hit? ==> landed)
      && w' == Appended(w, side, landed, reply)
    case Late(side) =>
      var p := w.At(side);
      && p.writer.broken && 0 < p.writer.attempted <= |p.writer.frames|
      && w' == w.(log := w.log + [p.writer.frames[p.writer.attempted - 1]])
    case Repeat(i) => i < |w.log| && w' == w.(log := w.log + [w.log[i]])
    case Foreign(record) =>
      && !MadeBy(c.At(Agent), record) && !MadeBy(c.At(Controller), record)
      && w' == w.(log := w.log + [record])
    case Trim(floor) => w.floor <= floor <= |w.log| && w' == w.(floor := floor)
    case Receive(side) => w' == Reads(c, w, side, KernelRead(w, w.At(side).reader.offset))
    case Trouble(side, retryable) => w' == Reads(c, w, side, ReadError(retryable))
    case Shut(side) => w' == w.With(side, w.At(side).(closed := true))
  }

  function Appended(w: World, side: Side, landed: bool, reply: WriteReply): World
    requires w.At(side).writer.attempted < |w.At(side).writer.frames|
  {
    var p := w.At(side);
    var writer := p.writer.(attempted := p.writer.attempted + 1, broken := !reply.Hit?);
    w.(log := w.log + if landed then [p.writer.frames[p.writer.attempted]] else [])
     .With(side, Party(writer, p.reader, p.closed || !reply.Hit?))
  }

  function Encoded(a: Attachment, w: Writer, payload: Payload, size: nat): Writer {
    w.(encoded := w.encoded + [payload], frames := w.frames + [FrameOf(a, |w.frames| + 1, payload, size)])
  }

  // ── The invariant of one direction ─────────────────────────────────────

  /** A side's frames are numbered from one and carry its payloads in order. */
  ghost predicate Numbered(a: Attachment, w: Writer) {
    && |w.encoded| == |w.frames| && w.attempted <= |w.frames| && (w.broken ==> w.attempted > 0)
    && forall i | 0 <= i < |w.frames| ::
         IsFrame(a, i + 1, w.frames[i]) && w.frames[i] == FrameOf(a, i + 1, w.encoded[i], w.frames[i].size)
  }

  predicate Landed(log: seq<Record>, r: Record) {
    r in log
  }

  /** `r` is the writer's attempted frame at index `k`, and the frame before it stands in the log already. */
  ghost predicate FollowsAt(log: seq<Record>, w: Writer, r: Record, k: int)
    requires w.attempted <= |w.frames|
  {
    0 <= k < w.attempted && r == w.frames[k] && (k > 0 ==> Landed(log, w.frames[k - 1]))
  }

  ghost predicate Follows(log: seq<Record>, w: Writer, r: Record)
    requires w.attempted <= |w.frames|
  {
    exists k :: FollowsAt(log, w, r, k)
  }

  /** Frames of a side first appear in the log in order, with none left out. */
  ghost predicate Contiguous(a: Attachment, log: seq<Record>, w: Writer)
    requires w.attempted <= |w.frames|
  {
    forall i {:trigger MadeBy(a, log[i])} | 0 <= i < |log| && MadeBy(a, log[i]) :: Follows(log[..i], w, log[i])
  }

  /** Every attempted frame is in the log, except the last one when its outcome is unknown. */
  ghost predicate AllLanded(log: seq<Record>, w: Writer)
    requires w.attempted <= |w.frames|
  {
    forall k | 0 <= k < w.attempted :: Landed(log, w.frames[k]) || (w.broken && k == w.attempted - 1)
  }

  /** A frame's number, or zero. */
  function NumberOf(r: Record): int {
    if r.Session? && r.body.Frame? && r.body.sequence.Some? && r.body.sequence.value.Integer?
    then r.body.sequence.value.value else 0
  }

  predicate ReadUpTo(a: Attachment, r: Record, received: nat) {
    MadeBy(a, r) ==> 0 < NumberOf(r) <= received
  }

  /** What has been handed over is a prefix of what was encoded; a reader that never jumped has missed nothing. */
  ghost predicate Delivering(a: Attachment, log: seq<Record>, w: Writer, r: Reader)
    requires w.attempted <= |w.frames|
  {
    && r.received <= w.attempted <= |w.encoded| && r.delivered == w.encoded[..r.received] && r.offset <= |log|
    && (!r.skipped ==> forall i {:trigger ReadUpTo(a, log[i], r.received)} | 0 <= i < r.offset :: ReadUpTo(a, log[i], r.received))
  }

  ghost predicate Direction(a: Attachment, log: seq<Record>, w: Writer, r: Reader) {
    Numbered(a, w) && Contiguous(a, log, w) && AllLanded(log, w) && Delivering(a, log, w, r)
  }

  function Other(side: Side): Side {
    if side.Agent? then Controller else Agent
  }

  /** From this side to the other one. */
  ghost predicate Sends(c: Config, w: World, side: Side) {
    Direction(c.At(side), w.log, w.At(side).writer, w.At(Other(side)).reader)
  }

  ghost predicate Inv(c: Config, w: World) {
    c.a.Valid() && w.floor <= |w.log| && forall side :: Sends(c, w, side)
  }

  lemma BothSides(c: Config, w: World, side: Side)
    requires c.a.Valid() && w.floor <= |w.log| && Sends(c, w, side) && Sends(c, w, Other(side))
    ensures Inv(c, w)
  {
    forall s ensures Sends(c, w, s) {
      assert s == side || s == Other(side);
    }
  }

  // ── Each step keeps it ─────────────────────────────────────────────────

  lemma FrameOwn(a: Attachment, n: nat, r: Record)
    requires a.Valid() && IsFrame(a, n, r)
    ensures MadeBy(a, r) && !MadeBy(a.Peer(), r)
  {
  }

  /** More frames or more attempts leave those in the log in order. */
  lemma StillContiguous(a: Attachment, log: seq<Record>, w: Writer, w': Writer)
    requires w.attempted <= |w.frames| && w'.attempted <= |w'.frames| && Contiguous(a, log, w)
    requires w.frames <= w'.frames && w.attempted <= w'.attempted
    ensures Contiguous(a, log, w')
  {
    forall i | 0 <= i < |log| && MadeBy(a, log[i]) ensures Follows(log[..i], w', log[i]) {
      var k :| FollowsAt(log[..i], w, log[i], k);
      assert FollowsAt(log[..i], w', log[i], k);
    }
  }

  lemma Encodes(a: Attachment, log: seq<Record>, w: Writer, r: Reader, payload: Payload, size: nat)
    requires a.Valid() && Direction(a, log, w, r) && EncodeFault(|w.frames|, payload, size).None?
    ensures Direction(a, log, Encoded(a, w, payload, size), r)
  {
    StillContiguous(a, log, w, Encoded(a, w, payload, size));
  }

  /** The log grows by a record that is not this side's, or is one of its frames in order. */
  lemma Grows(a: Attachment, log: seq<Record>, w: Writer, r: Reader, record: Record)
    requires Direction(a, log, w, r) && (MadeBy(a, record) ==> Follows(log, w, record))
    ensures Direction(a, log + [record], w, r)
  {
    var log' := log + [record];
    forall i | 0 <= i < |log'| && MadeBy(a, log'[i]) ensures Follows(log'[..i], w, log'[i]) {
      if i < |log| {
        assert log'[..i] == log[..i];
      } else {
        assert log'[..i] == log;
      }
    }
  }

  /** The next frame is handed to the log; until that is acknowledged its outcome is unknown. */
  lemma HandsOver(a: Attachment, log: seq<Record>, w: Writer, r: Reader)
    requires Direction(a, log, w, r) && w.attempted < |w.frames| && !w.broken
    ensures Direction(a, log, w.(attempted := w.attempted + 1, broken := true), r)
  {
    StillContiguous(a, log, w, w.(attempted := w.attempted + 1, broken := true));
  }

  /** A landed frame is no longer in doubt. */
  lemma Acknowledged(a: Attachment, log: seq<Record>, w: Writer, r: Reader)
    requires Direction(a, log, w, r) && w.broken && Landed(log, w.frames[w.attempted - 1])
    ensures Direction(a, log, w.(broken := false), r)
  {
    StillContiguous(a, log, w, w.(broken := false));
  }

  /** A frame gets its one attempt; unless it is acknowledged, it is the last one. */
  lemma Attempts(a: Attachment, log: seq<Record>, w: Writer, r: Reader, landed: bool, reply: WriteReply)
    requires Direction(a, log, w, r) && w.attempted < |w.frames| && !w.broken && (reply.Hit? ==> landed)
    ensures Direction(a, log + if landed then [w.frames[w.attempted]] else [],
                      w.(attempted := w.attempted + 1, broken := !reply.Hit?), r)
  {
    var w1 := w.(attempted := w.attempted + 1, broken := true);
    HandsOver(a, log, w, r);
    if landed {
      LandsLate(a, log, w1, r);
      if reply.Hit? {
        Acknowledged(a, log + [w.frames[w.attempted]], w1, r);
      }
    } else {
      assert log + [] == log;
    }
  }

  /** A frame whose outcome was unknown lands after all. */
  lemma LandsLate(a: Attachment, log: seq<Record>, w: Writer, r: Reader)
    requires Direction(a, log, w, r) && w.broken
    ensures Direction(a, log + [w.frames[w.attempted - 1]], w, r)
  {
    assert FollowsAt(log, w, w.frames[w.attempted - 1], w.attempted - 1);
    Grows(a, log, w, r, w.frames[w.attempted - 1]);
  }

  lemma Repeats(a: Attachment, log: seq<Record>, w: Writer, r: Reader, i: nat)
    requires Direction(a, log, w, r) && i < |log|
    ensures Direction(a, log + [log[i]], w, r)
  {
    if MadeBy(a, log[i]) {
      var k :| FollowsAt(log[..i], w, log[i], k);
      assert FollowsAt(log, w, log[i], k);
    }
    Grows(a, log, w, r, log[i]);
  }

  // ── Reading ────────────────────────────────────────────────────────────

  /** Only the other side's frames of this generation can be handed over or found out of sequence. */
  lemma ReadingOthers(a: Attachment, node: bool, received: nat, r: Record)
    requires a.Valid() && !MadeBy(a.Peer(), r)
    ensures !Reading(a, node, received, r).Deliver? && Reading(a, node, received, r) != Fail(Gap)
  {
  }

  /** What a reader makes of the writer's frame at index `k`. */
  lemma ReadingFrame(a: Attachment, node: bool, w: Writer, received: nat, k: nat)
    requires a.Valid() && Numbered(a, w) && k < |w.frames|
    ensures Reading(a.Peer(), node, received, w.frames[k])
         == if !node && !StrictPayload(w.encoded[k]) then Fail(BadBody)
            else if k < received then Skip else if k == received then Deliver(w.encoded[k]) else Fail(Gap)
  {
    assert IsFrame(a, k + 1, w.frames[k]);
    FrameRead(a, k + 1, w.encoded[k], w.frames[k].size, received, node);
  }

  /** What a record at the cursor can come to, whoever wrote it. */
  ghost predicate Plausible(a: Attachment, w: Writer, received: nat, record: Record, outcome: Outcome) {
    match outcome
    case Skip => ReadUpTo(a, record, received)
    case Deliver(payload) => received < |w.encoded| && payload == w.encoded[received] && ReadUpTo(a, record, received + 1)
    case Fail(_) => true
  }

  lemma RecordOutcome(a: Attachment, node: bool, log: seq<Record>, w: Writer, r: Reader)
    requires a.Valid() && Direction(a, log, w, r) && r.offset < |log|
    ensures Plausible(a, w, r.received, log[r.offset], Reading(a.Peer(), node, r.received, log[r.offset]))
    ensures Reading(a.Peer(), node, r.received, log[r.offset]).Deliver? ==> r.received < w.attempted
  {
    var record := log[r.offset];
    if MadeBy(a, record) {
      var k :| FollowsAt(log[..r.offset], w, record, k);
      ReadingFrame(a, node, w, r.received, k);
      assert IsFrame(a, k + 1, w.frames[k]);
    } else {
      ReadingOthers(a.Peer(), node, r.received, record);
    }
  }

  /** The reader after a record that came to `outcome`. */
  function Took(r: Reader, outcome: Outcome): Reader {
    match outcome
    case Skip => r.(offset := r.offset + 1)
    case Fail(_) => r
    case Deliver(payload) => Reader(r.received + 1, r.offset + 1, r.delivered + [payload], r.skipped)
  }

  lemma AfterData(a: Attachment, node: bool, r: Reader, sent: nat, closed: bool, record: Record)
    ensures AfterReading(a, node, r, sent, closed, Data(record, Some(r.offset + 1)))
         == if closed || record.Empty? then r else Took(r, Reading(a, node, r.received, record))
  {
    assert r.delivered + [] == r.delivered;
  }

  lemma TakesRecord(a: Attachment, log: seq<Record>, w: Writer, r: Reader, outcome: Outcome)
    requires w.attempted <= |w.frames| && Delivering(a, log, w, r) && r.offset < |log|
    requires Plausible(a, w, r.received, log[r.offset], outcome) && (outcome.Deliver? ==> r.received < w.attempted)
    ensures Delivering(a, log, w, Took(r, outcome))
  {
    if outcome.Deliver? {
      var n := r.received;
      assert w.encoded[..n + 1] == w.encoded[..n] + [w.encoded[n]];
    }
    if !r.skipped {
      forall i | 0 <= i < Took(r, outcome).offset ensures ReadUpTo(a, log[i], Took(r, outcome).received) {
        assert i < r.offset ==> ReadUpTo(a, log[i], r.received);
      }
    }
  }

  /** Reading the record at the cursor: the next payload in sequence is handed over, or nothing is. */
  lemma ReadsRecord(a: Attachment, node: bool, log: seq<Record>, w: Writer, r: Reader, sent: nat, closed: bool)
    requires a.Valid() && Direction(a, log, w, r) && r.offset < |log|
    ensures Direction(a, log, w, AfterReading(a.Peer(), node, r, sent, closed, Data(log[r.offset], Some(r.offset + 1))))
  {
    RecordOutcome(a, node, log, w, r);
    AfterData(a.Peer(), node, r, sent, closed, log[r.offset]);
    TakesRecord(a, log, w, r, Reading(a.Peer(), node, r.received, log[r.offset]));
  }

  lemma ReadsNothing(a: Attachment, node: bool, log: seq<Record>, w: Writer, r: Reader, sent: nat, closed: bool,
                     reply: ReadReply)
    requires a.Valid() && Direction(a, log, w, r) && !reply.Data? && (reply.Truncated? ==> reply.earliest <= |log|)
    ensures Direction(a, log, w, AfterReading(a.Peer(), node, r, sent, closed, reply))
  {
    assert r.delivered + [] == r.delivered;
  }

  // ── Runs ───────────────────────────────────────────────────────────────

  lemma InitInv(c: Config, w: World)
    requires Init(c, w)
    ensures Inv(c, w)
  {
    BothSides(c, w, Agent);
  }

  /** The frame a side appends is not one of the other side's. */
  lemma OwnFrames(c: Config, w: World, side: Side, k: nat)
    requires Inv(c, w) && k < |w.At(side).writer.frames|
    ensures !MadeBy(c.At(Other(side)), w.At(side).writer.frames[k])
  {
    assert Sends(c, w, side);
    FrameOwn(c.At(side), k + 1, w.At(side).writer.frames[k]);
  }

  lemma AppendOwn(c: Config, w: World, side: Side, landed: bool, reply: WriteReply)
    requires Sends(c, w, side) && w.At(side).writer.attempted < |w.At(side).writer.frames|
    requires !w.At(side).writer.broken && (reply.Hit? ==> landed)
    ensures Sends(c, Appended(w, side, landed, reply), side)
  {
    Attempts(c.At(side), w.log, w.At(side).writer, w.At(Other(side)).reader, landed, reply);
    AppendedWhat(w, side, landed, reply);
  }

  lemma AppendedWhat(w: World, side: Side, landed: bool, reply: WriteReply)
    requires w.At(side).writer.attempted < |w.At(side).writer.frames|
    ensures
      var w', x := Appended(w, side, landed, reply), w.At(side).writer;
      && w'.log == w.log + (if landed then [x.frames[x.attempted]] else []) && w'.floor == w.floor
      && w'.At(side).writer == x.(attempted := x.attempted + 1, broken := !reply.Hit?)
      && w'.At(side).reader == w.At(side).reader && w'.At(Other(side)) == w.At(Other(side))
  {
  }

  lemma AppendOther(c: Config, w: World, side: Side, landed: bool, reply: WriteReply)
    requires Inv(c, w) && w.At(side).writer.attempted < |w.At(side).writer.frames|
    ensures Sends(c, Appended(w, side, landed, reply), Other(side))
  {
    var x, y := w.At(side), w.At(Other(side));
    assert Sends(c, w, Other(side));
    OwnFrames(c, w, side, x.writer.attempted);
    if landed {
      Grows(c.At(Other(side)), w.log, y.writer, x.reader, x.writer.frames[x.writer.attempted]);
    } else {
      assert w.log + [] == w.log;
    }
  }

  /** A late frame does to the log what its attempt would have done. */
  lemma LateKeeps(c: Config, w: World, side: Side, frame: Record)
    requires Inv(c, w) && w.At(side).writer.broken && 0 < w.At(side).writer.attempted <= |w.At(side).writer.frames|
    requires frame == w.At(side).writer.frames[w.At(side).writer.attempted - 1]
    ensures Inv(c, w.(log := w.log + [frame]))
  {
    var x, y := w.At(side), w.At(Other(side));
    assert Sends(c, w, side) && Sends(c, w, Other(side));
    LandsLate(c.At(side), w.log, x.writer, y.reader);
    OwnFrames(c, w, side, x.writer.attempted - 1);
    Grows(c.At(Other(side)), w.log, y.writer, x.reader, frame);
    BothSides(c, w.(log := w.log + [frame]), side);
  }

  lemma RecordKeeps(c: Config, w: World, record: Record, w': World)
    requires Inv(c, w) && w' == w.(log := w.log + [record])
    requires record in w.log || (!MadeBy(c.At(Agent), record) && !MadeBy(c.At(Controller), record))
    ensures Inv(c, w')
  {
    forall side ensures Sends(c, w', side) {
      assert Sends(c, w, side);
      if record in w.log {
        var i :| 0 <= i < |w.log| && w.log[i] == record;
        Repeats(c.At(side), w.log, w.At(side).writer, w.At(Other(side)).reader, i);
      } else {
        assert side == Agent || side == Controller;
        Grows(c.At(side), w.log, w.At(side).writer, w.At(Other(side)).reader, record);
      }
    }
  }

  /** What a side reads is the other side's direction. */
  lemma {:induction false} ReadOther(c: Config, w: World, side: Side, reply: ReadReply)
    requires c.a.Valid() && w.floor <= |w.log| && Sends(c, w, Other(side))
    requires reply == KernelRead(w, w.At(side).reader.offset) || reply.ReadError?
    ensures Sends(c, Reads(c, w, side, reply), Other(side))
  {
    var x, y := w.At(Other(side)), w.At(side);
    ReadsWhat(c, w, side, reply);
    if reply.Data? {
      ReadsRecord(c.At(Other(side)), c.Node(side), w.log, x.writer, y.reader, |y.writer.frames|, y.closed);
    } else {
      ReadsNothing(c.At(Other(side)), c.Node(side), w.log, x.writer, y.reader, |y.writer.frames|, y.closed, reply);
    }
  }

  /** A read changes its reader and nothing else. */
  lemma ReadsWhat(c: Config, w: World, side: Side, reply: ReadReply)
    requires c.a.Valid()
    ensures
      var w', y := Reads(c, w, side, reply), w.At(side);
      && w'.log == w.log && w'.floor == w.floor && w'.At(Other(side)) == w.At(Other(side)) && w'.At(side).writer == y.writer
      && w'.At(side).reader
         == AfterReading(c.At(Other(side)).Peer(), c.Node(side), y.reader, |y.writer.frames|, y.closed, reply)
  {
  }

  lemma ReadKeeps(c: Config, w: World, side: Side, reply: ReadReply)
    requires Inv(c, w) && (reply == KernelRead(w, w.At(side).reader.offset) || reply.ReadError?)
    ensures Inv(c, Reads(c, w, side, reply))
  {
    assert Sends(c, w, side) && Sends(c, w, Other(side));
    ReadOther(c, w, side, reply);
    BothSides(c, Reads(c, w, side, reply), side);
  }

  lemma EncodeKeeps(c: Config, w: World, side: Side, payload: Payload, size: nat, w': World)
    requires Inv(c, w) && EncodeFault(|w.At(side).writer.frames|, payload, size).None?
    requires w' == w.With(side, w.At(side).(writer := Encoded(c.At(side), w.At(side).writer, payload, size)))
    ensures Inv(c, w')
  {
    assert Sends(c, w, side) && Sends(c, w, Other(side));
    Encodes(c.At(side), w.log, w.At(side).writer, w.At(Other(side)).reader, payload, size);
    BothSides(c, w', side);
  }

  lemma AppendKeeps(c: Config, w: World, side: Side, landed: bool, reply: WriteReply)
    requires Inv(c, w) && w.At(side).writer.attempted < |w.At(side).writer.frames|
    requires !w.At(side).writer.broken && (reply.Hit? ==> landed)
    ensures Inv(c, Appended(w, side, landed, reply))
  {
    assert Sends(c, w, side);
    AppendOwn(c, w, side, landed, reply);
    AppendOther(c, w, side, landed, reply);
    BothSides(c, Appended(w, side, landed, reply), side);
  }

  /** Trimming and closing touch neither the log nor what was written or read. */
  lemma SameLog(c: Config, w: World, w': World)
    requires Inv(c, w) && w'.log == w.log && w'.floor <= |w.log|
    requires w'.agent.writer == w.agent.writer && w'.agent.reader == w.agent.reader
    requires w'.controller.writer == w.controller.writer && w'.controller.reader == w.controller.reader
    ensures Inv(c, w')
  {
    forall side ensures Sends(c, w', side) {
      assert Sends(c, w, side);
    }
  }

  ghost predicate Moves(c: Config, w: World, w': World) {
    exists step :: Next(c, w, step, w')
  }

  /** The steps of the parties. */
  lemma PartyStep(c: Config, w: World, step: Step, w': World)
    requires Inv(c, w) && Next(c, w, step, w') && (step.Encode? || step.Append? || step.Receive? || step.Trouble? || step.Shut?)
    ensures Inv(c, w')
  {
    match step
    case Encode(side, payload, size) => EncodeKeeps(c, w, side, payload, size, w');
    case Append(side, landed, reply) => AppendKeeps(c, w, side, landed, reply);
    case Receive(side) => ReadKeeps(c, w, side, KernelRead(w, w.At(side).reader.offset));
    case Trouble(side, retryable) => ReadKeeps(c, w, side, ReadError(retryable));
    case Shut(side) => SameLog(c, w, w');
  }

  /** The steps of the log and of everyone else. */
  lemma LogStep(c: Config, w: World, step: Step, w': World)
    requires Inv(c, w) && Next(c, w, step, w') && (step.Late? || step.Repeat? || step.Foreign? || step.Trim?)
    ensures Inv(c, w')
  {
    match step
    case Late(side) => LateKeeps(c, w, side, w.At(side).writer.frames[w.At(side).writer.attempted - 1]);
    case Repeat(i) => RecordKeeps(c, w, w.log[i], w');
    case Foreign(record) => RecordKeeps(c, w, record, w');
    case Trim(floor) => SameLog(c, w, w');
  }

  /** Every step keeps the invariant. */
  lemma StepKeeps(c: Config, w: World, w': World)
    requires Inv(c, w) && Moves(c, w, w')
    ensures Inv(c, w')
  {
    var step :| Next(c, w, step, w');
    if step.Late? || step.Repeat? || step.Foreign? || step.Trim? {
      LogStep(c, w, step, w');
    } else {
      PartyStep(c, w, step, w');
    }
  }

  ghost predicate IsRun(c: Config, ws: seq<World>) {
    ws != [] && Init(c, ws[0]) && forall i | 0 <= i < |ws| - 1 :: Moves(c, ws[i], ws[i + 1])
  }

  lemma {:induction false} RunKeeps(c: Config, ws: seq<World>, i: nat)
    requires IsRun(c, ws) && i < |ws|
    ensures Inv(c, ws[i])
  {
    if i == 0 {
      InitInv(c, ws[0]);
    } else {
      RunKeeps(c, ws, i - 1);
      assert Moves(c, ws[i - 1], ws[i]);
      StepKeeps(c, ws[i - 1], ws[i]);
    }
  }

  /** A step adds to what a side encoded and to what it was handed, and changes neither. */
  lemma StepExtends(c: Config, w: World, w': World, side: Side)
    requires Moves(c, w, w')
    ensures w.At(side).writer.encoded <= w'.At(side).writer.encoded
    ensures w.At(side).reader.delivered <= w'.At(side).reader.delivered
  {
    var step :| Next(c, w, step, w');
  }

  lemma PrefixTrans<T>(a: seq<T>, b: seq<T>, c: seq<T>)
    requires a <= b <= c
    ensures a <= c
  {
  }

  lemma {:induction false} RunExtends(c: Config, ws: seq<World>, i: nat, j: nat, side: Side)
    requires IsRun(c, ws) && i <= j < |ws|
    ensures ws[i].At(side).writer.encoded <= ws[j].At(side).writer.encoded
    ensures ws[i].At(side).reader.delivered <= ws[j].At(side).reader.delivered
  {
    if i < j {
      RunExtends(c, ws, i, j - 1, side);
      assert Moves(c, ws[j - 1], ws[j]);
      StepExtends(c, ws[j - 1], ws[j], side);
      PrefixTrans(ws[i].At(side).writer.encoded, ws[j - 1].At(side).writer.encoded, ws[j].At(side).writer.encoded);
      PrefixTrans(ws[i].At(side).reader.delivered, ws[j - 1].At(side).reader.delivered, ws[j].At(side).reader.delivered);
    }
  }

  /**
   Exactly once and in order: at every point of every run, what one side has
   been handed is a prefix of what the other has encoded by then or by any
   later point.
   */
  lemma InOrderDelivery(c: Config, ws: seq<World>, i: nat, j: nat, side: Side)
    requires IsRun(c, ws) && i <= j < |ws|
    ensures ws[i].At(Other(side)).reader.delivered <= ws[j].At(side).writer.encoded
  {
    RunKeeps(c, ws, i);
    assert Sends(c, ws[i], side);
    RunExtends(c, ws, i, j, side);
  }

  /**
   Senders leave no gap: whenever a frame numbered above one stands in the log,
   the one before it stands there earlier.
   */
  lemma NoGaps(c: Config, ws: seq<World>, i: nat, side: Side, at: nat) returns (before: nat)
    requires IsRun(c, ws) && i < |ws| && at < |ws[i].log| && MadeBy(c.At(side), ws[i].log[at])
    ensures NumberOf(ws[i].log[at]) >= 1
    ensures NumberOf(ws[i].log[at]) > 1 ==>
      && before < at && MadeBy(c.At(side), ws[i].log[before])
      && NumberOf(ws[i].log[before]) == NumberOf(ws[i].log[at]) - 1
  {
    var log, x := ws[i].log, ws[i].At(side).writer;
    RunKeeps(c, ws, i);
    assert Sends(c, ws[i], side);
    var k :| FollowsAt(log[..at], x, log[at], k);
    assert IsFrame(c.At(side), k + 1, x.frames[k]);
    before := 0;
    if k > 0 {
      before :| 0 <= before < at && log[before] == x.frames[k - 1];
      assert IsFrame(c.At(side), k, x.frames[k - 1]);
    }
  }

  /**
   A reader that never jumped to the retention floor finds a frame of its peer
   at fault exactly when it is the Rust one and the message is not one its
   parser can read.
   */
  lemma FaultWithoutTrimming(c: Config, ws: seq<World>, i: nat, side: Side)
    requires IsRun(c, ws) && i < |ws|
    requires
      var w, r := ws[i], ws[i].At(Other(side)).reader;
      !r.skipped && r.offset < |w.log| && MadeBy(c.At(side), w.log[r.offset])
    ensures
      var w, r := ws[i], ws[i].At(Other(side)).reader;
      Reading(c.At(Other(side)), c.Node(Other(side)), r.received, w.log[r.offset]).Fail?
      <==> !c.Node(Other(side)) && !StrictBody(w.log[r.offset].body)
  {
    var w, r := ws[i], ws[i].At(Other(side)).reader;
    RunKeeps(c, ws, i);
    var k := PeerFrame(c, w, side);
    assert Sends(c, w, side);
    if k > 0 {
      var j :| 0 <= j < r.offset && w.log[j] == w.At(side).writer.frames[k - 1];
      assert IsFrame(c.At(side), k, w.At(side).writer.frames[k - 1]);
      assert ReadUpTo(c.At(side), w.log[j], r.received);
    }
  }

  /** What stands at the cursor, when it is the peer's, and what the reader makes of it. */
  lemma PeerFrame(c: Config, w: World, side: Side) returns (k: nat)
    requires Inv(c, w) && w.At(Other(side)).reader.offset < |w.log|
    requires MadeBy(c.At(side), w.log[w.At(Other(side)).reader.offset])
    ensures
      var r, frames := w.At(Other(side)).reader, w.At(side).writer.frames;
      && k < |frames| && w.log[r.offset] == frames[k] && IsFrame(c.At(side), k + 1, frames[k])
      && (k > 0 ==> Landed(w.log[..r.offset], frames[k - 1]))
      && Reading(c.At(Other(side)), c.Node(Other(side)), r.received, frames[k])
         == if !c.Node(Other(side)) && !StrictBody(frames[k].body) then Fail(BadBody)
            else if k < r.received then Skip
            else if k == r.received then Deliver(ReadPayload(frames[k].body.payload).value) else Fail(Gap)
  {
    var r, x := w.At(Other(side)).reader, w.At(side).writer;
    assert Sends(c, w, side);
    k :| FollowsAt(w.log[..r.offset], x, w.log[r.offset], k);
    assert IsFrame(c.At(side), k + 1, x.frames[k]);
    ReadingFrame(c.At(side), c.Node(Other(side)), x, r.received, k);
  }

  /** A reader that never jumped and has read the whole log has been handed every frame that landed. */
  lemma CaughtUp(c: Config, ws: seq<World>, i: nat, side: Side)
    requires IsRun(c, ws) && i < |ws|
    requires !ws[i].At(Other(side)).reader.skipped && ws[i].At(Other(side)).reader.offset == |ws[i].log|
    requires !ws[i].At(side).writer.broken
    ensures ws[i].At(side).writer.attempted <= |ws[i].At(side).writer.encoded|
    ensures ws[i].At(Other(side)).reader.delivered
         == ws[i].At(side).writer.encoded[..ws[i].At(side).writer.attempted]
  {
    var w, x, r := ws[i], ws[i].At(side).writer, ws[i].At(Other(side)).reader;
    RunKeeps(c, ws, i);
    assert Sends(c, w, side);
    if x.attempted > 0 {
      var k := x.attempted - 1;
      assert Landed(w.log, x.frames[k]);
      var j :| 0 <= j < |w.log| && w.log[j] == x.frames[k];
      assert IsFrame(c.At(side), k + 1, x.frames[k]);
      assert ReadUpTo(c.At(side), w.log[j], r.received);
    }
  }

  /**
   Trimming is never silent: a reader that meets a frame past the one it is
   waiting for reports a fault, a gap unless its parser cannot read the message
   at all, and stays where it is, however it got there.
   */
  lemma TrimmingReported(c: Config, ws: seq<World>, i: nat, side: Side)
    requires IsRun(c, ws) && i < |ws|
    requires
      var w, r := ws[i], ws[i].At(Other(side)).reader;
      && w.floor <= r.offset < |w.log| && MadeBy(c.At(side), w.log[r.offset])
      && NumberOf(w.log[r.offset]) > r.received + 1
    ensures
      var w, r := ws[i], ws[i].At(Other(side)).reader;
      && Reading(c.At(Other(side)), c.Node(Other(side)), r.received, w.log[r.offset])
         == Fail(if !c.Node(Other(side)) && !StrictBody(w.log[r.offset].body) then BadBody else Gap)
      && Reads(c, w, Other(side), KernelRead(w, r.offset)).At(Other(side)).reader == r
  {
    var w, r := ws[i], ws[i].At(Other(side)).reader;
    RunKeeps(c, ws, i);
    var k := PeerFrame(c, w, side);
    ReadsWhat(c, w, Other(side), KernelRead(w, r.offset));
    AfterData(c.At(Other(side)), c.Node(Other(side)), r, |w.At(Other(side)).writer.frames|, w.At(Other(side)).closed,
              w.log[r.offset]);
  }
}
