/**
 * What a session has done so far: every message it drew a sequence number for, in order, each
 * with what became of it. The laws of such a history are what every API call keeps; the
 * theorems at the end hold of every run because of that.
 */
module History {
  import opened Bytes
  import opened Protocol
  import opened AgentWire
  import opened Framing
  import opened Waiting
  import opened MsgWriting
  import D = Dispatch

  /**
   * One message: `own` says that the handle it was sent through was handed out by this session,
   * `serial` numbers the object it creates among those of its kind, `at` is how much of the trace
   * had happened when it was sent, and `ack` where in the trace the STATUS that accepted it was
   * read.
   */
  datatype Attempt = Attempt(m: AgentMsg, own: bool, serial: nat, at: nat, sent: bool, ack: Option<nat>)

  type History = seq<Attempt>
  type Trace = seq<D.Event>

  predicate Creates(m: AgentMsg) {
    m.CreateParticipant? || m.CreateChild?
  }

  function KindMade(m: AgentMsg): byte
    requires Creates(m)
  {
    if m.CreateParticipant? then ENTITY_PARTICIPANT else m.kind
  }

  predicate IsRequest(m: AgentMsg) {
    Creates(m) || m.ReadData?
  }

  /** The kind of entity that an entity of this kind hangs under. */
  function ParentKind(kind: byte): byte {
    if kind == ENTITY_DATAWRITER then ENTITY_PUBLISHER
    else if kind == ENTITY_DATAREADER then ENTITY_SUBSCRIBER
    else ENTITY_PARTICIPANT
  }

  /** The entity a message refers to and must find at the agent. */
  function Needs(m: AgentMsg): Option<(u16, byte)> {
    match m
    case CreateChild(_, _, _, kind, _, parent) => Some((parent, ParentKind(kind)))
    case ReadData(_, _, reader) => Some((reader, ENTITY_DATAREADER))
    case WriteData(_, writer, _) => Some((writer, ENTITY_DATAWRITER))
    case _ => None
  }

  predicate AckedAs(a: Attempt, oid: u16, kind: byte) {
    a.ack.Some? && Creates(a.m) && a.m.oid == oid && KindMade(a.m) == kind
  }

  /** Some creation of `oid` was acknowledged. */
  ghost predicate Acked(h: History, oid: u16, kind: byte) {
    exists j :: 0 <= j < |h| && AckedAs(h[j], oid, kind)
  }

  function CountRequests(h: History): nat {
    if h == [] then 0
    else CountRequests(h[..|h| - 1]) + if IsRequest(h[|h| - 1].m) then 1 else 0
  }

  /** The frames handed to the transport in full. */
  function Sends(h: History): seq<seq<byte>> {
    if h == [] then []
    else Sends(h[..|h| - 1]) + if h[|h| - 1].sent then [Wire(h[|h| - 1].m)] else []
  }

  /** No message failed to be encoded or sent. */
  ghost predicate AllSent(h: History) {
    forall k :: 0 <= k < |h| ==> h[k].sent
  }

  // ---- the laws ----

  /** A message that the agent's decoder accepts and that, if sent, fitted the transmit buffer. */
  predicate Encoded(a: Attempt) {
    WellFormed(a.m) && (a.sent ==> |Wire(a.m)| <= TX_BUF_SIZE)
  }

  /** The `k`-th message carries the session's id and key, sequence number `k` and, for a request, the next request id. */
  predicate NumberedAt(sid: byte, key: Key, h: History, k: nat)
    requires k < |h|
  {
    && !h[k].m.CreateClient? && Encoded(h[k])
    && h[k].m.hdr == SessionHdr(sid, key, STREAM_BEST_EFFORT, k % 0x1_0000)
    && (IsRequest(h[k].m) ==> h[k].m.req == ReqAt(CountRequests(h[..k])))
  }

  ghost predicate Numbered(sid: byte, key: Key, h: History) {
    forall k :: 0 <= k < |h| ==> NumberedAt(sid, key, h, k)
  }

  /** What a message sent through an own handle refers to was acknowledged before it was drawn. */
  ghost predicate Grounded(h: History) {
    forall k :: 0 <= k < |h| && Needs(h[k].m).Some? && h[k].own ==>
      Acked(h[..k], Needs(h[k].m).value.0, Needs(h[k].m).value.1)
  }

  /** Object ids are made from serial numbers that rise within each kind; `allocs[kind]` bounds them. */
  ghost predicate Serial(h: History, allocs: seq<nat>) {
    && |allocs| == 7
    && (forall k :: 0 <= k < |h| && Creates(h[k].m) ==>
      && 1 <= KindMade(h[k].m) <= 6
      && h[k].m.oid == ObjectId(h[k].serial % 0x1_0000, KindMade(h[k].m))
      && 1 <= h[k].serial <= allocs[KindMade(h[k].m)])
    && (forall j, k :: 0 <= j < k < |h| && Creates(h[j].m) && Creates(h[k].m) && KindMade(h[j].m) == KindMade(h[k].m) ==>
      h[j].serial < h[k].serial)
  }

  /** The trace event at `t` is a STATUS that accepts request `req`. */
  predicate AcceptedAt(sid: byte, trace: Trace, t: nat, req: u16) {
    t < |trace| && trace[t].Frame? && Accepts(sid, trace[t].bytes, req)
  }

  /** An acknowledged request was sent, and its STATUS was read after it and before the next message. */
  ghost predicate Timely(sid: byte, h: History, trace: Trace) {
    && (forall k :: 0 <= k < |h| ==> h[k].at <= |trace|)
    && (forall k :: 0 <= k < |h| && h[k].ack.Some? ==>
      && h[k].sent && IsRequest(h[k].m)
      && h[k].at <= h[k].ack.value
      && AcceptedAt(sid, trace, h[k].ack.value, h[k].m.req))
    && (forall j, k :: 0 <= j < k < |h| && h[j].ack.Some? ==> h[j].ack.value < h[k].at)
  }

  ghost predicate Lawful(sid: byte, key: Key, h: History, allocs: seq<nat>, trace: Trace) {
    Numbered(sid, key, h) && Grounded(h) && Serial(h, allocs) && Timely(sid, h, trace)
  }

  // ---- keeping the laws ----

  /** An attempt that may be added to a history after trace `trace`. */
  ghost predicate Addable(sid: byte, key: Key, h: History, allocs: seq<nat>, a: Attempt, trace: Trace) {
    && !a.m.CreateClient? && Encoded(a)
    && a.m.hdr == SessionHdr(sid, key, STREAM_BEST_EFFORT, |h| % 0x1_0000)
    && (IsRequest(a.m) ==> a.m.req == ReqAt(CountRequests(h)))
    && (Needs(a.m).Some? && a.own ==> Acked(h, Needs(a.m).value.0, Needs(a.m).value.1))
    && |allocs| == 7
    && (Creates(a.m) ==>
      && 1 <= KindMade(a.m) <= 6
      && a.serial == allocs[KindMade(a.m)] >= 1
      && a.m.oid == ObjectId(a.serial % 0x1_0000, KindMade(a.m))
      && Unused(h, KindMade(a.m), a.serial))
    && a.at <= |trace|
    && (forall j :: 0 <= j < |h| && h[j].ack.Some? ==> h[j].ack.value < a.at)
    && (a.ack.Some? ==>
      && a.sent && IsRequest(a.m)
      && a.at <= a.ack.value
      && AcceptedAt(sid, trace, a.ack.value, a.m.req))
  }

  /** The latest serial of this kind has not been put in a message yet. */
  ghost predicate Unused(h: History, kind: byte, serial: nat) {
    forall j :: 0 <= j < |h| && Creates(h[j].m) && KindMade(h[j].m) == kind ==> h[j].serial < serial
  }

  lemma AddKeepsNumbered(sid: byte, key: Key, h: History, a: Attempt)
    requires Numbered(sid, key, h)
    requires !a.m.CreateClient? && Encoded(a)
    requires a.m.hdr == SessionHdr(sid, key, STREAM_BEST_EFFORT, |h| % 0x1_0000)
    requires IsRequest(a.m) ==> a.m.req == ReqAt(CountRequests(h))
    ensures Numbered(sid, key, h + [a])
  {
    hide Encoded;
    var g := h + [a];
    forall k | 0 <= k < |g|
      ensures NumberedAt(sid, key, g, k)
    {
      assert g[..k] == h[..k];
      if k < |h| {
        assert NumberedAt(sid, key, h, k);
      } else {
        assert h[..k] == h;
      }
    }
  }

  lemma AddKeepsGrounded(h: History, a: Attempt)
    requires Grounded(h)
    requires Needs(a.m).Some? && a.own ==> Acked(h, Needs(a.m).value.0, Needs(a.m).value.1)
    ensures Grounded(h + [a])
  {
    hide Acked;
    var g := h + [a];
    forall k | 0 <= k < |g| && Needs(g[k].m).Some? && g[k].own
      ensures Acked(g[..k], Needs(g[k].m).value.0, Needs(g[k].m).value.1)
    {
      assert g[..k] == h[..k];
      if k == |h| {
        assert h[..k] == h;
      }
    }
  }

  lemma AddKeepsLaws(sid: byte, key: Key, h: History, allocs: seq<nat>, a: Attempt, trace: Trace)
    requires Lawful(sid, key, h, allocs, trace)
    requires Addable(sid, key, h, allocs, a, trace)
    ensures Lawful(sid, key, h + [a], allocs, trace)
    ensures CountRequests(h + [a]) == CountRequests(h) + if IsRequest(a.m) then 1 else 0
    ensures Sends(h + [a]) == Sends(h) + if a.sent then [Wire(a.m)] else []
  {
    hide Accepts, Wire, Encoded, Numbered, Grounded, Acked;
    assert (h + [a])[..|h|] == h;
    AddKeepsNumbered(sid, key, h, a);
    AddKeepsGrounded(h, a);
  }

  /** Acknowledgements are never lost. */
  lemma AckedStays(h: History, more: History, oid: u16, kind: byte)
    requires Acked(h, oid, kind)
    ensures Acked(h + more, oid, kind)
  {
    var j :| 0 <= j < |h| && AckedAs(h[j], oid, kind);
    assert (h + more)[j] == h[j];
  }

  /** What more messages add to the number of requests. */
  lemma {:induction false} CountGrows(h: History, more: History)
    ensures CountRequests(h) <= CountRequests(h + more) <= CountRequests(h) + |more|
  {
    if more == [] {
      assert h + more == h;
    } else {
      assert (h + more)[..|h + more| - 1] == h + more[..|more| - 1];
      CountGrows(h, more[..|more| - 1]);
    }
  }

  lemma TraceGrows(sid: byte, key: Key, h: History, allocs: seq<nat>, trace: Trace, more: Trace)
    requires Lawful(sid, key, h, allocs, trace)
    ensures Lawful(sid, key, h, allocs, trace + more)
  {
    hide Accepts, Numbered, Grounded;
  }

  lemma AllocKeepsLaws(sid: byte, key: Key, h: History, allocs: seq<nat>, kind: byte, trace: Trace)
    requires Lawful(sid, key, h, allocs, trace) && 1 <= kind <= 6
    ensures Lawful(sid, key, h, allocs[kind := allocs[kind] + 1], trace)
    ensures Unused(h, kind, allocs[kind] + 1)
  {
    hide Accepts, Numbered, Grounded, Timely, ObjectId;
  }

  // ---- theorems about every run ----

  /** In a run where every message was sent, the frames carry sequence numbers 0, 1, 2, ... with no gap. */
  lemma {:induction false} SequenceNumbersHaveNoGap(sid: byte, key: Key, h: History)
    requires Numbered(sid, key, h)
    requires AllSent(h)
    ensures |Sends(h)| == |h|
    ensures forall k :: 0 <= k < |h| ==>
      Sends(h)[k] == Wire(h[k].m) && HdrOf(h[k].m).seqNo == k % 0x1_0000
  {
    hide Wire, Encoded;
    if h != [] {
      var g := h[..|h| - 1];
      forall k | 0 <= k < |g|
        ensures NumberedAt(sid, key, g, k)
      {
        assert NumberedAt(sid, key, h, k);
        assert g[..k] == h[..k];
      }
      SequenceNumbersHaveNoGap(sid, key, g);
      assert NumberedAt(sid, key, h, |h| - 1);
    }
  }

  lemma ObjectIdOfSerial(serial: nat, kind: byte)
    requires 1 <= kind <= 6
    ensures ObjectId(serial % 0x1_0000, kind) != 0
    ensures KindOf(ObjectId(serial % 0x1_0000, kind)) == kind
    ensures serial <= 4095 ==> ObjectId(serial % 0x1_0000, kind) == serial * 0x10 + kind
  {
    ObjectIdParts(serial % 0x1_0000, kind);
  }

  /**
   * In a run where every message was sent, an agent that reads the session's byte stream frame
   * by frame and decodes each frame recovers exactly the messages of the history, in order.
   */
  lemma AgentSeesHistory(sid: byte, key: Key, h: History)
    requires Numbered(sid, key, h)
    requires AllSent(h)
    ensures TakeFrames(Join(Sends(h)), TX_BUF_SIZE, |h|) == Some((Sends(h), []))
    ensures |Sends(h)| == |h|
    ensures forall k :: 0 <= k < |h| ==> Parse(Sends(h)[k]) == Some(h[k].m)
  {
    hide Wire, Parse, Sends, Join, TakeFrames, WellFormed, CountRequests;
    SequenceNumbersHaveNoGap(sid, key, h);
    forall k | 0 <= k < |h|
      ensures Carried(Sends(h)[k], TX_BUF_SIZE) && Parse(Sends(h)[k]) == Some(h[k].m)
    {
      assert NumberedAt(sid, key, h, k);
      SentIsRecovered(h[k]);
    }
    FramesRoundTripExact(Sends(h), [], TX_BUF_SIZE);
    assert Join(Sends(h)) + [] == Join(Sends(h));
  }

  lemma SentIsRecovered(a: Attempt)
    requires Encoded(a) && a.sent
    ensures Parse(Wire(a.m)) == Some(a.m) && |Wire(a.m)| <= TX_BUF_SIZE
  {
    hide Wire, Parse;
    WireLen(a.m);
    AgentRecoversMessage(a.m);
  }

  /**
   * Ids of different kinds never collide; within a kind, while no more than 4095 objects have
   * been numbered, all are distinct, none is the reader id 0, and they rise with creation.
   */
  lemma CreatedIdsDistinct(h: History, allocs: seq<nat>, j: nat, k: nat)
    requires Serial(h, allocs)
    requires j < k < |h| && Creates(h[j].m) && Creates(h[k].m)
    requires KindMade(h[j].m) == KindMade(h[k].m) ==> allocs[KindMade(h[k].m)] <= 4095
    ensures h[j].m.oid != h[k].m.oid && h[j].m.oid != 0 && h[k].m.oid != 0
    ensures KindMade(h[j].m) == KindMade(h[k].m) ==> h[j].m.oid < h[k].m.oid
  {
    hide ObjectId, KindOf;
    ObjectIdOfSerial(h[j].serial, KindMade(h[j].m));
    ObjectIdOfSerial(h[k].serial, KindMade(h[k].m));
  }

  // ---- an agent that answers each request once and in order ----

  /** Request id and result code of a STATUS frame. */
  function StatusOf(sid: byte, e: D.Event): Option<(u16, byte)> {
    if e.Frame? && IsStatus(sid, e.bytes) && |D.FirstPayload(sid, e.bytes)| >= 6 then
      var p := D.FirstPayload(sid, e.bytes);
      Some((FromBe16(p[0], p[1]), p[4]))
    else None
  }

  /** The STATUS replies read so far, in order, by whoever read them. */
  function Replies(sid: byte, trace: Trace): seq<(u16, byte)> {
    if trace == [] then []
    else
      Replies(sid, trace[..|trace| - 1]) +
      match StatusOf(sid, trace[|trace| - 1]) case Some(s) => [s] case None => []
  }

  /** Positions in the history of the requests that were sent. */
  function Requested(h: History): seq<int> {
    if h == [] then []
    else Requested(h[..|h| - 1]) + if h[|h| - 1].sent && IsRequest(h[|h| - 1].m) then [|h| - 1] else []
  }

  /** The `n`-th reply names the `n`-th request sent. */
  ghost predicate AnswersInOrder(sid: byte, h: History, trace: Trace) {
    forall n :: 0 <= n < |Replies(sid, trace)| ==>
      && n < |Requested(h)|
      && 0 <= Requested(h)[n] < |h|
      && IsRequest(h[Requested(h)[n]].m)
      && h[Requested(h)[n]].m.req == Replies(sid, trace)[n].0
  }

  lemma {:induction false} CountRises(h: History, j: nat, k: nat)
    requires j < k <= |h|
    ensures CountRequests(h[..j]) + (if IsRequest(h[j].m) then 1 else 0) <= CountRequests(h[..k])
    decreases k
  {
    assert h[..k][..k - 1] == h[..k - 1];
    if j < k - 1 {
      CountRises(h, j, k - 1);
    }
  }

  /** Until 65535 requests have been drawn, a request id identifies its request. */
  lemma RequestIdIdentifies(sid: byte, key: Key, h: History, j: nat, k: nat)
    requires Numbered(sid, key, h) && CountRequests(h) <= 0xFFFF
    requires j < |h| && k < |h| && IsRequest(h[j].m) && IsRequest(h[k].m)
    requires h[j].m.req == h[k].m.req
    ensures j == k
  {
    hide ReqAt, Encoded, CountRequests;
    assert NumberedAt(sid, key, h, j) && NumberedAt(sid, key, h, k);
    assert h[..|h|] == h;
    CountRises(h, j, |h|);
    CountRises(h, k, |h|);
    RequestNumbersIdentify(CountRequests(h[..j]), CountRequests(h[..k]));
    if j < k {
      CountRises(h, j, k);
    } else if k < j {
      CountRises(h, k, j);
    }
  }

  lemma RequestNumbersIdentify(a: nat, b: nat)
    requires a < 0xFFFF && b < 0xFFFF && ReqAt(a) == ReqAt(b)
    ensures a == b
  {
  }

  lemma {:induction false} ReplyAt(sid: byte, trace: Trace, t: nat)
    requires t < |trace| && StatusOf(sid, trace[t]).Some?
    ensures |Replies(sid, trace[..t])| < |Replies(sid, trace)|
    ensures Replies(sid, trace)[|Replies(sid, trace[..t])|] == StatusOf(sid, trace[t]).value
    decreases |trace|
  {
    hide StatusOf;
    var before := trace[..|trace| - 1];
    if t < |before| {
      ReplyAt(sid, before, t);
      assert before[..t] == trace[..t];
    }
  }

  /** The reply at trace position `t` is the agent's answer to the `k`-th message, and is favourable. */
  ghost predicate Genuine(sid: byte, h: History, trace: Trace, k: nat, t: nat)
    requires t < |trace|
  {
    var n := |Replies(sid, trace[..t])|;
    && n < |Replies(sid, trace)| && n < |Requested(h)|
    && Requested(h)[n] == k
    && Replies(sid, trace)[n].1 in {STATUS_OK, STATUS_OK_MATCHED}
  }

  /** What a session takes for an acknowledgement is the agent's own answer to that very request. */
  lemma AcknowledgementsAreGenuine(sid: byte, key: Key, h: History, allocs: seq<nat>, trace: Trace, k: nat)
    requires Lawful(sid, key, h, allocs, trace)
    requires AnswersInOrder(sid, h, trace) && CountRequests(h) <= 0xFFFF
    requires k < |h| && h[k].ack.Some?
    ensures Genuine(sid, h, trace, k, h[k].ack.value)
  {
    hide Numbered, Grounded, Serial, Replies, Requested, CountRequests;
    var t := h[k].ack.value;
    assert AcceptedAt(sid, trace, t, h[k].m.req);
    ReplyAt(sid, trace, t);
    var n := |Replies(sid, trace[..t])|;
    RequestIdIdentifies(sid, key, h, Requested(h)[n], k);
  }

  /**
   * Every CREATE with a parent, every READ_DATA and every WRITE_DATA, sent through a handle of
   * this session, refers to an entity of the right kind whose creation the agent had accepted, in
   * a reply the session had read before the message was sent.
   */
  lemma EveryReferenceWasAccepted(sid: byte, key: Key, h: History, allocs: seq<nat>, trace: Trace, k: nat)
    requires Lawful(sid, key, h, allocs, trace)
    requires AnswersInOrder(sid, h, trace) && CountRequests(h) <= 0xFFFF
    requires k < |h| && Needs(h[k].m).Some? && h[k].own
    ensures exists j ::
      && 0 <= j < k
      && AckedAs(h[j], Needs(h[k].m).value.0, Needs(h[k].m).value.1)
      && h[j].at <= h[j].ack.value < h[k].at <= |trace|
      && Genuine(sid, h, trace, j, h[j].ack.value)
  {
    hide Numbered, Serial, Genuine, CountRequests, AcceptedAt, AnswersInOrder;
    var oid, kind := Needs(h[k].m).value.0, Needs(h[k].m).value.1;
    assert Acked(h[..k], oid, kind);
    var j :| 0 <= j < |h[..k]| && AckedAs(h[..k][j], oid, kind);
    assert h[..k][j] == h[j];
    AcknowledgementsAreGenuine(sid, key, h, allocs, trace, j);
  }

  /**
   * Handles of another session carry no such promise: a session whose first message refers to an
   * entity has sent it through one, and the agent had accepted nothing.
   */
  lemma FirstReferenceIsForeign(h: History)
    requires Grounded(h) && h != [] && Needs(h[0].m).Some?
    ensures !h[0].own && !Acked(h[..0], Needs(h[0].m).value.0, Needs(h[0].m).value.1)
  {
  }
}
