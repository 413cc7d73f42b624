/**
 * What holds of a session at the end of any run. `Valid()` is established by connecting and kept
 * by every call of the public API, whatever the transport, the agent and the consumers do; these
 * are its consequences.
 */
module Runs {
  import opened Bytes
  import opened Protocol
  import opened AgentWire
  import opened Names
  import opened Waiting
  import opened Replies
  import opened History
  import opened Sessions
  import opened Subscriptions
  import L = MessageLayout
  import F = Framing
  import D = Dispatch

  // ---- what was accepted ----

  /** The creation of this entity is on record, was answered favourably by the agent, and the answer was read. */
  ghost predicate GenuinelyAcked(s: Session, oid: u16, kind: byte)
    reads s
  {
    exists j ::
      && 0 <= j < |s.history| && AckedAs(s.history[j], oid, kind)
      && s.history[j].ack.value < |s.trace|
      && Genuine(s.sessionId, s.history, s.trace, j, s.history[j].ack.value)
  }

  lemma AckedIsGenuine(s: Session, oid: u16, kind: byte)
    requires s.Sound() && Acked(s.history, oid, kind)
    requires AnswersInOrder(s.sessionId, s.history, s.trace) && CountRequests(s.history) <= 0xFFFF
    ensures GenuinelyAcked(s, oid, kind)
  {
    hide Numbered, Serial, Grounded, Genuine, CountRequests, Accepts, AnswersInOrder, HandlesKnown, ReadersNumbered,
         Session.Table, Session.Counters, Session.Indices, Session.Delivered;
    var j :| 0 <= j < |s.history| && AckedAs(s.history[j], oid, kind);
    AcknowledgementsAreGenuine(s.sessionId, s.clientKey, s.history, s.allocs, s.trace, j);
  }

  /** Every node and publisher handed out and every registered subscription refers to accepted entities only. */
  ghost predicate HandlesAccepted(s: Session)
    reads s, s.subscriptions
  {
    && (forall n :: n in s.nodes ==>
      && GenuinelyAcked(s, ObjectId(n.participantIdx, ENTITY_PARTICIPANT), ENTITY_PARTICIPANT)
      && GenuinelyAcked(s, ObjectId(n.publisherIdx, ENTITY_PUBLISHER), ENTITY_PUBLISHER)
      && GenuinelyAcked(s, ObjectId(n.subscriberIdx, ENTITY_SUBSCRIBER), ENTITY_SUBSCRIBER))
    && (forall w :: w in s.writers ==> GenuinelyAcked(s, w, ENTITY_DATAWRITER))
    && (forall i :: 0 <= i < |s.subscriptions| ==> GenuinelyAcked(s, s.subscriptions[i].drId, ENTITY_DATAREADER))
  }

  /** What the `k`-th message refers to was accepted, in a reply read before the message was sent. */
  ghost predicate AcceptedBefore(s: Session, k: nat)
    requires k < |s.history| && Needs(s.history[k].m).Some?
    reads s
  {
    exists j ::
      && 0 <= j < k
      && AckedAs(s.history[j], Needs(s.history[k].m).value.0, Needs(s.history[k].m).value.1)
      && s.history[j].at <= s.history[j].ack.value < s.history[k].at <= |s.trace|
      && Genuine(s.sessionId, s.history, s.trace, j, s.history[j].ack.value)
  }

  /** With an agent that answers each request once and in order. */
  lemma HandlesReferToAcceptedEntities(s: Session)
    requires s.Sound()
    requires AnswersInOrder(s.sessionId, s.history, s.trace) && CountRequests(s.history) <= 0xFFFF
    ensures HandlesAccepted(s)
  {
    hide Lawful, GenuinelyAcked, Acked, ObjectId, ReadersNumbered, D.Run, CountRequests, AnswersInOrder,
         Session.Counters, Session.Indices, Session.Delivered, Session.Table;
    forall oid, kind | Acked(s.history, oid, kind)
      ensures GenuinelyAcked(s, oid, kind)
    {
      AckedIsGenuine(s, oid, kind);
    }
    forall i | 0 <= i < |s.subscriptions|
      ensures GenuinelyAcked(s, s.subscriptions[i].drId, ENTITY_DATAREADER)
    {
      s.Recorded(s.subscriptions[i]);
    }
  }

  lemma MessagesReferToAcceptedEntities(s: Session, k: nat)
    requires s.Sound() && k < |s.history| && Needs(s.history[k].m).Some? && s.history[k].own
    requires AnswersInOrder(s.sessionId, s.history, s.trace) && CountRequests(s.history) <= 0xFFFF
    ensures AcceptedBefore(s, k)
  {
    hide Lawful, Genuine, CountRequests, AnswersInOrder, HandlesKnown, ReadersNumbered, Needs, Session.Table,
         Session.Counters, Session.Indices, Session.Delivered;
    EveryReferenceWasAccepted(s.sessionId, s.clientKey, s.history, s.allocs, s.trace, k);
  }

  // ---- subscriptions ----

  /**
   * `o` entered the table as `joined` after `before`, and from then on has been a bounded FIFO of
   * the decodable samples addressed to it, within its depth if it was when it joined.
   */
  ghost predicate FifoSince(s: Session, o: Subscription, before: Trace, joined: D.Slot, after: Trace)
    reads s, o
  {
    && s.trace == before + [D.Join(joined)] + after
    && var table := D.Run(s.sessionId, [], before) + [joined];
    && s.OwnerOf(o) == |table| - 1
    && D.FifoState(joined, o.State(), D.InputsOf(s.sessionId, table, |table| - 1, after))
    && (|joined.queue| <= joined.depth ==> |o.inbox| <= o.depth)
  }

  lemma SubscriptionsAreFifos(s: Session, i: nat)
    requires s.Sound() && i < |s.subscriptions|
    ensures exists before, joined, after :: FifoSince(s, s.subscriptions[i], before, joined, after)
  {
    hide Lawful, HandlesKnown, ReadersNumbered, D.Run, D.InputsOf, Session.Counters, Session.Indices,
         Session.Delivered;
    s.Recorded(s.subscriptions[i]);
    var before, joined, after := D.EverySlotJoined(s.sessionId, s.trace, s.OwnerOf(s.subscriptions[i]));
    D.JoinedSubscriptionIsBoundedFifo(s.sessionId, before, joined, after);
    assert FifoSince(s, s.subscriptions[i], before, joined, after);
  }

  /** First-match dispatch over the table is lookup by reader id, and no id is the unset one. */
  ghost predicate LookupById(s: Session)
    reads s, s.subscriptions
  {
    && |s.subscriptions| <= 8
    && (forall i :: 0 <= i < |s.subscriptions| ==>
      && s.subscriptions[i].drId != 0
      && s.OwnerOf(s.subscriptions[i]) < |s.slots|
      && forall id :: D.Answers(s.slots, s.OwnerOf(s.subscriptions[i]), id) <==> s.subscriptions[i].drId == id)
    && (forall i, j :: 0 <= i < j < |s.subscriptions| && s.subscriptions[i] != s.subscriptions[j] ==>
      s.subscriptions[i].drId != s.subscriptions[j].drId)
  }

  /** Up to 4095 readers. */
  lemma ReaderIdsIdentifyInSession(s: Session)
    requires s.Sound() && |s.allocs| == 7 && s.allocs[ENTITY_DATAREADER] <= 4095
    ensures LookupById(s)
  {
    hide Lawful, HandlesKnown, D.Run, D.Answers, ReadersNumbered, ObjectId, Session.Counters, Session.Indices,
         Session.Delivered;
    ReaderIdsIdentify(s.slots, s.readerSerials, s.allocs, |s.slots| == |s.subscriptions|);
    forall i | 0 <= i < |s.subscriptions|
      ensures
        var k := s.OwnerOf(s.subscriptions[i]);
        k < |s.slots| && s.owners[k] == s.subscriptions[i] && s.subscriptions[i].drId == s.slots[k].id
    {
      s.Recorded(s.subscriptions[i]);
    }
  }

  // ---- the stream ----

  /**
   * On a reliable connection, in any run: the peer's stream is what it was when the session
   * began followed by the frames of the history, the agent recovers every message from it, and
   * the sequence numbers are 0, 1, 2, ... modulo 65536.
   */
  lemma StreamIsHistory(s: Session)
    requires s.Valid() && s.transport.reliable
    ensures s.transport.tx == s.preface + F.Join(Sends(s.history))
    ensures F.TakeFrames(F.Join(Sends(s.history)), TX_BUF_SIZE, |s.history|) == Some((Sends(s.history), []))
    ensures |Sends(s.history)| == |s.history|
    ensures forall k :: 0 <= k < |s.history| ==>
      Parse(Sends(s.history)[k]) == Some(s.history[k].m) && HdrOf(s.history[k].m).seqNo == k % 0x1_0000
  {
    hide Numbered, Grounded, Serial, Timely, HandlesKnown, ReadersNumbered, Sends, F.Join, F.TakeFrames, Parse, HdrOf,
         Session.Table, Session.Counters, Session.Indices, Paced;
    AgentSeesHistory(s.sessionId, s.clientKey, s.history);
    SequenceNumbersHaveNoGap(s.sessionId, s.clientKey, s.history);
  }

  /** The layout of a message under this session id, key and sequence number. */
  ghost predicate LaidOut(b: seq<byte>, sid: byte, key: Key, seqNo: u16, m: AgentMsg) {
    match m
    case CreateClient(_, _, _) => false
    case CreateParticipant(_, req, oid, xml, domain) => L.ParticipantBytes(b, sid, key, seqNo, req, oid, xml, domain)
    case CreateChild(_, req, oid, kind, xml, parent) => L.ChildBytes(b, sid, key, seqNo, req, oid, kind, xml, parent)
    case ReadData(_, req, reader) => L.ReadBytes(b, sid, key, seqNo, req, reader)
    case WriteData(_, writer, body) => L.WriteBytes(b, sid, key, seqNo, writer, body)
  }

  /** The `k`-th message of any run, byte by byte: it carries the session's id and key, stream 1 and number `k`. */
  lemma MessagesInBytes(s: Session, k: nat)
    requires s.Sound() && k < |s.history|
    ensures LaidOut(Wire(s.history[k].m), s.sessionId, s.clientKey, k % 0x1_0000, s.history[k].m)
  {
    hide Grounded, Serial, Timely, HandlesKnown, ReadersNumbered, Session.Table, Session.Counters, Session.Indices,
         Session.Delivered, Wire, SessionHdr, L.ParticipantBytes, L.ChildBytes, L.ReadBytes, L.WriteBytes,
         Encoded, CountRequests;
    assert NumberedAt(s.sessionId, s.clientKey, s.history, k);
    var n: u16 := k % 0x1_0000;
    match s.history[k].m
    case CreateParticipant(_, req, oid, xml, domain) =>
      L.ParticipantInBytes(s.sessionId, s.clientKey, n, req, oid, xml, domain);
    case CreateChild(_, req, oid, kind, xml, parent) =>
      L.ChildInBytes(s.sessionId, s.clientKey, n, req, oid, kind, xml, parent);
    case ReadData(_, req, reader) => L.ReadInBytes(s.sessionId, s.clientKey, n, req, reader);
    case WriteData(_, writer, body) => L.WriteInBytes(s.sessionId, s.clientKey, n, writer, body);
  }

  // ---- ids ----

  /** Up to 4095 objects of a kind, all ids the session ever put in a CREATE are distinct and rise within the kind. */
  lemma ObjectIdsDistinctInSession(s: Session, j: nat, k: nat)
    requires s.Sound() && j < k < |s.history| && Creates(s.history[j].m) && Creates(s.history[k].m)
    requires |s.allocs| == 7 && KindMade(s.history[k].m) < 7 && s.allocs[KindMade(s.history[k].m)] <= 4095
    ensures s.history[j].m.oid != s.history[k].m.oid
    ensures KindMade(s.history[j].m) == KindMade(s.history[k].m) ==> s.history[j].m.oid < s.history[k].m.oid
  {
    hide Numbered, Grounded, Serial, Timely, HandlesKnown, ReadersNumbered, Session.Table, Session.Counters,
         Session.Indices, Session.Delivered;
    CreatedIdsDistinct(s.history, s.allocs, j, k);
  }

  /** No object id is in two CREATE messages, and no request id in two requests. */
  ghost predicate IdsUnique(h: History) {
    && (forall j, k :: 0 <= j < k < |h| && Creates(h[j].m) && Creates(h[k].m) ==> h[j].m.oid != h[k].m.oid)
    && (forall j, k :: 0 <= j < k < |h| && IsRequest(h[j].m) && IsRequest(h[k].m) ==> h[j].m.req != h[k].m.req)
  }

  /**
   * In any run of at most 4095 create calls, whatever became of them: no id is used twice and
   * dispatch is lookup by id; and if the agent answers each request once and in order, every
   * handle, and every reference in a message sent through a handle of this session, is to an
   * entity that agent had accepted.
   */
  lemma BoundedRun(s: Session)
    requires s.Valid() && s.calls <= 4095
    ensures IdsUnique(s.history) && LookupById(s)
    ensures AnswersInOrder(s.sessionId, s.history, s.trace) ==>
      && HandlesAccepted(s)
      && forall k :: 0 <= k < |s.history| && Needs(s.history[k].m).Some? && s.history[k].own ==> AcceptedBefore(s, k)
  {
    hide Session.Sound, LookupById, HandlesAccepted, AcceptedBefore, Needs, AnswersInOrder, CountRequests, AllSent;
    ReaderIdsIdentifyInSession(s);
    BoundedIdsUnique(s);
    if AnswersInOrder(s.sessionId, s.history, s.trace) {
      HandlesReferToAcceptedEntities(s);
      forall k | 0 <= k < |s.history| && Needs(s.history[k].m).Some? && s.history[k].own
        ensures AcceptedBefore(s, k)
      {
        MessagesReferToAcceptedEntities(s, k);
      }
    }
  }

  lemma BoundedIdsUnique(s: Session)
    requires s.Sound() && Paced(s.history, s.allocs, s.calls) && s.calls <= 4095
    ensures IdsUnique(s.history)
  {
    hide Numbered, Grounded, Timely, HandlesKnown, ReadersNumbered, CountRequests, ObjectId, Session.Table,
         Session.Counters, Session.Indices, Session.Delivered;
    var h := s.history;
    forall j, k | 0 <= j < k < |h| && Creates(h[j].m) && Creates(h[k].m)
      ensures h[j].m.oid != h[k].m.oid
    {
      CreatedIdsDistinct(h, s.allocs, j, k);
    }
    forall j, k | 0 <= j < k < |h| && IsRequest(h[j].m) && IsRequest(h[k].m)
      ensures h[j].m.req != h[k].m.req
    {
      if h[j].m.req == h[k].m.req {
        RequestIdIdentifies(s.sessionId, s.clientKey, h, j, k);
      }
    }
  }

  // ---- a session that has fallen behind ----

  lemma RequestsCounted(s: Session)
    requires s.Valid()
    ensures s.reqId == ReqAt(CountRequests(s.history))
  {
    hide CountRequests, ReqAt, Session.Table, Session.Indices, Session.Past, Session.Delivered, Paced;
  }

  /** One more call: it fails with a mismatch, and the session is as far behind as before. */
  method CreateNodeBehind(s: Session, name: Text, ghost c: nat, ghost segs: seq<Segment>, ghost rest: seq<byte>)
    returns (r: Result<Node>)
    requires s.Valid() && s.transport.reliable && s.transport.rx == StreamOf(segs) + rest
    requires AnswersFrom(s.sessionId, c, segs) && segs != []
    requires c <= CountRequests(s.history) && (CountRequests(s.history) - c) % 0xFFFF != 0
    modifies s, s.transport`rx, s.transport`tx, s.transport`log, s.txBuf, s.rxBuf, s.owners
    ensures s.Valid() && s.owners == old(s.owners) && r == Err(StatusReqMismatch)
    ensures s.transport.rx == StreamOf(segs[1..]) + rest && AnswersFrom(s.sessionId, c + 1, segs[1..])
    ensures CountRequests(s.history) == old(CountRequests(s.history)) + 1
  {
    hide Session.Valid, StreamOf, AnswersFrom, ReqAt, WaitInTurn, RequestsMade, D.FramesOf, D.NoJoins, D.SameShape,
         CountRequests;
    ghost var k, h0 := CountRequests(s.history), s.history;
    RequestsCounted(s);
    CallBehindFails(s.sessionId, k, c, segs, rest, 3);
    ghost var evs;
    r, evs := s.CreateNode(name);
    OneRequestCounted(h0, s.history, s.LatestNode(), name);
  }

  lemma OneRequestCounted(h0: History, h: History, node: Node, name: Text)
    requires h0 <= h && |h| == |h0| + 1 && NodeAsked(h[|h0|..], node, name)
    ensures CountRequests(h) == CountRequests(h0) + 1
  {
    assert h[..|h| - 1] == h0;
  }

  /**
   * Once a session is behind, by any number of replies that is no multiple of 65535, every call
   * to create a node fails with a mismatch, for as long as the agent goes on answering each
   * request once and in order.
   */
  method CallsBehindFail(s: Session, names: seq<Text>, ghost c: nat, ghost segs: seq<Segment>, ghost rest: seq<byte>)
    returns (outcomes: seq<Result<Node>>)
    requires s.Valid() && s.transport.reliable && s.transport.rx == StreamOf(segs) + rest
    requires AnswersFrom(s.sessionId, c, segs) && |names| <= |segs|
    requires c <= CountRequests(s.history) && (CountRequests(s.history) - c) % 0xFFFF != 0
    modifies s, s.transport`rx, s.transport`tx, s.transport`log, s.txBuf, s.rxBuf, s.owners
    ensures s.Valid() && |outcomes| == |names|
    ensures forall k :: 0 <= k < |names| ==> outcomes[k] == Err(StatusReqMismatch)
  {
    hide Session.Valid, StreamOf, AnswersFrom, CountRequests;
    ghost var owners, lag := s.owners, CountRequests(s.history) - c;
    outcomes := [];
    assert segs[0..] == segs;
    for k := 0 to |names|
      invariant s.Valid() && s.owners == owners && |outcomes| == k
      invariant forall j :: 0 <= j < k ==> outcomes[j] == Err(StatusReqMismatch)
      invariant s.transport.rx == StreamOf(segs[k..]) + rest && AnswersFrom(s.sessionId, c + k, segs[k..])
      invariant CountRequests(s.history) == c + k + lag
    {
      assert segs[k..][1..] == segs[k + 1..];
      var r := CreateNodeBehind(s, names[k], c + k, segs[k..], rest);
      outcomes := outcomes + [r];
    }
  }
}
