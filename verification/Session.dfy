/**
 * The client session. Every API call is modelled with the counters, buffers and dispatch table
 * it works on; ghost state records what was sent (`history`), what was received and consumed
 * (`trace`), the abstract dispatch table (`slots`, one per registered object in `owners`), and
 * how many objects of each kind were numbered (`allocs`) in how many `calls`.
 *
 * Consumers may take samples whenever the session awaits the transport. A consumer step touches
 * only inboxes and a transport step only the stream, so one block of consumer steps before each
 * frame stands for every interleaving.
 */
module Sessions {
  import opened Bytes
  import opened Protocol
  import opened Cdr
  import opened CdrWriting
  import opened AgentWire
  import opened MsgWriting
  import opened Waiting
  import opened History
  import opened Names
  import opened Subscriptions
  import F = Framing
  import D = Dispatch
  import L = MessageLayout
  import R = ReplyLayout

  const MAX_SUBSCRIPTIONS := 8

  datatype Node = Node(participantIdx: u16, publisherIdx: u16, subscriberIdx: u16)

  datatype Publisher = Publisher(dwId: u16)

  /** The agent has acknowledged all three entities behind a node. */
  ghost predicate NodeKnown(h: History, n: Node) {
    && Acked(h, ObjectId(n.participantIdx, ENTITY_PARTICIPANT), ENTITY_PARTICIPANT)
    && Acked(h, ObjectId(n.publisherIdx, ENTITY_PUBLISHER), ENTITY_PUBLISHER)
    && Acked(h, ObjectId(n.subscriberIdx, ENTITY_SUBSCRIBER), ENTITY_SUBSCRIBER)
  }

  /** Everything handed out, and everything registered, refers to acknowledged entities. */
  ghost predicate HandlesKnown(h: History, nodes: set<Node>, writers: set<u16>, slots: seq<D.Slot>) {
    && (forall n :: n in nodes ==> NodeKnown(h, n))
    && (forall w :: w in writers ==> Acked(h, w, ENTITY_DATAWRITER))
    && (forall i :: 0 <= i < |slots| ==> Acked(h, slots[i].id, ENTITY_DATAREADER))
  }

  lemma HandlesStay(h: History, a: Attempt, nodes: set<Node>, writers: set<u16>, slots: seq<D.Slot>)
    requires HandlesKnown(h, nodes, writers, slots)
    ensures HandlesKnown(h + [a], nodes, writers, slots)
  {
    forall oid, kind | Acked(h, oid, kind)
      ensures Acked(h + [a], oid, kind)
    {
      AckedStays(h, [a], oid, kind);
    }
  }

  /**
   * The registered reader ids are made from distinct serial numbers, which rise along the table
   * unless some subscription was registered twice.
   */
  ghost predicate ReadersNumbered(slots: seq<D.Slot>, serials: seq<nat>, allocs: seq<nat>, once: bool) {
    && |allocs| == 7 && |serials| == |slots|
    && (forall i :: 0 <= i < |slots| ==>
      slots[i].id == ObjectId(serials[i] % 0x1_0000, ENTITY_DATAREADER) && 1 <= serials[i] <= allocs[ENTITY_DATAREADER])
    && (forall i, j :: 0 <= i < j < |serials| ==> serials[i] != serials[j])
    && (once ==> forall i, j :: 0 <= i < j < |serials| ==> serials[i] < serials[j])
  }

  /**
   * With no more than 4095 readers numbered, no two registered ids agree, so the first match is
   * the only one; none is the unset id 0; and they rise if nothing was registered twice.
   */
  lemma ReaderIdsIdentify(slots: seq<D.Slot>, serials: seq<nat>, allocs: seq<nat>, once: bool)
    requires ReadersNumbered(slots, serials, allocs, once) && allocs[ENTITY_DATAREADER] <= 4095
    ensures forall i, j :: 0 <= i < j < |slots| ==>
      slots[i].id != slots[j].id && (once ==> slots[i].id < slots[j].id)
    ensures forall i :: 0 <= i < |slots| ==>
      slots[i].id != 0 && forall id :: D.Answers(slots, i, id) <==> slots[i].id == id
  {
    forall i | 0 <= i < |slots|
      ensures slots[i].id == serials[i] * 0x10 + ENTITY_DATAREADER
    {
      hide ObjectId;
      ObjectIdOfSerial(serials[i], ENTITY_DATAREADER);
    }
  }

  /** The objects of a table in the order in which each was first registered. */
  ghost function Firsts(table: seq<Subscription>): seq<Subscription> {
    if table == [] then []
    else
      var r := Firsts(table[..|table| - 1]);
      if table[|table| - 1] in r then r else r + [table[|table| - 1]]
  }

  lemma FirstsSnoc(table: seq<Subscription>, o: Subscription)
    ensures Firsts(table + [o]) == if o in Firsts(table) then Firsts(table) else Firsts(table) + [o]
  {
    assert (table + [o])[..|table|] == table;
  }

  lemma {:induction false} FirstsAreEntries(table: seq<Subscription>, k: nat)
    requires k < |Firsts(table)|
    ensures exists i :: 0 <= i < |table| && table[i] == Firsts(table)[k]
  {
    var shorter := table[..|table| - 1];
    if k < |Firsts(shorter)| {
      FirstsAreEntries(shorter, k);
      var i :| 0 <= i < |shorter| && shorter[i] == Firsts(shorter)[k];
      assert table[i] == Firsts(table)[k];
    } else {
      assert table[|table| - 1] == Firsts(table)[k];
    }
  }

  lemma {:induction false} FirstsOfPrefix(table: seq<Subscription>, n: nat)
    requires n <= |table|
    ensures Firsts(table[..n]) <= Firsts(table)
  {
    if n == |table| {
      assert table[..n] == table;
    } else {
      var shorter := table[..|table| - 1];
      FirstsOfPrefix(shorter, n);
      assert shorter[..n] == table[..n];
    }
  }

  /** The `n`-th entry, if no earlier one is the same object, is the next of the distinct ones. */
  lemma FirstsReach(table: seq<Subscription>, n: nat)
    requires n < |table|
    ensures
      var seen := Firsts(table[..n]);
      && seen <= Firsts(table)
      && (table[n] !in seen ==> |seen| < |Firsts(table)| && Firsts(table)[|seen|] == table[n])
  {
    hide Firsts;
    FirstsOfPrefix(table, n);
    FirstsOfPrefix(table, n + 1);
    assert table[..n + 1] == table[..n] + [table[n]];
    FirstsSnoc(table[..n], table[n]);
    var seen := Firsts(table[..n]);
    if table[n] !in seen {
      assert (seen + [table[n]])[|seen|] == table[n];
    }
  }

  /** `owners` are the objects of the table, each once, in the order of their first registration. */
  ghost predicate OwnersOf(table: seq<Subscription>, owners: seq<Subscription>) {
    && owners == Firsts(table) && |owners| <= |table|
    && (forall i :: 0 <= i < |table| ==> table[i] in owners)
    && (forall i, j :: 0 <= i < j < |owners| ==> owners[i] != owners[j])
  }

  lemma OwnersOfSnoc(table: seq<Subscription>, owners: seq<Subscription>, o: Subscription)
    requires OwnersOf(table, owners)
    ensures OwnersOf(table + [o], if o in owners then owners else owners + [o]) && |owners| <= |table|
    ensures forall i, j :: 0 <= i < j < |owners| ==> owners[i] != owners[j]
  {
    hide Firsts;
    FirstsSnoc(table, o);
  }

  lemma HandlesFollowShape(h: History, nodes: set<Node>, writers: set<u16>, slots: seq<D.Slot>, later: seq<D.Slot>)
    requires HandlesKnown(h, nodes, writers, slots)
    requires D.SameShape(slots, later) && |later| == |slots|
    ensures HandlesKnown(h, nodes, writers, later)
  {
    hide Acked, NodeKnown;
  }

  /**
   * How one request `a` ended: unless the connection faulted, as `WaitFor`
   * says of the stream.
   */
  ghost predicate Waited(sid: byte, reliable: bool, a: Attempt, before: seq<byte>, after: seq<byte>, r: Result<()>,
                         evs: Trace) {
    && (reliable ==> r != Err(Io))
    && (a.sent && IsRequest(a.m) && r != Err(Io) ==>
      WaitFor(sid, a.m.req, before) == WaitEnd(r, after, D.FramesOf(evs)))
  }

  /** A call's outcome without the handle it returns. */
  function Done<T>(r: Result<T>): Result<()> {
    match r
    case Ok(_) => Ok(())
    case Err(e) => Err(e)
  }

  lemma DoneOfUnit<T>(t: Result<()>, handle: T)
    ensures Done(if t.Ok? then Ok(handle) else Err(t.error)) == t
  {
    match t
    case Ok(u) => assert u == ();
    case Err(_) =>
  }

  /** One more request of a call that makes several, on a reliable connection. */
  lemma OneMoreRequest(sid: byte, reliable: bool, whole: Turns, done: Trace, made: nat, k: nat, a: Attempt,
                       before: seq<byte>, after: seq<byte>, r: Result<()>, evs: Trace)
    requires k > 0 && IsRequest(a.m) && (reliable ==> a.sent)
    requires Waited(sid, reliable, a, before, after, r, evs)
    requires reliable ==> InTurn(sid, whole, D.FramesOf(done), made, a.m.req, before, k)
    ensures reliable && r.Ok? ==>
      InTurn(sid, whole, D.FramesOf(done + evs), made + 1, NextReq(a.m.req), after, k - 1)
    ensures reliable && r.Err? ==> whole == Turns(WaitEnd(r, after, D.FramesOf(done + evs)), made + 1)
  {
    hide WaitFor, InTurn, D.FramesOf, NextReq;
    D.FramesOfAppend(done, evs);
    if reliable {
      NextInTurn(sid, whole, D.FramesOf(done), made, a.m.req, before, k, WaitEnd(r, after, D.FramesOf(evs)));
    }
  }

  lemma NoRequestsLeft(sid: byte, whole: Turns, done: Trace, made: nat, req: u16, rx: seq<byte>)
    requires InTurn(sid, whole, D.FramesOf(done), made, req, rx, 0)
    ensures whole == Turns(WaitEnd(Ok(()), rx, D.FramesOf(done)), made)
  {
    hide D.FramesOf;
    assert D.FramesOf(done) + [] == D.FramesOf(done);
  }

  lemma RequestsBegin(sid: byte, req: u16, rx: seq<byte>, n: nat)
    ensures InTurn(sid, TurnsFor(sid, req, rx, n), D.FramesOf([]), 0, req, rx, n)
  {
    hide WaitInTurn, RequestsMade;
    PrependNothing(WaitInTurn(sid, req, rx, n));
  }

  // ---- what a call asks of the agent ----

  /**
   * The messages of a call of `n` requests: each but the last was acknowledged, and the last
   * one decides; success means that all were made. On a reliable connection all were sent.
   */
  ghost predicate Answered(h: History, n: nat, ok: bool, reliable: bool) {
    && (if ok then |h| == n else 0 < |h| <= n)
    && (forall k :: 0 <= k < |h| ==> (h[k].ack.Some? <==> (ok || k < |h| - 1)))
    && (reliable ==> AllSent(h))
  }

  lemma AnsweredAlone(a: Attempt, n: nat, ok: bool, reliable: bool)
    requires (a.ack.Some? <==> ok) && (reliable ==> a.sent) && n > 0 && (ok ==> n == 1)
    ensures Answered([a], n, ok, reliable)
  {
  }

  lemma AnsweredFirst(h0: History, a: Attempt, h: History, n: nat, ok: bool, reliable: bool)
    requires h0 + [a] <= h && a.ack.Some? && (reliable ==> a.sent)
    requires Answered(h[|h0| + 1..], n, ok, reliable)
    ensures h[|h0|..] == [a] + h[|h0| + 1..] && h[|h0|..][1..] == h[|h0| + 1..]
    ensures Answered(h[|h0|..], n + 1, ok, reliable)
  {
    var rest := h[|h0| + 1..];
    assert h[|h0|..] == [a] + rest;
    forall k | 0 < k < |rest| + 1
      ensures h[|h0|..][k] == rest[k - 1]
    {
    }
  }

  /** The participant CREATE behind a node. */
  predicate ParticipantAsked(a: Attempt, oid: u16, xml: Text) {
    a.m.CreateParticipant? && a.m.oid == oid && a.m.xml == AsBytes(xml) && a.m.domain == 0
  }

  /** A CREATE of this entity under this parent, which the handle at hand names. */
  predicate ChildAsked(a: Attempt, oid: u16, kind: byte, xml: Text, parent: u16, own: bool) {
    a.own == own && a.m.CreateChild? && a.m.oid == oid && a.m.kind == kind && a.m.xml == AsBytes(xml) && a.m.parent == parent
  }

  /** Publisher and subscriber, each under the node's participant, as far as the messages go. */
  predicate ChildrenAsked(h: History, node: Node) {
    var participant := ObjectId(node.participantIdx, ENTITY_PARTICIPANT);
    && (|h| > 0 ==>
      ChildAsked(h[0], ObjectId(node.publisherIdx, ENTITY_PUBLISHER), ENTITY_PUBLISHER, PublisherXml(), participant, true))
    && (|h| > 1 ==>
      ChildAsked(h[1], ObjectId(node.subscriberIdx, ENTITY_SUBSCRIBER), ENTITY_SUBSCRIBER, SubscriberXml(), participant,
                 true))
  }

  /** The participant of a node and then its children. */
  predicate NodeAsked(h: History, node: Node, name: Text) {
    |h| > 0 ==>
      && ParticipantAsked(h[0], ObjectId(node.participantIdx, ENTITY_PARTICIPANT), NodeXml(name))
      && ChildrenAsked(h[1..], node)
  }

  /** A topic of this name under the node's participant. */
  predicate TopicAsked(a: Attempt, node: Node, ddsTopic: Text, typeName: Text, topicId: u16, own: bool) {
    ChildAsked(a, topicId, ENTITY_TOPIC, TopicXml(ddsTopic, typeName), ObjectId(node.participantIdx, ENTITY_PARTICIPANT),
               own)
  }

  /** A writer for it under the node's publisher. */
  predicate WriterAsked(a: Attempt, node: Node, ddsTopic: Text, typeName: Text, dwId: u16, own: bool) {
    ChildAsked(a, dwId, ENTITY_DATAWRITER, WriterXml(ddsTopic, typeName), ObjectId(node.publisherIdx, ENTITY_PUBLISHER),
               own)
  }

  /** A reader for it under the node's subscriber, and then READ_DATA for that reader. */
  predicate ReaderAsked(h: History, node: Node, ddsTopic: Text, typeName: Text, drId: u16, own: bool) {
    && (|h| > 0 ==>
      ChildAsked(h[0], drId, ENTITY_DATAREADER, ReaderXml(ddsTopic, typeName),
                 ObjectId(node.subscriberIdx, ENTITY_SUBSCRIBER), own))
    && (|h| > 1 ==> h[1].own && h[1].m.ReadData? && h[1].m.reader == drId)
  }

  predicate PublisherAsked(h: History, node: Node, ddsTopic: Text, typeName: Text, topicId: u16, dwId: u16, own: bool) {
    && (|h| > 0 ==> TopicAsked(h[0], node, ddsTopic, typeName, topicId, own))
    && (|h| > 1 ==> WriterAsked(h[1], node, ddsTopic, typeName, dwId, own))
  }

  predicate SubscriptionAsked(h: History, node: Node, ddsTopic: Text, typeName: Text, topicId: u16, drId: u16, own: bool) {
    |h| > 0 ==>
      && TopicAsked(h[0], node, ddsTopic, typeName, topicId, own)
      && ReaderAsked(h[1..], node, ddsTopic, typeName, drId, own)
  }

  lemma NoReaderAsked(node: Node, ddsTopic: Text, typeName: Text, drId: u16, own: bool)
    ensures ReaderAsked([], node, ddsTopic, typeName, drId, own)
  {
  }

  lemma NothingMoreAsked(a: Attempt, node: Node, name: Text)
    requires ParticipantAsked(a, ObjectId(node.participantIdx, ENTITY_PARTICIPANT), NodeXml(name))
    ensures NodeAsked([a], node, name)
  {
    assert [a][1..] == [];
  }

  /** Ids carry their kind in the low four bits; these are the kinds of what a call names. */
  lemma KindsAsked(a: Attempt, node: Node, ddsTopic: Text, typeName: Text, oid: u16, own: bool)
    ensures TopicAsked(a, node, ddsTopic, typeName, oid, own) ==> a.m.kind == 2 && a.m.parent % 16 == 1
    ensures WriterAsked(a, node, ddsTopic, typeName, oid, own) ==> a.m.kind == 5 && a.m.parent % 16 == 3
    ensures ReaderAsked([a], node, ddsTopic, typeName, oid, own) ==> a.m.kind == 6 && a.m.parent % 16 == 4
    ensures ChildrenAsked([a], node) ==> a.m.kind == 3 && a.m.oid % 16 == 3 && a.m.parent % 16 == 1
  {
    hide TopicXml, WriterXml, ReaderXml, AsBytes;
  }

  lemma AskedIsAcked(h: History, a: Attempt, oid: u16, kind: byte, xml: Text, parent: u16, own: bool)
    requires a.ack.Some?
    ensures ParticipantAsked(a, oid, xml) ==> Acked(h + [a], oid, ENTITY_PARTICIPANT)
    ensures ChildAsked(a, oid, kind, xml, parent, own) ==> Acked(h + [a], oid, kind)
  {
    assert (h + [a])[|h|] == a;
  }

  // ---- how much a session has done ----

  /** One more object of this kind. */
  function Bump(allocs: seq<nat>, kind: byte): (r: seq<nat>)
    ensures |r| == |allocs|
  {
    if kind < |allocs| then allocs[kind := allocs[kind] + 1] else allocs
  }

  /** A call numbers at most one object of each kind and makes at most three requests. */
  ghost predicate Paced(h: History, allocs: seq<nat>, calls: nat) {
    && |allocs| == 7 && (forall kind :: 0 <= kind < 7 ==> allocs[kind] <= calls)
    && CountRequests(h) <= 3 * calls
  }

  lemma BumpsByOne(was: seq<nat>, i: byte, j: byte, k: byte)
    requires |was| == 7 && i != j && j != k && k != i
    ensures forall kind :: 0 <= kind < 7 ==> Bump(Bump(Bump(was, i), j), k)[kind] <= was[kind] + 1
  {
  }

  lemma PacedByCall(h: History, was: seq<nat>, calls: nat, g: History, allocs: seq<nat>, reliable: bool)
    requires Paced(h, was, calls) && h <= g && |g| <= |h| + 3
    requires |allocs| == 7 && forall kind :: 0 <= kind < 7 ==> allocs[kind] <= was[kind] + 1
    requires reliable ==> AllSent(h) && AllSent(g[|h|..])
    ensures Paced(g, allocs, calls + 1)
    ensures reliable ==> AllSent(g)
  {
    hide CountRequests;
    assert g == h + g[|h|..];
    CountGrows(h, g[|h|..]);
  }

  /** What the headers of a WRITE_DATA message leave for the body. */
  function BodyRoom(sid: byte): nat {
    TX_BUF_SIZE - HdrLen(sid) - 8
  }

  /** The body as sent: the ideal encoding, cut at the end of the transmit buffer. */
  function SentBody(sid: byte, msg: Message): (body: seq<byte>)
    ensures |EncodeAll(msg, 0)| <= BodyRoom(sid) ==> body == EncodeAll(msg, 0)
  {
    EncodeAll(msg, 0)[..Min(|EncodeAll(msg, 0)|, BodyRoom(sid))]
  }

  /** No object of any kind has been numbered. */
  function NoAllocs(): seq<nat> {
    [0, 0, 0, 0, 0, 0, 0]
  }

  lemma NothingSent(sid: byte, key: Key)
    ensures Lawful(sid, key, [], NoAllocs(), []) && AllSent([])
    ensures Sends([]) == [] && F.Join([]) == []
  {
    hide NumberedAt, Acked, ObjectId, AcceptedAt;
  }

  lemma NothingCounted()
    ensures |NoAllocs()| == 7 && forall kind :: 0 <= kind < 7 ==> NoAllocs()[kind] == 0
    ensures Paced([], NoAllocs(), 0) && CountRequests([]) == 0 && ReqAt(0) == 1
  {
  }

  lemma NothingRegistered(sid: byte)
    ensures HandlesKnown([], {}, {}, []) && ReadersNumbered([], [], NoAllocs(), true)
    ensures OwnersOf([], []) && D.Run(sid, [], []) == []
  {
  }

  class Session {
    const transport: F.Transport
    const sessionId: byte
    const clientKey: Key
    const txBuf: array<byte>
    const rxBuf: array<byte>
    var seqNo: u16
    var reqId: u16
    var nextParticipantIdx: u16
    var nextTopicIdx: u16
    var nextPublisherIdx: u16
    var nextSubscriberIdx: u16
    var nextDwIdx: u16
    var nextDrIdx: u16
    var subscriptions: seq<Subscription>

    ghost const preface: seq<byte>
    ghost var history: History
    ghost var allocs: seq<nat>
    ghost var trace: Trace
    ghost var slots: seq<D.Slot>
    ghost var owners: seq<Subscription>
    ghost var nodes: set<Node>
    ghost var writers: set<u16>
    ghost var readerSerials: seq<nat>
    ghost var calls: nat

    ghost predicate Buffers() {
      txBuf.Length == TX_BUF_SIZE && rxBuf.Length == RX_BUF_SIZE && txBuf != rxBuf
    }

    /** `slots` records the states of the registered objects, each once. */
    ghost predicate Synced()
      reads `subscriptions, `owners, `slots, owners
    {
      && OwnersOf(subscriptions, owners)
      && |owners| == |slots|
      && (forall i :: 0 <= i < |owners| ==> owners[i].State() == slots[i])
    }

    /** Where a registered object is recorded. */
    ghost function OwnerOf(o: Subscription): (i: nat)
      reads `owners
      ensures o in owners ==> i < |owners| && owners[i] == o
    {
      if o in owners then
        var i: nat :| i < |owners| && owners[i] == o; i
      else |owners|
    }

    /** The dispatch table is what the trace makes of an empty one. */
    ghost predicate Table()
      reads `subscriptions, `owners, `slots, `trace, owners
    {
      && Synced()
      && |subscriptions| <= MAX_SUBSCRIPTIONS
      && slots == D.Run(sessionId, [], trace)
    }

    ghost predicate Counters()
      reads `seqNo, `reqId, `history
    {
      && seqNo == |history| % 0x1_0000
      && reqId == ReqAt(CountRequests(history))
    }

    ghost predicate Indices()
      reads `allocs, `nextParticipantIdx, `nextTopicIdx, `nextPublisherIdx, `nextSubscriberIdx, `nextDwIdx, `nextDrIdx
    {
      && |allocs| == 7
      && nextParticipantIdx == (allocs[ENTITY_PARTICIPANT] + 1) % 0x1_0000
      && nextTopicIdx == (allocs[ENTITY_TOPIC] + 1) % 0x1_0000
      && nextPublisherIdx == (allocs[ENTITY_PUBLISHER] + 1) % 0x1_0000
      && nextSubscriberIdx == (allocs[ENTITY_SUBSCRIBER] + 1) % 0x1_0000
      && nextDwIdx == (allocs[ENTITY_DATAWRITER] + 1) % 0x1_0000
      && nextDrIdx == (allocs[ENTITY_DATAREADER] + 1) % 0x1_0000
    }

    ghost predicate Past()
      reads `history, `allocs, `trace, `nodes, `writers, `subscriptions, `slots, `readerSerials
    {
      && Lawful(sessionId, clientKey, history, allocs, trace)
      && HandlesKnown(history, nodes, writers, slots)
      && ReadersNumbered(slots, readerSerials, allocs, |slots| == |subscriptions|)
    }

    /** On a reliable connection the peer has been handed exactly the frames sent, in order. */
    ghost predicate Delivered()
      reads `history, transport`tx
    {
      transport.reliable ==> transport.tx == preface + F.Join(Sends(history))
    }

    /** What holds between any two requests. */
    ghost predicate Sound()
      reads `subscriptions, `owners, `slots, `trace, `history, `nodes, `writers, `readerSerials, `allocs, `seqNo, `reqId
      reads `nextParticipantIdx, `nextTopicIdx, `nextPublisherIdx, `nextSubscriberIdx, `nextDwIdx, `nextDrIdx
      reads transport`tx, owners
    {
      Buffers() && Table() && Counters() && Indices() && Past() && Delivered()
    }

    /** What holds between any two calls. */
    ghost predicate Valid()
      reads this, transport`tx, owners
    {
      Sound() && Paced(history, allocs, calls) && (transport.reliable ==> AllSent(history))
    }

    // ---- connection ----

    constructor (transport: F.Transport, sessionId: byte, clientKey: Key)
      ensures Valid()
      ensures this.transport == transport && this.sessionId == sessionId && this.clientKey == clientKey
      ensures history == [] && trace == [] && subscriptions == owners == [] && nodes == {} && writers == {}
      ensures allocs == NoAllocs() && calls == 0 && fresh(txBuf) && fresh(rxBuf) && preface == transport.tx
      ensures txBuf.Length == 768 && rxBuf.Length == 768
    {
      this.transport, this.sessionId, this.clientKey := transport, sessionId, clientKey;
      seqNo, reqId := 0, 1;
      nextParticipantIdx, nextTopicIdx, nextPublisherIdx := 1, 1, 1;
      nextSubscriberIdx, nextDwIdx, nextDrIdx := 1, 1, 1;
      txBuf := new byte[TX_BUF_SIZE](_ => 0);
      rxBuf := new byte[RX_BUF_SIZE](_ => 0);
      subscriptions := [];
      preface, history, allocs, trace := transport.tx, [], NoAllocs(), [];
      slots, owners, nodes, writers, readerSerials, calls := [], [], {}, {}, [], 0;
      new;
      hide Valid, NoAllocs;
      Begun();
    }

    /** A session that has done nothing yet. */
    lemma Begun()
      requires Buffers() && seqNo == 0 && reqId == 1 && preface == transport.tx
      requires nextParticipantIdx == nextTopicIdx == nextPublisherIdx == 1
      requires nextSubscriberIdx == nextDwIdx == nextDrIdx == 1
      requires history == [] && allocs == NoAllocs() && trace == [] && calls == 0 && nodes == {} && writers == {}
      requires subscriptions == [] && slots == [] && owners == [] && readerSerials == []
      ensures Valid()
    {
      hide Lawful, HandlesKnown, ReadersNumbered, Paced, AllSent, OwnersOf, D.Run, F.Join, Sends, CountRequests, ReqAt,
           NoAllocs;
      NothingSent(sessionId, clientKey);
      NothingCounted();
      NothingRegistered(sessionId);
      assert preface + [] == preface;
    }

    /**
     * CREATE_CLIENT out, STATUS_AGENT in: of at most 128 bytes, submessage 4 behind a header as
     * long as the session's, result code 0 in the first of at least two payload bytes. Any other
     * reply, or none, is an error.
     */
    static method Connect(transport: F.Transport, sessionId: byte, clientKey: Key) returns (r: Result<Session>)
      modifies transport
      ensures r.Ok? ==> fresh(r.value) && fresh(r.value.txBuf) && fresh(r.value.rxBuf)
      ensures r.Ok? ==> r.value.Valid() && r.value.transport == transport
      ensures r.Ok? ==> r.value.sessionId == sessionId && r.value.clientKey == clientKey
      ensures r.Ok? ==> r.value.history == [] && r.value.trace == [] && r.value.subscriptions == [] && r.value.calls == 0
      ensures r.Ok? || transport.reliable ==>
        var sent := Wire(CreateClient(sessionId, clientKey, 512));
        transport.tx == old(transport.tx) + F.Frame(sent) && L.ClientBytes(sent, sessionId, clientKey, 512)
      ensures r.Ok? ==>
        match F.TakeFrame(old(transport.rx), 128) {
          case Whole(reply, rest) =>
            var h := L.Behind(sessionId);
            |reply| >= h + 6 && reply[h] == 4 && reply[h + 4] == 0 && transport.rx == rest
          case _ => false
        }
      ensures F.Blamed(r, old(transport.log), transport.log) && (transport.reliable ==> r != Err(Io))
      ensures transport.reliable && r.Err? ==>
        match F.TakeFrame(old(transport.rx), 128) {
          case Whole(reply, rest) =>
            var h := L.Behind(sessionId);
            && transport.rx == rest
            && (if |reply| < h + 6 || reply[h] != 4 then r.error == UnexpectedReply
                else reply[h + 4] != 0 && r.error == AgentRejected(reply[h + 4]))
          case TooLong(rest) => r.error == BufferTooSmall && transport.rx == rest
          case Ended => r.error == Disconnected && transport.rx == []
        }
    {
      hide Wire, L.ClientBytes, F.TakeFrame, F.Frame, ParseStatusAgent, Session.Valid;
      var tx := new byte[64](_ => 0);
      WireLen(CreateClient(sessionId, clientKey, 512));
      var n := BuildCreateClient(tx, sessionId, clientKey, 512);
      assert tx[..n] == Wire(CreateClient(sessionId, clientKey, 512));
      var w := F.WriteFramed(transport, tx[..n]);
      if w.Err? {
        return Err(w.error);
      }
      var rx := new byte[128](_ => 0);
      var len := F.ReadFramed(transport, rx);
      if len.Err? {
        return Err(len.error);
      }
      R.StatusAgentInBytes(rx[..len.value], sessionId);
      var status := ParseStatusAgent(rx[..len.value], sessionId);
      if status.Err? {
        return Err(status.error);
      }
      var s := new Session(transport, sessionId, clientKey);
      return Ok(s);
    }

    // ---- counters ----

    method NextReqId() returns (r: u16)
      modifies `reqId
      ensures r == old(reqId) && reqId == NextReq(r)
    {
      r := reqId;
      reqId := NextReq(reqId);
    }

    method NextSeqNo() returns (s: u16)
      modifies `seqNo
      ensures s == old(seqNo) && seqNo == (s + 1) % 0x1_0000
    {
      s := seqNo;
      seqNo := (seqNo + 1) % 0x1_0000;
    }

    // ---- consumers ----

    /** The consumer of subscription `i` polls its inbox. */
    method ConsumerPolls(i: nat) returns (m: Option<Message>)
      requires Table() && i < |subscriptions|
      modifies `slots, `trace, owners
      ensures Table() && trace == old(trace) + [D.Receive(OwnerOf(subscriptions[i]))]
      ensures m == if old(subscriptions[i].inbox) == [] then None else Some(old(subscriptions[i].inbox)[0])
    {
      hide D.Run, Firsts;
      ghost var j := OwnerOf(subscriptions[i]);
      assert owners[j] == subscriptions[i];
      D.RunSnoc(sessionId, [], trace, D.Receive(j));
      m := subscriptions[i].TryRecv();
      slots := slots[j := D.ReceiveOne(slots[j])];
      trace := trace + [D.Receive(j)];
    }

    /** Any number of polls by any consumers. */
    method ConsumersRun() returns (ghost evs: Trace)
      requires Table()
      modifies `slots, `trace, owners
      ensures Table() && trace == old(trace) + evs && D.NoJoins(evs) && D.FramesOf(evs) == []
    {
      hide D.Run, D.FramesOf, Synced;
      evs := [];
      D.NoFrames();
      var rounds: nat := *;
      while rounds > 0 && |subscriptions| > 0
        invariant Table() && trace == old(trace) + evs && D.NoJoins(evs) && D.FramesOf(evs) == []
      {
        var i: nat :| i < |subscriptions|;
        var _ := ConsumerPolls(i);
        ghost var j := OwnerOf(subscriptions[i]);
        D.OnePoll(j);
        D.FramesOfAppend(evs, [D.Receive(j)]);
        evs := evs + [D.Receive(j)];
        rounds := rounds - 1;
      }
    }

    // ---- receiving ----

    method DispatchDataPayload(payload: seq<byte>)
      requires Synced()
      modifies `slots, owners
      ensures Synced() && slots == D.DispatchPayload(old(slots), payload)
    {
      hide D.Deliver, Firsts;
      if |payload| < 4 {
        return;
      }
      var drOid := FromBe16(payload[2], payload[3]);
      for i := 0 to |subscriptions|
        invariant forall j :: 0 <= j < i ==> subscriptions[j].drId != drOid
        invariant Synced() && slots == old(slots)
      {
        if subscriptions[i].drId == drOid {
          MatchIsFirst(i, drOid);
          ghost var k := |Firsts(subscriptions[..i])|;
          var _ := subscriptions[i].TryDeliver(payload[4..]);
          slots := slots[k := D.Deliver(slots[k], payload[4..])];
          return;
        }
      }
      NoMatch(drOid);
    }

    /** The first entry of the table with this id belongs to the first recorded object with it. */
    lemma MatchIsFirst(i: nat, drOid: u16)
      requires Synced() && i < |subscriptions| && subscriptions[i].drId == drOid
      requires forall j :: 0 <= j < i ==> subscriptions[j].drId != drOid
      ensures
        var k := |Firsts(subscriptions[..i])|;
        k < |owners| && owners[k] == subscriptions[i] && D.FirstMatch(slots, drOid) == k
    {
      hide Firsts;
      FirstsReach(subscriptions, i);
      var seen := Firsts(subscriptions[..i]);
      forall j | 0 <= j < |seen|
        ensures seen[j].drId != drOid
      {
        FirstsAreEntries(subscriptions[..i], j);
      }
      assert subscriptions[i] !in seen;
      forall j | 0 <= j < |seen|
        ensures slots[j].id != drOid
      {
        assert owners[j] == seen[j] && owners[j].State() == slots[j];
      }
      assert owners[|seen|].State() == slots[|seen|];
    }

    lemma NoMatch(drOid: u16)
      requires Synced() && forall j :: 0 <= j < |subscriptions| ==> subscriptions[j].drId != drOid
      ensures D.FirstMatch(slots, drOid) == |slots|
    {
      hide Firsts;
      forall j | 0 <= j < |slots|
        ensures slots[j].id != drOid
      {
        FirstsAreEntries(subscriptions, j);
        assert owners[j].State() == slots[j];
      }
    }

    method DispatchFrame(msg: seq<byte>)
      requires Table()
      modifies `slots, `trace, owners
      ensures Table() && trace == old(trace) + [D.Frame(msg)]
    {
      hide D.Run, D.DispatchPayload, Synced;
      D.RunSnoc(sessionId, [], trace, D.Frame(msg));
      var hdrLen := HdrLen(sessionId);
      if |msg| >= hdrLen + 4 {
        var submsgLen := FromLe16(msg[hdrLen + 2], msg[hdrLen + 3]);
        var payloadEnd := Min(hdrLen + 4 + submsgLen, |msg|);
        var payload := msg[hdrLen + 4..payloadEnd];
        if msg[hdrLen] == SUBMSG_DATA {
          DispatchDataPayload(payload);
        }
      }
      trace := trace + [D.Frame(msg)];
    }

    /** One frame into the receive buffer, after any consumer activity. */
    method ReadOneFrame() returns (r: Result<nat>, ghost evs: Trace)
      requires Buffers() && Table()
      modifies `slots, `trace, transport`rx, transport`log, rxBuf, owners
      ensures Table() && trace == old(trace) + evs && D.NoJoins(evs) && D.FramesOf(evs) == []
      ensures F.ReadsFrame(r, transport.reliable, old(transport.rx), transport.rx, rxBuf[..])
      ensures F.Blamed(r, old(transport.log), transport.log) && transport.log.flushed == old(transport.log.flushed)
    {
      hide D.Run, Synced, F.ReadsFrame;
      evs := ConsumersRun();
      r := F.ReadFramed(transport, rxBuf);
    }

    /** Reading a frame from `before` is the wait's own first step. */
    static lemma WaitTakesFrame(sid: byte, req: u16, r: Result<nat>, reliable: bool, before: seq<byte>, after: seq<byte>,
                         buf: seq<byte>)
      requires |buf| == RX_BUF_SIZE && F.ReadsFrame(r, reliable, before, after, buf)
      ensures r.Err? && r.error != Io ==> WaitFor(sid, req, before) == WaitEnd(Err(r.error), after, [])
      ensures reliable ==> r != Err(Io)
      ensures r.Err? ==> r.error != TooManySubscriptions
      ensures r.Ok? ==>
        && r.value <= |buf| && |after| < |before|
        && WaitFor(sid, req, before) ==
          var f := buf[..r.value];
          if !FullHeader(sid, f) then WaitEnd(Err(UnexpectedReply), after, [f])
          else if IsStatus(sid, f) then WaitEnd(ParseStatusPayload(WaitPayload(sid, f), req), after, [f])
          else Prepend([f], WaitFor(sid, req, after))
    {
      hide F.TakeFrame, ParseStatusPayload, WaitPayload;
    }

    /** A frame the wait has read goes into the trace with the effect the spin loop would give it. */
    method TakeIn(msg: seq<byte>)
      requires Table()
      modifies `slots, `trace, owners
      ensures Table() && trace == old(trace) + [D.Frame(msg)]
    {
      hide D.Run, D.DispatchPayload, D.DispatchFrame, Synced, WaitPayload;
      D.RunSnoc(sessionId, [], trace, D.Frame(msg));
      if FullHeader(sessionId, msg) {
        WaitDispatchIsSpinDispatch(sessionId, slots, msg);
        if msg[HdrLen(sessionId)] == SUBMSG_DATA {
          DispatchDataPayload(WaitPayload(sessionId, msg));
        }
      } else {
        assert D.DispatchFrame(sessionId, slots, msg) == slots by { D.ShortFrameIgnored(sessionId, slots, msg); }
      }
      trace := trace + [D.Frame(msg)];
    }

    /**
     * Reads frames until a STATUS decides. Unless the connection faults, the outcome is what
     * `WaitFor` says of the stream, and every frame read on the way, DATA included, has been dispatched.
     */
    method WaitStatusFor(req: u16) returns (r: Result<()>, ghost evs: Trace)
      requires Buffers() && Table()
      modifies `slots, `trace, transport`rx, transport`log, rxBuf, owners
      ensures Table() && trace == old(trace) + evs && D.NoJoins(evs)
      ensures F.Blamed(r, old(transport.log), transport.log) && transport.log.flushed == old(transport.log.flushed)
      ensures transport.reliable ==> r != Err(Io)
      ensures r != Err(Io) ==>
        WaitFor(sessionId, req, old(transport.rx)) == WaitEnd(r, transport.rx, D.FramesOf(evs))
      ensures r.Ok? ==> |evs| > 0 && AcceptedAt(sessionId, trace, |trace| - 1, req)
      ensures r.Err? ==> r.error != TooManySubscriptions
    {
      hide D.Run, Synced, WaitFor, ParseStatusPayload, WaitPayload, Accepts, D.FramesOf, F.ReadsFrame;
      evs := [];
      assert D.FramesOf(evs) == [] by { D.NoFrames(); }
      PrependNothing(WaitFor(sessionId, req, transport.rx));
      while true
        invariant Table() && trace == old(trace) + evs && D.NoJoins(evs)
        invariant WaitFor(sessionId, req, old(transport.rx))
               == Prepend(D.FramesOf(evs), WaitFor(sessionId, req, transport.rx))
        invariant F.Blamed(Ok(()), old(transport.log), transport.log) && transport.log.flushed == old(transport.log.flushed)
        decreases |transport.rx|
      {
        ghost var before := transport.rx;
        var len, more := ReadOneFrame();
        D.FramesOfAppend(evs, more);
        WaitTakesFrame(sessionId, req, len, transport.reliable, before, transport.rx, rxBuf[..]);
        evs := evs + more;
        if len.Err? {
          return Err(len.error), evs;
        }
        var msg := rxBuf[..len.value];
        assert msg == rxBuf[..][..len.value];
        D.OneFrame(msg);
        D.FramesOfAppend(evs, [D.Frame(msg)]);
        TakeIn(msg);
        ghost var done := D.FramesOf(evs);
        evs := evs + [D.Frame(msg)];
        if !FullHeader(sessionId, msg) {
          return Err(UnexpectedReply), evs;
        }
        if IsStatus(sessionId, msg) {
          AcceptsIsParsed(sessionId, msg, req);
          return ParseStatusPayload(WaitPayload(sessionId, msg), req), evs;
        }
        PrependTwice(done, [msg], WaitFor(sessionId, req, transport.rx));
      }
    }

    // ---- recording what was sent ----

    /** Puts an attempt on record. */
    ghost method Record(a: Attempt)
      requires Past() && Addable(sessionId, clientKey, history, allocs, a, trace)
      modifies `history
      ensures Past() && history == old(history) + [a]
      ensures CountRequests(history) == CountRequests(old(history)) + if IsRequest(a.m) then 1 else 0
      ensures Sends(history) == Sends(old(history)) + if a.sent then [Wire(a.m)] else []
    {
      hide Lawful, Addable, HandlesKnown, Wire;
      AddKeepsLaws(sessionId, clientKey, history, allocs, a, trace);
      HandlesStay(history, a, nodes, writers, slots);
      history := history + [a];
    }

    /** Traffic leaves the record lawful. */
    lemma TrafficKeepsPast(was: seq<D.Slot>, before: Trace, evs: Trace)
      requires Lawful(sessionId, clientKey, history, allocs, before) && HandlesKnown(history, nodes, writers, was)
      requires was == D.Run(sessionId, [], before) && ReadersNumbered(was, readerSerials, allocs, |was| == |subscriptions|)
      requires trace == before + evs && D.NoJoins(evs) && slots == D.Run(sessionId, [], trace)
      ensures Past()
      ensures |slots| == |was| && D.SameShape(was, slots)
    {
      hide Lawful, HandlesKnown, D.Run, D.NoJoins;
      TraceGrows(sessionId, clientKey, history, allocs, before, evs);
      D.RunAppend(sessionId, [], before, evs);
      D.RunKeepsShape(sessionId, was, evs);
      D.TableKeepsSize(sessionId, was, evs);
      HandlesFollowShape(history, nodes, writers, was, slots);
    }

    /** Everything between drawing a request's numbers and the next call's. */
    ghost predicate Pausing()
      reads `subscriptions, `owners, `slots, `trace, `history, `nodes, `writers, `readerSerials, `allocs
      reads transport`tx, owners
      reads `nextParticipantIdx, `nextTopicIdx, `nextPublisherIdx, `nextSubscriberIdx, `nextDwIdx, `nextDrIdx
    {
      Buffers() && Table() && Indices() && Past() && Delivered()
    }

    /**
     * Sends the request encoded in `txBuf[..n]` and waits for its STATUS. `a` is the record of
     * it; it is acknowledged exactly when the call succeeds.
     */
    method SendAndWait(n: nat, req: u16, ghost m: AgentMsg, ghost own: bool, ghost serial: nat)
      returns (r: Result<()>, ghost evs: Trace, ghost a: Attempt)
      requires Pausing() && n <= TX_BUF_SIZE && txBuf[..n] == Wire(m)
      requires IsRequest(m) && m.req == req
      requires Addable(sessionId, clientKey, history, allocs, Attempt(m, own, serial, |trace|, false, None), trace)
      modifies `history, `slots, `trace, transport`rx, transport`tx, transport`log, rxBuf, owners
      ensures Pausing() && |slots| == |old(slots)| && D.SameShape(old(slots), slots)
      ensures history == old(history) + [a] && CountRequests(history) == CountRequests(old(history)) + 1
      ensures trace == old(trace) + evs && D.NoJoins(evs)
      ensures a.m == m && a.own == own && a.serial == serial && a.at == |old(trace)| && (a.ack.Some? <==> r.Ok?)
      ensures transport.reliable ==> a.sent
      ensures r.Err? ==> r.error != TooManySubscriptions
      ensures F.Blamed(r, old(transport.log), transport.log) && (transport.reliable ==> r != Err(Io))
      ensures a.sent ==> transport.log.flushed == |transport.tx|
      ensures a.sent && r != Err(Io) ==>
        WaitFor(sessionId, req, old(transport.rx)) == WaitEnd(r, transport.rx, D.FramesOf(evs))
      ensures !a.sent ==> r.Err? && r.error in {Io, Disconnected}
    {
      hide Lawful, HandlesKnown, ReadersNumbered, Addable, Indices, Synced, D.Run, Wire, WaitFor, AcceptedAt,
           D.FramesOf, F.Join, F.Frame, Sends, CountRequests, D.NoJoins, D.SameShape;
      ghost var was, before := slots, trace;
      var w := F.WriteFramed(transport, txBuf[..n]);
      if w.Err? {
        a := Attempt(m, own, serial, |trace|, false, None);
        Record(a);
        evs := [];
        NothingHappened(was, before);
        return Err(w.error), evs, a;
      }
      r, evs := WaitStatusFor(req);
      TrafficKeepsPast(was, before, evs);
      a := Attempt(m, own, serial, |before|, true, if r.Ok? then Some(|trace| - 1) else None);
      AcknowledgedIsAddable(a, before, evs);
      F.JoinAppend(Sends(history), [Wire(m)]);
      F.JoinOne(Wire(m));
      Record(a);
    }

    lemma NothingHappened(was: seq<D.Slot>, before: Trace)
      ensures before == before + [] && D.NoJoins([]) && D.SameShape(was, was)
    {
    }

    lemma AcknowledgedIsAddable(a: Attempt, before: Trace, evs: Trace)
      requires Addable(sessionId, clientKey, history, allocs, Attempt(a.m, a.own, a.serial, |before|, false, None), before)
      requires trace == before + evs && a.at == |before|
      requires a.ack.Some? ==>
        && a.sent && IsRequest(a.m) && a.ack.value == |trace| - 1 && |evs| > 0
        && AcceptedAt(sessionId, trace, |trace| - 1, a.m.req)
      requires a.sent ==> |Wire(a.m)| <= TX_BUF_SIZE
      ensures Addable(sessionId, clientKey, history, allocs, a, trace)
    {
      hide Wire, Acked, Unused, Accepts, CountRequests;
    }

    // ---- object indices (they wrap at 16 bits, as release arithmetic does) ----

    /** The latest index of this kind is not yet in any message. */
    ghost predicate Fresh(kind: byte)
      requires |allocs| == 7 && kind <= 6
      reads `history, `allocs
    {
      allocs[kind] >= 1 && Unused(history, kind, allocs[kind])
    }

    /** `idx` was drawn for `kind`; no other kind's counter moved. */
    ghost predicate Numbers(was: seq<nat>, kind: byte, idx: u16)
      requires |allocs| == 7 && |was| == 7 && kind <= 6
      reads `history, `allocs
    {
      && allocs == was[kind := was[kind] + 1]
      && idx == allocs[kind] % 0x1_0000
      && Fresh(kind)
    }

    /** Bumping one kind's count keeps every law. */
    ghost method CountAlloc(kind: byte)
      requires Past() && |allocs| == 7 && 1 <= kind <= 6
      modifies `allocs
      ensures Past() && |allocs| == 7 && allocs == old(allocs)[kind := old(allocs)[kind] + 1] && Fresh(kind)
    {
      hide Lawful, HandlesKnown, Unused;
      AllocKeepsLaws(sessionId, clientKey, history, allocs, kind, trace);
      allocs := allocs[kind := allocs[kind] + 1];
    }

    static lemma WrappingStep(n: nat)
      ensures (n % 0x1_0000 + 1) % 0x1_0000 == (n + 1) % 0x1_0000
    {
    }

    method AllocParticipant() returns (idx: u16)
      requires Sound()
      modifies `nextParticipantIdx, `allocs
      ensures Sound() && |allocs| == |old(allocs)| == 7 && Numbers(old(allocs), ENTITY_PARTICIPANT, idx)
    {
      hide Table, Counters, Past, Delivered, Unused;
      WrappingStep(allocs[ENTITY_PARTICIPANT] + 1);
      idx := nextParticipantIdx;
      nextParticipantIdx := (nextParticipantIdx + 1) % 0x1_0000;
      CountAlloc(ENTITY_PARTICIPANT);
    }

    method AllocTopic() returns (idx: u16)
      requires Sound()
      modifies `nextTopicIdx, `allocs
      ensures Sound() && |allocs| == |old(allocs)| == 7 && Numbers(old(allocs), ENTITY_TOPIC, idx)
    {
      hide Table, Counters, Past, Delivered, Unused;
      WrappingStep(allocs[ENTITY_TOPIC] + 1);
      idx := nextTopicIdx;
      nextTopicIdx := (nextTopicIdx + 1) % 0x1_0000;
      CountAlloc(ENTITY_TOPIC);
    }

    method AllocPublisher() returns (idx: u16)
      requires Sound()
      modifies `nextPublisherIdx, `allocs
      ensures Sound() && |allocs| == |old(allocs)| == 7 && Numbers(old(allocs), ENTITY_PUBLISHER, idx)
    {
      hide Table, Counters, Past, Delivered, Unused;
      WrappingStep(allocs[ENTITY_PUBLISHER] + 1);
      idx := nextPublisherIdx;
      nextPublisherIdx := (nextPublisherIdx + 1) % 0x1_0000;
      CountAlloc(ENTITY_PUBLISHER);
    }

    method AllocSubscriber() returns (idx: u16)
      requires Sound()
      modifies `nextSubscriberIdx, `allocs
      ensures Sound() && |allocs| == |old(allocs)| == 7 && Numbers(old(allocs), ENTITY_SUBSCRIBER, idx)
    {
      hide Table, Counters, Past, Delivered, Unused;
      WrappingStep(allocs[ENTITY_SUBSCRIBER] + 1);
      idx := nextSubscriberIdx;
      nextSubscriberIdx := (nextSubscriberIdx + 1) % 0x1_0000;
      CountAlloc(ENTITY_SUBSCRIBER);
    }

    method AllocDw() returns (idx: u16)
      requires Sound()
      modifies `nextDwIdx, `allocs
      ensures Sound() && |allocs| == |old(allocs)| == 7 && Numbers(old(allocs), ENTITY_DATAWRITER, idx)
    {
      hide Table, Counters, Past, Delivered, Unused;
      WrappingStep(allocs[ENTITY_DATAWRITER] + 1);
      idx := nextDwIdx;
      nextDwIdx := (nextDwIdx + 1) % 0x1_0000;
      CountAlloc(ENTITY_DATAWRITER);
    }

    method AllocDr() returns (idx: u16)
      requires Sound()
      modifies `nextDrIdx, `allocs
      ensures Sound() && |allocs| == |old(allocs)| == 7 && Numbers(old(allocs), ENTITY_DATAREADER, idx)
    {
      hide Table, Counters, Past, Delivered, Unused;
      WrappingStep(allocs[ENTITY_DATAREADER] + 1);
      idx := nextDrIdx;
      nextDrIdx := (nextDrIdx + 1) % 0x1_0000;
      CountAlloc(ENTITY_DATAREADER);
    }

    // ---- entity creation ----

    /** The header of the message about to be sent. */
    ghost function NextHdr(): Hdr
      reads `seqNo
    {
      SessionHdr(sessionId, clientKey, STREAM_BEST_EFFORT, seqNo)
    }

    /** The numbers of the next request; the counters are then ready for the message after it. */
    method DrawNumbers() returns (req: u16, seqDrawn: u16)
      requires Counters()
      modifies `seqNo, `reqId
      ensures req == old(reqId) == ReqAt(CountRequests(history)) && seqDrawn == old(seqNo) == |history| % 0x1_0000
      ensures seqNo == (|history| + 1) % 0x1_0000 && reqId == ReqAt(CountRequests(history) + 1) == NextReq(req)
    {
      hide CountRequests, ReqAt, NextReq;
      NextReqIsReqAt(CountRequests(history));
      req := NextReqId();
      seqDrawn := NextSeqNo();
    }

    /** A request that could not be encoded: its numbers are spent and nothing is sent. */
    ghost method RecordUnsent(m: AgentMsg, own: bool, serial: nat) returns (evs: Trace, a: Attempt)
      requires Pausing() && IsRequest(m)
      requires Addable(sessionId, clientKey, history, allocs, Attempt(m, own, serial, |trace|, false, None), trace)
      modifies `history
      ensures Pausing() && history == old(history) + [a] && CountRequests(history) == CountRequests(old(history)) + 1
      ensures a == Attempt(m, own, serial, |trace|, false, None) && trace == trace + evs && evs == []
    {
      hide Lawful, HandlesKnown, Indices, Synced, D.Run, Wire, F.Join, Sends, CountRequests, Addable;
      a, evs := Attempt(m, own, serial, |trace|, false, None), [];
      assert Sends(history) + [] == Sends(history) && trace + [] == trace;
      Record(a);
    }

    method CreateWithParentEntity(oid: u16, kind: byte, xml: Text, parent: u16, ghost own: bool)
      returns (r: Result<()>, ghost evs: Trace, ghost a: Attempt)
      requires Sound() && 2 <= kind <= 6 && Fresh(kind) && oid == ObjectId(allocs[kind] % 0x1_0000, kind)
      requires own ==> Acked(history, parent, ParentKind(kind))
      modifies `seqNo, `reqId, `history, `slots, `trace, transport`rx, transport`tx, transport`log, txBuf, rxBuf, owners
      ensures Sound() && |slots| == |old(slots)| && D.SameShape(old(slots), slots)
      ensures history == old(history) + [a] && trace == old(trace) + evs && D.NoJoins(evs)
      ensures a.m == CreateChild(old(NextHdr()), old(reqId), oid, kind, AsBytes(xml), parent)
      ensures a.own == own && a.at == |old(trace)| && (a.ack.Some? <==> r.Ok?)
      ensures transport.reliable && |xml| <= 320 ==> a.sent
      ensures F.Blamed(r, old(transport.log), transport.log)
      ensures Waited(sessionId, transport.reliable, a, old(transport.rx), transport.rx, r, evs)
      ensures reqId == NextReq(old(reqId))
      ensures r.Err? ==> r.error != TooManySubscriptions
    {
      hide Sound, Pausing, Table, Indices, Past, Delivered, Counters, Addable, Fresh, ObjectId, SessionHdr, Wire,
           WaitFor, Acked, AsBytes, CountRequests, ReqAt, NextReq, D.FramesOf, D.NoJoins, D.SameShape, F.Blamed,
           L.ChildBytes;
      SoundParts();
      ghost var serial := allocs[kind];
      var req, seqDrawn := DrawNumbers();
      ghost var m := CreateChild(old(NextHdr()), req, oid, kind, AsBytes(xml), parent);
      AttemptIsAddable(Attempt(m, own, serial, |trace|, false, None));
      WireLen(m);
      var n := EncodeCreateWithParent(txBuf, sessionId, seqDrawn, clientKey, req, oid, kind, AsBytes(xml), parent);
      if n.Err? {
        evs, a := RecordUnsent(m, own, serial);
        NothingHappened(slots, trace);
        F.NothingBlamed(transport.log);
        PartsSound();
        return Err(n.error), evs, a;
      }
      r, evs, a := SendAndWait(n.value, req, m, own, serial);
      PartsSound();
    }

    lemma SoundParts()
      requires Sound()
      ensures Pausing() && Counters() && Past() && Indices() && Table() && Buffers() && |allocs| == 7
      ensures transport.reliable ==> transport.tx == preface + F.Join(Sends(history))
    {
    }

    /** After one more request the counters drawn for the next message are right again. */
    lemma PartsSound()
      requires Pausing() && seqNo == |history| % 0x1_0000 && reqId == ReqAt(CountRequests(history))
      ensures Sound()
    {
    }

    lemma AttemptIsAddable(a: Attempt)
      requires Past() && a.at == |trace| && a.ack.None? && !a.sent && |allocs| == 7
      requires WellFormed(a.m)
      requires !a.m.CreateClient?
      requires a.m.hdr == SessionHdr(sessionId, clientKey, STREAM_BEST_EFFORT, |history| % 0x1_0000)
      requires IsRequest(a.m) ==> a.m.req == ReqAt(CountRequests(history))
      requires Needs(a.m).Some? && a.own ==> Acked(history, Needs(a.m).value.0, Needs(a.m).value.1)
      requires Creates(a.m) ==>
        && 1 <= KindMade(a.m) <= 6
        && Fresh(KindMade(a.m)) && a.serial == allocs[KindMade(a.m)]
        && a.m.oid == ObjectId(a.serial % 0x1_0000, KindMade(a.m))
      ensures Addable(sessionId, clientKey, history, allocs, a, trace)
    {
      hide Acked, Unused, Numbered, Grounded, Serial, Accepts, CountRequests, HandlesKnown, ObjectId;
    }

    method CreateParticipantEntity(idx: u16, xml: Text) returns (r: Result<()>, ghost evs: Trace, ghost a: Attempt)
      requires Sound() && Fresh(ENTITY_PARTICIPANT) && idx == allocs[ENTITY_PARTICIPANT] % 0x1_0000
      modifies `seqNo, `reqId, `history, `slots, `trace, transport`rx, transport`tx, transport`log, txBuf, rxBuf, owners
      ensures Sound() && |slots| == |old(slots)| && D.SameShape(old(slots), slots)
      ensures history == old(history) + [a] && trace == old(trace) + evs && D.NoJoins(evs)
      ensures a.m == CreateParticipant(old(NextHdr()), old(reqId), ObjectId(idx, ENTITY_PARTICIPANT), AsBytes(xml), 0)
      ensures a.own && a.at == |old(trace)| && (a.ack.Some? <==> r.Ok?)
      ensures transport.reliable && |xml| <= 320 ==> a.sent
      ensures F.Blamed(r, old(transport.log), transport.log)
      ensures Waited(sessionId, transport.reliable, a, old(transport.rx), transport.rx, r, evs)
      ensures reqId == NextReq(old(reqId))
      ensures r.Err? ==> r.error != TooManySubscriptions
    {
      hide Sound, Pausing, Table, Indices, Past, Delivered, Counters, Addable, Fresh, ObjectId, SessionHdr, Wire,
           WaitFor, Acked, AsBytes, CountRequests, ReqAt, NextReq, D.FramesOf, D.NoJoins, D.SameShape,
           ParticipantSafe, ParticipantStarts, F.Blamed, L.ParticipantBytes;
      SoundParts();
      var oid := ObjectId(idx, ENTITY_PARTICIPANT);
      ghost var serial := allocs[ENTITY_PARTICIPANT];
      var req, seqDrawn := DrawNumbers();
      ghost var m := CreateParticipant(old(NextHdr()), req, oid, AsBytes(xml), 0);
      AttemptIsAddable(Attempt(m, true, serial, |trace|, false, None));
      WireLen(m);
      ParticipantSafeExact(sessionId, |xml|, txBuf.Length);
      var n, _ := EncodeCreateParticipant(txBuf, sessionId, seqDrawn, clientKey, req, oid, AsBytes(xml), 0);
      if n.Err? {
        evs, a := RecordUnsent(m, true, serial);
        NothingHappened(slots, trace);
        F.NothingBlamed(transport.log);
        PartsSound();
        return Err(n.error), evs, a;
      }
      r, evs, a := SendAndWait(n.value, req, m, true, serial);
      PartsSound();
    }

    method SendReadData(drOid: u16) returns (r: Result<()>, ghost evs: Trace, ghost a: Attempt)
      requires Sound() && Acked(history, drOid, ENTITY_DATAREADER)
      modifies `seqNo, `reqId, `history, `slots, `trace, transport`rx, transport`tx, transport`log, txBuf, rxBuf, owners
      ensures Sound() && |slots| == |old(slots)| && D.SameShape(old(slots), slots)
      ensures history == old(history) + [a] && trace == old(trace) + evs && D.NoJoins(evs)
      ensures a.m == ReadData(old(NextHdr()), old(reqId), drOid)
      ensures a.own && a.at == |old(trace)| && (a.ack.Some? <==> r.Ok?)
      ensures transport.reliable ==> a.sent
      ensures F.Blamed(r, old(transport.log), transport.log)
      ensures Waited(sessionId, transport.reliable, a, old(transport.rx), transport.rx, r, evs)
      ensures reqId == NextReq(old(reqId))
      ensures r.Err? ==> r.error != TooManySubscriptions
    {
      hide Sound, Pausing, Table, Indices, Past, Delivered, Counters, Addable, Fresh, ObjectId, SessionHdr, Wire,
           WaitFor, Acked, AsBytes, CountRequests, ReqAt, NextReq, D.FramesOf, D.NoJoins, D.SameShape, F.Blamed,
           L.ReadBytes;
      SoundParts();
      var req, seqDrawn := DrawNumbers();
      ghost var m := ReadData(old(NextHdr()), req, drOid);
      AttemptIsAddable(Attempt(m, true, 0, |trace|, false, None));
      WireLen(m);
      var n := EncodeReadData(txBuf, sessionId, seqDrawn, clientKey, req, drOid);
      // At most 20 bytes: the encoder's error return is not reached with this buffer.
      r, evs, a := SendAndWait(n.value, req, m, true, 0);
      PartsSound();
    }

    // ---- the public API ----

    /** `idx` is the latest index of its kind and is not yet in any message. */
    ghost predicate Drawn(kind: byte, idx: u16)
      reads `history, `allocs
    {
      |allocs| == 7 && kind <= 6 && Fresh(kind) && idx == allocs[kind] % 0x1_0000
    }

    /** Messages that create other kinds of object leave it so. */
    lemma DrawnStays(kind: byte, idx: u16, was: History, a: Attempt)
      requires |allocs| == 7 && kind <= 6 && allocs[kind] >= 1 && idx == allocs[kind] % 0x1_0000
      requires Unused(was, kind, allocs[kind])
      requires history == was + [a] && (Creates(a.m) ==> KindMade(a.m) != kind)
      ensures Drawn(kind, idx)
    {
    }

    ghost method HandOutNode(n: Node)
      requires Sound() && NodeKnown(history, n)
      modifies `nodes
      ensures Sound() && nodes == old(nodes) + {n}
    {
      hide Table, Counters, Indices, Delivered, Lawful, NodeKnown, Acked;
      nodes := nodes + {n};
    }

    ghost method HandOutWriter(w: u16)
      requires Sound() && Acked(history, w, ENTITY_DATAWRITER)
      modifies `writers
      ensures Sound() && writers == old(writers) + {w}
    {
      hide Table, Counters, Indices, Delivered, Lawful, NodeKnown, Acked;
      writers := writers + {w};
    }

    method AllocNode() returns (participantIdx: u16, publisherIdx: u16, subscriberIdx: u16)
      requires Sound()
      modifies `nextParticipantIdx, `nextPublisherIdx, `nextSubscriberIdx, `allocs
      ensures Sound() && allocs == Bump(Bump(Bump(old(allocs), ENTITY_PARTICIPANT), ENTITY_PUBLISHER), ENTITY_SUBSCRIBER)
      ensures Drawn(ENTITY_PARTICIPANT, participantIdx)
      ensures Drawn(ENTITY_PUBLISHER, publisherIdx)
      ensures Drawn(ENTITY_SUBSCRIBER, subscriberIdx)
    {
      hide Table, Past, Delivered, Counters, Unused;
      participantIdx := AllocParticipant();
      publisherIdx := AllocPublisher();
      subscriberIdx := AllocSubscriber();
    }

    method CreatePublisherEntity(pubIdx: u16, participantIdx: u16)
      returns (r: Result<()>, ghost evs: Trace, ghost a: Attempt)
      requires Sound() && Drawn(ENTITY_PUBLISHER, pubIdx)
      requires Acked(history, ObjectId(participantIdx, ENTITY_PARTICIPANT), ENTITY_PARTICIPANT)
      modifies `seqNo, `reqId, `history, `slots, `trace, transport`rx, transport`tx, transport`log, txBuf, rxBuf, owners
      ensures Sound() && |slots| == |old(slots)| && D.SameShape(old(slots), slots)
      ensures history == old(history) + [a] && trace == old(trace) + evs && D.NoJoins(evs)
      ensures a.m == CreateChild(old(NextHdr()), old(reqId), ObjectId(pubIdx, ENTITY_PUBLISHER), ENTITY_PUBLISHER,
                                 AsBytes(PublisherXml()), ObjectId(participantIdx, ENTITY_PARTICIPANT))
      ensures a.own && (a.ack.Some? <==> r.Ok?) && (transport.reliable ==> a.sent)
      ensures F.Blamed(r, old(transport.log), transport.log)
      ensures Waited(sessionId, transport.reliable, a, old(transport.rx), transport.rx, r, evs)
      ensures reqId == NextReq(old(reqId))
    {
      hide Sound, ObjectId, Waited, NextReq, Acked, Unused, D.NoJoins, D.SameShape, PublisherXml, AsBytes;
      r, evs, a := CreateWithParentEntity(ObjectId(pubIdx, ENTITY_PUBLISHER), ENTITY_PUBLISHER, PublisherXml(),
                                          ObjectId(participantIdx, ENTITY_PARTICIPANT), true);
    }

    method CreateSubscriberEntity(subIdx: u16, participantIdx: u16)
      returns (r: Result<()>, ghost evs: Trace, ghost a: Attempt)
      requires Sound() && Drawn(ENTITY_SUBSCRIBER, subIdx)
      requires Acked(history, ObjectId(participantIdx, ENTITY_PARTICIPANT), ENTITY_PARTICIPANT)
      modifies `seqNo, `reqId, `history, `slots, `trace, transport`rx, transport`tx, transport`log, txBuf, rxBuf, owners
      ensures Sound() && |slots| == |old(slots)| && D.SameShape(old(slots), slots)
      ensures history == old(history) + [a] && trace == old(trace) + evs && D.NoJoins(evs)
      ensures a.m == CreateChild(old(NextHdr()), old(reqId), ObjectId(subIdx, ENTITY_SUBSCRIBER), ENTITY_SUBSCRIBER,
                                 AsBytes(SubscriberXml()), ObjectId(participantIdx, ENTITY_PARTICIPANT))
      ensures a.own && (a.ack.Some? <==> r.Ok?) && (transport.reliable ==> a.sent)
      ensures F.Blamed(r, old(transport.log), transport.log)
      ensures Waited(sessionId, transport.reliable, a, old(transport.rx), transport.rx, r, evs)
      ensures reqId == NextReq(old(reqId))
    {
      hide Sound, ObjectId, Waited, NextReq, Acked, Unused, D.NoJoins, D.SameShape, SubscriberXml, AsBytes;
      r, evs, a := CreateWithParentEntity(ObjectId(subIdx, ENTITY_SUBSCRIBER), ENTITY_SUBSCRIBER, SubscriberXml(),
                                          ObjectId(participantIdx, ENTITY_PARTICIPANT), true);
    }

    /** Publisher and subscriber under an acknowledged participant: the last two requests of `whole`. */
    method CreateNodeChildren(node: Node, ghost whole: Turns, ghost done: Trace, ghost made: nat)
      returns (r: Result<()>, ghost evs: Trace)
      requires Sound() && Drawn(ENTITY_PUBLISHER, node.publisherIdx) && Drawn(ENTITY_SUBSCRIBER, node.subscriberIdx)
      requires Acked(history, ObjectId(node.participantIdx, ENTITY_PARTICIPANT), ENTITY_PARTICIPANT)
      requires transport.reliable ==> InTurn(sessionId, whole, D.FramesOf(done), made, reqId, transport.rx, 2)
      modifies `seqNo, `reqId, `history, `slots, `trace, transport`rx, transport`tx, transport`log, txBuf, rxBuf, owners
      ensures Sound() && |slots| == |old(slots)| && D.SameShape(old(slots), slots)
      ensures old(history) <= history && trace == old(trace) + evs && D.NoJoins(evs)
      ensures transport.reliable ==>
        whole == Turns(WaitEnd(r, transport.rx, D.FramesOf(done + evs)), made + |history| - |old(history)|)
      ensures ChildrenAsked(history[|old(history)|..], node)
      ensures Answered(history[|old(history)|..], 2, r.Ok?, transport.reliable)
      ensures F.Blamed(r, old(transport.log), transport.log)
      ensures r.Ok? ==> NodeKnown(history, node)
    {
      hide Sound, ObjectId, Waited, WaitInTurn, InTurn, NextReq, D.FramesOf, Acked, Unused, D.NoJoins, D.SameShape,
           Answered, PublisherXml, SubscriberXml, AsBytes;
      var participant := ObjectId(node.participantIdx, ENTITY_PARTICIPANT);
      var publisher := ObjectId(node.publisherIdx, ENTITY_PUBLISHER);
      var subscriber := ObjectId(node.subscriberIdx, ENTITY_SUBSCRIBER);
      ghost var was, h0, rx0 := slots, history, transport.rx;
      var q, e0, a0 := CreatePublisherEntity(node.publisherIdx, node.participantIdx);
      OneMoreRequest(sessionId, transport.reliable, whole, done, made, 2, a0, rx0, transport.rx, q, e0);
      assert history[|h0|..] == [a0];
      if q.Err? {
        AnsweredAlone(a0, 2, false, transport.reliable);
        return q, e0;
      }
      DrawnStays(ENTITY_SUBSCRIBER, node.subscriberIdx, h0, a0);
      AskedIsAcked(h0, a0, publisher, ENTITY_PUBLISHER, PublisherXml(), participant, true);
      AckedStays(h0, [a0], participant, ENTITY_PARTICIPANT);

      ghost var h1, slots1, rx1 := history, slots, transport.rx;
      var s, e1, a1 := CreateSubscriberEntity(node.subscriberIdx, node.participantIdx);
      Chain(was, slots1, slots, e0, e1);
      OneMoreRequest(sessionId, transport.reliable, whole, done + e0, made + 1, 1, a1, rx1, transport.rx, s, e1);
      evs := e0 + e1;
      assert done + e0 + e1 == done + evs;
      assert history[|h1|..] == [a1];
      AnsweredAlone(a1, 1, s.Ok?, transport.reliable);
      AnsweredFirst(h0, a0, history, 1, s.Ok?, transport.reliable);
      if s.Err? {
        return s, evs;
      }
      AskedIsAcked(h1, a1, subscriber, ENTITY_SUBSCRIBER, SubscriberXml(), participant, true);
      AckedStays(h1, [a1], participant, ENTITY_PARTICIPANT);
      AckedStays(h1, [a1], publisher, ENTITY_PUBLISHER);
      if transport.reliable {
        NoRequestsLeft(sessionId, whole, done + evs, made + 2, reqId, transport.rx);
      }
      return Ok(()), evs;
    }

    /** The id of the object of this kind that was numbered last. */
    ghost function LatestId(kind: byte): u16
      requires |allocs| == 7 && kind <= 6
      reads `allocs
    {
      ObjectId(allocs[kind] % 0x1_0000, kind)
    }

    /** The node whose entities were numbered last. */
    ghost function LatestNode(): Node
      requires |allocs| == 7
      reads `allocs
    {
      Node(allocs[ENTITY_PARTICIPANT] % 0x1_0000, allocs[ENTITY_PUBLISHER] % 0x1_0000, allocs[ENTITY_SUBSCRIBER] % 0x1_0000)
    }

    /** Participant, publisher and subscriber: the three requests of a node. */
    method RequestNode(name: Text) returns (r: Result<Node>, ghost evs: Trace)
      requires Sound()
      modifies `nextParticipantIdx, `nextPublisherIdx, `nextSubscriberIdx, `allocs
      modifies `seqNo, `reqId, `history, `slots, `trace, transport`rx, transport`tx, transport`log, txBuf, rxBuf, owners
      ensures Sound() && |slots| == |old(slots)| && D.SameShape(old(slots), slots)
      ensures allocs == Bump(Bump(Bump(old(allocs), ENTITY_PARTICIPANT), ENTITY_PUBLISHER), ENTITY_SUBSCRIBER)
      ensures |allocs| == 7 && (r.Ok? ==> r.value == LatestNode())
      ensures old(history) <= history && trace == old(trace) + evs && D.NoJoins(evs)
      ensures NodeAsked(history[|old(history)|..], LatestNode(), name)
      ensures Answered(history[|old(history)|..], 3, r.Ok?, transport.reliable)
      ensures F.Blamed(r, old(transport.log), transport.log)
      ensures transport.reliable ==>
        TurnsFor(sessionId, old(reqId), old(transport.rx), 3)
          == Turns(WaitEnd(Done(r), transport.rx, D.FramesOf(evs)), |history| - |old(history)|)
      ensures r.Ok? ==> NodeKnown(history, r.value)
    {
      hide Sound, ObjectId, Waited, WaitInTurn, RequestsMade, InTurn, NextReq, D.FramesOf, Acked, Unused, D.NoJoins,
           D.SameShape, Answered, Bump, NodeXml, ChildrenAsked, NodeKnown, AsBytes;
      SevenKinds();
      ghost var h0, was := history, slots;
      ghost var whole := TurnsFor(sessionId, reqId, transport.rx, 3);
      RequestsBegin(sessionId, reqId, transport.rx, 3);
      var participantIdx, publisherIdx, subscriberIdx := AllocNode();
      var participant := ObjectId(participantIdx, ENTITY_PARTICIPANT);
      var p, e0, a0 := CreateParticipantEntity(participantIdx, NodeXml(name));
      OneMoreRequest(sessionId, transport.reliable, whole, [], 0, 3, a0, old(transport.rx), transport.rx, p, e0);
      assert [] + e0 == e0;
      evs := e0;
      if p.Err? {
        assert history[|h0|..] == [a0];
        AnsweredAlone(a0, 3, false, transport.reliable);
        NothingMoreAsked(a0, LatestNode(), name);
        return Err(p.error), evs;
      }
      DrawnStays(ENTITY_PUBLISHER, publisherIdx, h0, a0);
      DrawnStays(ENTITY_SUBSCRIBER, subscriberIdx, h0, a0);
      AskedIsAcked(h0, a0, participant, ENTITY_PARTICIPANT, NodeXml(name), 0, true);

      ghost var slots1 := slots;
      var node := Node(participantIdx, publisherIdx, subscriberIdx);
      var q, e1 := CreateNodeChildren(node, whole, e0, 1);
      Chain(was, slots1, slots, e0, e1);
      evs := e0 + e1;
      AnsweredFirst(h0, a0, history, 2, q.Ok?, transport.reliable);
      DoneOfUnit(q, node);
      if q.Err? {
        return Err(q.error), evs;
      }
      return Ok(node), evs;
    }

    /**
     * A node: participant, publisher and subscriber, each under the first. Whatever becomes of
     * the call, one index of each of the three kinds is spent.
     */
    method CreateNode(name: Text) returns (r: Result<Node>, ghost evs: Trace)
      requires Valid()
      modifies `nextParticipantIdx, `nextPublisherIdx, `nextSubscriberIdx, `allocs, `nodes, `calls
      modifies `seqNo, `reqId, `history, `slots, `trace, transport`rx, transport`tx, transport`log, txBuf, rxBuf, owners
      ensures Valid() && calls == old(calls) + 1 && |slots| == |old(slots)| && D.SameShape(old(slots), slots)
      ensures allocs == Bump(Bump(Bump(old(allocs), ENTITY_PARTICIPANT), ENTITY_PUBLISHER), ENTITY_SUBSCRIBER)
      ensures |allocs| == 7 && (r.Ok? ==> r.value == LatestNode())
      ensures nodes == if r.Ok? then old(nodes) + {r.value} else old(nodes)
      ensures old(history) <= history && trace == old(trace) + evs && D.NoJoins(evs)
      ensures NodeAsked(history[|old(history)|..], LatestNode(), name)
      ensures Answered(history[|old(history)|..], 3, r.Ok?, transport.reliable)
      ensures F.Blamed(r, old(transport.log), transport.log)
      ensures transport.reliable ==>
        TurnsFor(sessionId, old(reqId), old(transport.rx), 3)
          == Turns(WaitEnd(Done(r), transport.rx, D.FramesOf(evs)), |history| - |old(history)|)
    {
      hide Sound, Paced, TurnsFor, D.FramesOf, D.NoJoins, D.SameShape, Answered, AllSent, Bump, NodeAsked, NodeKnown;
      SevenKinds();
      BumpsByOne(allocs, ENTITY_PARTICIPANT, ENTITY_PUBLISHER, ENTITY_SUBSCRIBER);
      ghost var h0, allocs0 := history, allocs;
      calls := calls + 1;
      r, evs := RequestNode(name);
      CallOver(h0, allocs0, 3, r.Ok?);
      if r.Ok? {
        HandOutNode(r.value);
      }
    }

    lemma SevenKinds()
      requires Sound()
      ensures |allocs| == 7
    {
    }

    /** After a call that numbered and sent no more than any call does, all invariants hold again. */
    lemma CallOver(h: History, was: seq<nat>, n: nat, ok: bool)
      requires Sound() && calls > 0 && Paced(h, was, calls - 1) && h <= history && n <= 3
      requires |allocs| == |was| == 7 && forall kind :: 0 <= kind < 7 ==> allocs[kind] <= was[kind] + 1
      requires history != h ==> Answered(history[|h|..], n, ok, transport.reliable)
      requires transport.reliable ==> AllSent(h)
      ensures Valid()
    {
      hide Sound, Paced;
      PacedByCall(h, was, calls - 1, history, allocs, transport.reliable);
    }

    lemma HandedOutNode(node: Node)
      requires Sound()
      ensures node in nodes ==> NodeKnown(history, node)
    {
    }

    /** The topic that every publisher and subscription starts with. */
    method CreateTopic(node: Node, ddsTopic: Text, typeName: Text, ghost own: bool)
      returns (r: Result<u16>, ghost evs: Trace, ghost a: Attempt)
      requires Sound() && (own ==> NodeKnown(history, node))
      modifies `nextTopicIdx, `allocs
      modifies `seqNo, `reqId, `history, `slots, `trace, transport`rx, transport`tx, transport`log, txBuf, rxBuf, owners
      ensures Sound() && |slots| == |old(slots)| && D.SameShape(old(slots), slots) && (own ==> NodeKnown(history, node))
      ensures history == old(history) + [a] && trace == old(trace) + evs && D.NoJoins(evs)
      ensures |allocs| == 7 && allocs == Bump(old(allocs), ENTITY_TOPIC)
      ensures TopicAsked(a, node, ddsTopic, typeName, LatestId(ENTITY_TOPIC), own)
      ensures IsRequest(a.m) && a.m.req == old(reqId) && reqId == NextReq(old(reqId))
      ensures (a.ack.Some? <==> r.Ok?) && (transport.reliable ==> a.sent)
      ensures F.Blamed(r, old(transport.log), transport.log)
      ensures Waited(sessionId, transport.reliable, a, old(transport.rx), transport.rx, Done(r), evs)
      ensures r.Err? ==> r.error != TooManySubscriptions
    {
      hide Sound, ObjectId, Waited, NextReq, Acked, Unused, D.NoJoins, D.SameShape, TopicXml, AsBytes;
      ghost var h0 := history;
      var topicIdx := AllocTopic();
      var topicOid := ObjectId(topicIdx, ENTITY_TOPIC);
      var participant := ObjectId(node.participantIdx, ENTITY_PARTICIPANT);
      var t;
      t, evs, a := CreateWithParentEntity(topicOid, ENTITY_TOPIC, TopicXml(ddsTopic, typeName), participant, own);
      if own {
        NodeStaysKnown(h0, a, node);
      }
      DoneOfUnit(t, topicOid);
      r := if t.Ok? then Ok(topicOid) else Err(t.error);
    }

    static lemma NodeStaysKnown(h: History, a: Attempt, node: Node)
      requires NodeKnown(h, node)
      ensures NodeKnown(h + [a], node)
    {
      hide Acked, ObjectId;
      AckedStays(h, [a], ObjectId(node.participantIdx, ENTITY_PARTICIPANT), ENTITY_PARTICIPANT);
      AckedStays(h, [a], ObjectId(node.publisherIdx, ENTITY_PUBLISHER), ENTITY_PUBLISHER);
      AckedStays(h, [a], ObjectId(node.subscriberIdx, ENTITY_SUBSCRIBER), ENTITY_SUBSCRIBER);
    }

    /** The writer under the node's publisher: the last request of `whole`. */
    method CreateWriter(node: Node, ddsTopic: Text, typeName: Text, ghost own: bool, ghost whole: Turns, ghost done: Trace,
                        ghost made: nat)
      returns (r: Result<u16>, ghost evs: Trace, ghost a: Attempt)
      requires Sound() && (own ==> NodeKnown(history, node))
      requires transport.reliable ==> InTurn(sessionId, whole, D.FramesOf(done), made, reqId, transport.rx, 1)
      modifies `nextDwIdx, `allocs
      modifies `seqNo, `reqId, `history, `slots, `trace, transport`rx, transport`tx, transport`log, txBuf, rxBuf, owners
      ensures Sound() && |slots| == |old(slots)| && D.SameShape(old(slots), slots)
      ensures history == old(history) + [a] && trace == old(trace) + evs && D.NoJoins(evs)
      ensures |allocs| == 7 && allocs == Bump(old(allocs), ENTITY_DATAWRITER)
      ensures WriterAsked(a, node, ddsTopic, typeName, LatestId(ENTITY_DATAWRITER), own)
      ensures (a.ack.Some? <==> r.Ok?) && (transport.reliable ==> a.sent)
      ensures F.Blamed(r, old(transport.log), transport.log)
      ensures transport.reliable ==> whole == Turns(WaitEnd(Done(r), transport.rx, D.FramesOf(done + evs)), made + 1)
      ensures r.Ok? ==> r.value == LatestId(ENTITY_DATAWRITER) && Acked(history, r.value, ENTITY_DATAWRITER)
    {
      hide Sound, ObjectId, Waited, WaitInTurn, InTurn, NextReq, D.FramesOf, Acked, Unused, D.NoJoins, D.SameShape,
           WriterXml, AsBytes;
      ghost var h0, rx0 := history, transport.rx;
      var dwIdx := AllocDw();
      var dwOid := ObjectId(dwIdx, ENTITY_DATAWRITER);
      var publisher := ObjectId(node.publisherIdx, ENTITY_PUBLISHER);
      var d;
      d, evs, a := CreateWithParentEntity(dwOid, ENTITY_DATAWRITER, WriterXml(ddsTopic, typeName), publisher, own);
      OneMoreRequest(sessionId, transport.reliable, whole, done, made, 1, a, rx0, transport.rx, d, evs);
      DoneOfUnit(d, dwOid);
      if d.Err? {
        return Err(d.error), evs, a;
      }
      AskedIsAcked(h0, a, dwOid, ENTITY_DATAWRITER, WriterXml(ddsTopic, typeName), publisher, own);
      if transport.reliable {
        NoRequestsLeft(sessionId, whole, done + evs, made + 1, reqId, transport.rx);
      }
      return Ok(dwOid), evs, a;
    }

    /** Topic and writer: the two requests of a publisher. */
    method RequestPublisher(node: Node, ddsTopic: Text, typeName: Text, ghost own: bool)
      returns (r: Result<u16>, ghost evs: Trace)
      requires Sound() && (own ==> NodeKnown(history, node))
      modifies `nextTopicIdx, `nextDwIdx, `allocs
      modifies `seqNo, `reqId, `history, `slots, `trace, transport`rx, transport`tx, transport`log, txBuf, rxBuf, owners
      ensures Sound() && |slots| == |old(slots)| && D.SameShape(old(slots), slots) && |allocs| == 7
      ensures old(history) <= history && trace == old(trace) + evs && D.NoJoins(evs)
      ensures
        var h := history[|old(history)|..];
        && Answered(h, 2, r.Ok?, transport.reliable)
        && PublisherAsked(h, node, ddsTopic, typeName, LatestId(ENTITY_TOPIC), LatestId(ENTITY_DATAWRITER), own)
        && allocs == if |h| == 1 then Bump(old(allocs), ENTITY_TOPIC)
                     else Bump(Bump(old(allocs), ENTITY_TOPIC), ENTITY_DATAWRITER)
      ensures transport.reliable ==>
        TurnsFor(sessionId, old(reqId), old(transport.rx), 2)
          == Turns(WaitEnd(Done(r), transport.rx, D.FramesOf(evs)), |history| - |old(history)|)
      ensures F.Blamed(r, old(transport.log), transport.log)
      ensures r.Ok? ==> r.value == LatestId(ENTITY_DATAWRITER) && Acked(history, r.value, ENTITY_DATAWRITER)
    {
      hide Sound, ObjectId, Waited, WaitInTurn, RequestsMade, InTurn, NextReq, D.FramesOf, Acked, Unused, D.NoJoins,
           D.SameShape, Answered, TopicAsked, WriterAsked, NodeKnown;
      SevenKinds();
      ghost var h0, was := history, slots;
      ghost var whole := TurnsFor(sessionId, reqId, transport.rx, 2);
      RequestsBegin(sessionId, reqId, transport.rx, 2);
      var t, e0, a0 := CreateTopic(node, ddsTopic, typeName, own);
      OneMoreRequest(sessionId, transport.reliable, whole, [], 0, 2, a0, old(transport.rx), transport.rx, Done(t), e0);
      assert [] + e0 == e0;
      evs := e0;
      assert history[|h0|..] == [a0];
      if t.Err? {
        AnsweredAlone(a0, 2, false, transport.reliable);
        return Err(t.error), evs;
      }
      ghost var h1, slots1 := history, slots;
      var d, e1, a1 := CreateWriter(node, ddsTopic, typeName, own, whole, e0, 1);
      Chain(was, slots1, slots, e0, e1);
      assert history[|h1|..] == [a1];
      AnsweredAlone(a1, 1, d.Ok?, transport.reliable);
      AnsweredFirst(h0, a0, history, 1, d.Ok?, transport.reliable);
      return d, e0 + e1;
    }

    /**
     * A typed publisher: a fresh topic, then a writer under the node's publisher. A topic index
     * is spent unless the name is too long, a writer index once the topic is acknowledged. A node
     * of another session is taken as it is; the messages on record then say so.
     */
    method CreatePublisher(node: Node, topic: Text, typeName: Text)
      returns (r: Result<Publisher>, ghost evs: Trace)
      requires Valid()
      modifies `nextTopicIdx, `nextDwIdx, `allocs, `writers, `calls
      modifies `seqNo, `reqId, `history, `slots, `trace, transport`rx, transport`tx, transport`log, txBuf, rxBuf, owners
      ensures Valid() && calls == old(calls) + 1 && |slots| == |old(slots)| && D.SameShape(old(slots), slots)
      ensures old(history) <= history && trace == old(trace) + evs && D.NoJoins(evs)
      ensures |allocs| == 7 && (r.Ok? ==> r.value.dwId == LatestId(ENTITY_DATAWRITER))
      ensures F.Blamed(r, old(transport.log), transport.log)
      ensures writers == if r.Ok? then old(writers) + {r.value.dwId} else old(writers)
      ensures Ros2TopicName(topic).Err? ==>
        r == Err(BufferTooSmall) && history == old(history) && allocs == old(allocs) && evs == []
      ensures Ros2TopicName(topic).Ok? ==>
        var h := history[|old(history)|..];
        && Answered(h, 2, r.Ok?, transport.reliable)
        && PublisherAsked(h, node, Ros2TopicName(topic).value, typeName, LatestId(ENTITY_TOPIC), LatestId(ENTITY_DATAWRITER),
                          node in old(nodes))
        && allocs == if |h| == 1 then Bump(old(allocs), ENTITY_TOPIC)
                     else Bump(Bump(old(allocs), ENTITY_TOPIC), ENTITY_DATAWRITER)
      ensures transport.reliable && Ros2TopicName(topic).Ok? ==>
        TurnsFor(sessionId, old(reqId), old(transport.rx), 2)
          == Turns(WaitEnd(Done(r), transport.rx, D.FramesOf(evs)), |history| - |old(history)|)
    {
      hide Sound, Paced, ObjectId, Waited, WaitInTurn, RequestsMade, InTurn, NextReq, D.FramesOf, Acked, Unused,
           D.NoJoins, D.SameShape, Answered, AllSent, Ros2TopicName, TopicAsked, WriterAsked, NodeKnown;
      SevenKinds();
      NothingHappened(slots, trace);
      ghost var h0, allocs0 := history, allocs;
      calls := calls + 1;
      evs := [];
      var ddsTopic := Ros2TopicName(topic);
      if ddsTopic.Err? {
        CallOver(h0, allocs0, 2, false);
        return Err(ddsTopic.error), evs;
      }
      HandedOutNode(node);
      var d;
      d, evs := RequestPublisher(node, ddsTopic.value, typeName, node in nodes);
      CallOver(h0, allocs0, 2, d.Ok?);
      if d.Err? {
        return Err(d.error), evs;
      }
      HandOutWriter(d.value);
      return Ok(Publisher(d.value)), evs;
    }

    /** The id of the reader numbered last, which no registered slot has. */
    ghost predicate LatestReader(drOid: u16)
      reads `allocs, `readerSerials
    {
      && |allocs| == 7 && allocs[ENTITY_DATAREADER] >= 1
      && drOid == ObjectId(allocs[ENTITY_DATAREADER] % 0x1_0000, ENTITY_DATAREADER)
      && forall i :: 0 <= i < |readerSerials| ==> readerSerials[i] < allocs[ENTITY_DATAREADER]
    }

    /** The event by which a slot enters the table, for the first time or once more. */
    ghost function Registration(slot: Subscription, drOid: u16): D.Event
      reads `owners, slot
    {
      if slot in owners then D.Rejoin(OwnerOf(slot), drOid) else D.Join(slot.State().(id := drOid))
    }

    /**
     * `set_dr_id` and the push into the dispatch table, which has room. A slot that is in the
     * table already is there twice from then on, under its new id only.
     */
    method Register(slot: Subscription, drOid: u16)
      requires Sound() && |subscriptions| < MAX_SUBSCRIPTIONS
      requires Acked(history, drOid, ENTITY_DATAREADER)
      requires LatestReader(drOid)
      modifies `subscriptions, `owners, `slots, `trace, `readerSerials, slot`drId
      ensures Sound()
      ensures subscriptions == old(subscriptions) + [slot]
      ensures owners == if slot in old(owners) then old(owners) else old(owners) + [slot]
      ensures slot.State() == old(slot.State()).(id := drOid)
      ensures trace == old(trace) + [old(Registration(slot, drOid))]
    {
      hide Sound, Buffers, Indices, Delivered, Lawful, HandlesKnown, ReadersNumbered, D.Run, Acked, OwnersOf,
           LatestReader, CountRequests, ReqAt;
      SoundParts();
      RegisteredOnce();
      slot.SetDrId(drOid);
      subscriptions := subscriptions + [slot];
      assert subscriptions[..|subscriptions| - 1] == old(subscriptions);
      Enroll(slot, drOid);
      PartsSound();
    }

    /** Records that `slot`, pushed last, has entered the table under its new id. */
    ghost method Enroll(slot: Subscription, drOid: u16)
      requires 0 < |subscriptions| <= MAX_SUBSCRIPTIONS && slot.drId == drOid
      requires slot == subscriptions[|subscriptions| - 1] && OwnersOf(subscriptions[..|subscriptions| - 1], owners)
      requires |owners| == |slots| && slots == D.Run(sessionId, [], trace)
      requires forall i :: 0 <= i < |owners| ==>
        owners[i].State() == if owners[i] == slot then slots[i].(id := drOid) else slots[i]
      requires Lawful(sessionId, clientKey, history, allocs, trace) && HandlesKnown(history, nodes, writers, slots)
      requires ReadersNumbered(slots, readerSerials, allocs, |slots| == |subscriptions| - 1) && LatestReader(drOid)
      requires Acked(history, drOid, ENTITY_DATAREADER)
      modifies `owners, `slots, `trace, `readerSerials
      ensures Table() && Past() && trace == old(trace) + [old(Registration(slot, drOid))]
      ensures owners == if slot in old(owners) then old(owners) else old(owners) + [slot]
    {
      hide Lawful, HandlesKnown, ReadersNumbered, D.Run, D.Step, Acked, OwnersOf, LatestReader;
      var e, j := Registration(slot, drOid), OwnerOf(slot);
      D.RunSnoc(sessionId, [], trace, e);
      D.RegistrationSteps(sessionId, slots, slot.State(), j, drOid);
      TraceGrows(sessionId, clientKey, history, allocs, trace, [e]);
      OwnersOfSnoc(subscriptions[..|subscriptions| - 1], owners, slot);
      assert subscriptions[..|subscriptions| - 1] + [slot] == subscriptions;
      KnownIfRegistered(slots, j, slot.State(), drOid);
      NumberedIfRegistered(j, slot.State(), drOid);
      var serial := allocs[ENTITY_DATAREADER];
      if slot in owners {
        assert owners[j].State() == slots[j].(id := drOid);
        trace, slots, readerSerials := trace + [e], slots[j := slot.State()], readerSerials[j := serial];
      } else {
        trace, owners, slots, readerSerials :=
          trace + [e], owners + [slot], slots + [slot.State()], readerSerials + [serial];
      }
    }

    lemma RegisteredOnce()
      requires Sound()
      ensures OwnersOf(subscriptions, owners) && |owners| == |slots| && slots == D.Run(sessionId, [], trace)
      ensures forall i :: 0 <= i < |owners| ==> owners[i].State() == slots[i]
      ensures Lawful(sessionId, clientKey, history, allocs, trace) && HandlesKnown(history, nodes, writers, slots)
      ensures ReadersNumbered(slots, readerSerials, allocs, |slots| == |subscriptions|)
    {
      hide OwnersOf, D.Run, Lawful, HandlesKnown, ReadersNumbered, Counters, Indices, Delivered;
    }

    /** Whether the slot is new or there already, the reader it gets is an acknowledged one. */
    lemma KnownIfRegistered(table: seq<D.Slot>, j: nat, s: D.Slot, drOid: u16)
      requires HandlesKnown(history, nodes, writers, table) && Acked(history, drOid, ENTITY_DATAREADER)
      ensures HandlesKnown(history, nodes, writers, table + [s.(id := drOid)])
      ensures j < |table| ==> HandlesKnown(history, nodes, writers, table[j := table[j].(id := drOid)])
    {
      hide Acked, NodeKnown;
    }

    lemma NumberedIfRegistered(j: nat, s: D.Slot, drOid: u16)
      requires ReadersNumbered(slots, readerSerials, allocs, |slots| == |subscriptions| - 1) && LatestReader(drOid)
      ensures |readerSerials| == |slots| && |allocs| == 7
      ensures ReadersNumbered(slots + [s.(id := drOid)], readerSerials + [allocs[ENTITY_DATAREADER]], allocs,
                              |slots| + 1 == |subscriptions|)
      ensures j < |slots| && |slots| < |subscriptions| ==>
        ReadersNumbered(slots[j := slots[j].(id := drOid)], readerSerials[j := allocs[ENTITY_DATAREADER]], allocs, false)
    {
      hide ObjectId;
    }

    lemma ReaderSerialsBounded()
      requires Sound()
      ensures |allocs| == 7 && |readerSerials| == |slots| <= |subscriptions| <= MAX_SUBSCRIPTIONS
      ensures forall i :: 0 <= i < |readerSerials| ==> readerSerials[i] <= allocs[ENTITY_DATAREADER]
    {
      hide Lawful, HandlesKnown, ObjectId;
    }

    /** The reader under the node's subscriber, then READ_DATA for it: the last two requests of `whole`. */
    method CreateReader(node: Node, ddsTopic: Text, typeName: Text, ghost own: bool, ghost whole: Turns, ghost done: Trace,
                        ghost made: nat)
      returns (r: Result<u16>, ghost evs: Trace)
      requires Sound() && (own ==> NodeKnown(history, node))
      requires transport.reliable ==> InTurn(sessionId, whole, D.FramesOf(done), made, reqId, transport.rx, 2)
      modifies `nextDrIdx, `allocs
      modifies `seqNo, `reqId, `history, `slots, `trace, transport`rx, transport`tx, transport`log, txBuf, rxBuf, owners
      ensures Sound() && |slots| == |old(slots)| && D.SameShape(old(slots), slots)
      ensures old(history) <= history && trace == old(trace) + evs && D.NoJoins(evs)
      ensures |allocs| == 7 && allocs == Bump(old(allocs), ENTITY_DATAREADER)
      ensures transport.reliable ==>
        whole == Turns(WaitEnd(Done(r), transport.rx, D.FramesOf(done + evs)), made + |history| - |old(history)|)
      ensures r.Err? ==> r.error != TooManySubscriptions
      ensures ReaderAsked(history[|old(history)|..], node, ddsTopic, typeName, LatestId(ENTITY_DATAREADER), own)
      ensures Answered(history[|old(history)|..], 2, r.Ok?, transport.reliable)
      ensures F.Blamed(r, old(transport.log), transport.log)
      ensures r.Ok? ==> Acked(history, r.value, ENTITY_DATAREADER) && LatestReader(r.value)
    {
      hide Sound, ObjectId, Waited, WaitInTurn, InTurn, NextReq, D.FramesOf, Acked, Unused, D.NoJoins, D.SameShape,
           Answered, ReaderXml, AsBytes;
      ReaderSerialsBounded();
      var drIdx := AllocDr();
      var drOid := ObjectId(drIdx, ENTITY_DATAREADER);
      var subscriber := ObjectId(node.subscriberIdx, ENTITY_SUBSCRIBER);
      ghost var was, h0, rx0 := slots, history, transport.rx;
      var d, e0, a0 := CreateWithParentEntity(drOid, ENTITY_DATAREADER, ReaderXml(ddsTopic, typeName), subscriber, own);
      OneMoreRequest(sessionId, transport.reliable, whole, done, made, 2, a0, rx0, transport.rx, d, e0);
      evs := e0;
      assert history[|h0|..] == [a0];
      if d.Err? {
        AnsweredAlone(a0, 2, false, transport.reliable);
        return Err(d.error), evs;
      }
      AskedIsAcked(h0, a0, drOid, ENTITY_DATAREADER, ReaderXml(ddsTopic, typeName), subscriber, own);
      ghost var h1, slots1, rx1 := history, slots, transport.rx;
      var rd, e1, a1 := SendReadData(drOid);
      Chain(was, slots1, slots, e0, e1);
      OneMoreRequest(sessionId, transport.reliable, whole, done + e0, made + 1, 1, a1, rx1, transport.rx, rd, e1);
      evs := e0 + e1;
      assert done + e0 + e1 == done + evs;
      assert history[|h1|..] == [a1];
      AnsweredAlone(a1, 1, rd.Ok?, transport.reliable);
      AnsweredFirst(h0, a0, history, 1, rd.Ok?, transport.reliable);
      DoneOfUnit(rd, drOid);
      if rd.Err? {
        return Err(rd.error), evs;
      }
      AckedStays(h1, [a1], drOid, ENTITY_DATAREADER);
      if transport.reliable {
        NoRequestsLeft(sessionId, whole, done + evs, made + 2, reqId, transport.rx);
      }
      return Ok(drOid), evs;
    }

    /** Topic, reader and READ_DATA: the three requests of a subscription. */
    method RequestSubscription(node: Node, ddsTopic: Text, typeName: Text, ghost own: bool)
      returns (r: Result<u16>, ghost evs: Trace)
      requires Sound() && (own ==> NodeKnown(history, node))
      modifies `nextTopicIdx, `nextDrIdx, `allocs
      modifies `seqNo, `reqId, `history, `slots, `trace, transport`rx, transport`tx, transport`log, txBuf, rxBuf, owners
      ensures Sound() && |slots| == |old(slots)| && D.SameShape(old(slots), slots) && |allocs| == 7
      ensures old(history) <= history && trace == old(trace) + evs && D.NoJoins(evs)
      ensures
        var h := history[|old(history)|..];
        && Answered(h, 3, r.Ok?, transport.reliable)
        && SubscriptionAsked(h, node, ddsTopic, typeName, LatestId(ENTITY_TOPIC), LatestId(ENTITY_DATAREADER), own)
        && allocs == if |h| == 1 then Bump(old(allocs), ENTITY_TOPIC)
                     else Bump(Bump(old(allocs), ENTITY_TOPIC), ENTITY_DATAREADER)
      ensures transport.reliable ==>
        TurnsFor(sessionId, old(reqId), old(transport.rx), 3)
          == Turns(WaitEnd(Done(r), transport.rx, D.FramesOf(evs)), |history| - |old(history)|)
      ensures r.Err? ==> r.error != TooManySubscriptions
      ensures F.Blamed(r, old(transport.log), transport.log)
      ensures r.Ok? ==> r.value == LatestId(ENTITY_DATAREADER)
      ensures r.Ok? && allocs[ENTITY_DATAREADER] <= 4095 ==> D.Unanswered(sessionId, old(slots), evs, r.value)
      ensures r.Ok? ==> Acked(history, r.value, ENTITY_DATAREADER) && LatestReader(r.value)
    {
      hide Sound, ObjectId, Waited, WaitInTurn, RequestsMade, InTurn, NextReq, D.FramesOf, Acked, Unused, D.NoJoins,
           D.SameShape, D.Unanswered, Answered, TopicAsked, ReaderAsked, NodeKnown;
      SevenKinds();
      NextReaderIsNew();
      ghost var h0, was := history, slots;
      ghost var whole := TurnsFor(sessionId, reqId, transport.rx, 3);
      RequestsBegin(sessionId, reqId, transport.rx, 3);
      var t, e0, a0 := CreateTopic(node, ddsTopic, typeName, own);
      OneMoreRequest(sessionId, transport.reliable, whole, [], 0, 3, a0, old(transport.rx), transport.rx, Done(t), e0);
      assert [] + e0 == e0;
      evs := e0;
      if t.Err? {
        assert history[|h0|..] == [a0] && [a0][1..] == [];
        AnsweredAlone(a0, 3, false, transport.reliable);
        NoReaderAsked(node, ddsTopic, typeName, LatestId(ENTITY_DATAREADER), own);
        return Err(t.error), evs;
      }
      ghost var slots1 := slots;
      var d, e1 := CreateReader(node, ddsTopic, typeName, own, whole, e0, 1);
      Chain(was, slots1, slots, e0, e1);
      AnsweredFirst(h0, a0, history, 2, d.Ok?, transport.reliable);
      if d.Ok? && allocs[ENTITY_DATAREADER] <= 4095 {
        D.NobodyAnswers(sessionId, was, e0 + e1, d.value);
      }
      return d, e0 + e1;
    }

    /**
     * Registers a subscription slot: topic, reader, READ_DATA, then the table. It fails for want
     * of room exactly when the table is full on entry; on any error the table is as before, and
     * so is the slot but for traffic to it. Frames that arrive meanwhile are dispatched. A topic
     * index is spent once there is room and a name, a reader index once the topic is acknowledged.
     * The slot gets its id only after the last reply, so samples for it that come before that are
     * lost.
     */
    method CreateSubscription(node: Node, topic: Text, typeName: Text, slot: Subscription)
      returns (r: Result<Subscription>, ghost evs: Trace)
      requires Valid()
      modifies `nextTopicIdx, `nextDrIdx, `allocs, `subscriptions, `owners, `readerSerials, `calls, slot`drId
      modifies `seqNo, `reqId, `history, `slots, `trace, transport`rx, transport`tx, transport`log, txBuf, rxBuf, owners
      ensures Valid() && calls == old(calls) + 1 && |allocs| == 7
      ensures old(history) <= history && D.NoJoins(evs)
      ensures F.Blamed(r, old(transport.log), transport.log)
      ensures r == Err(TooManySubscriptions) <==> |old(subscriptions)| == 8
      ensures slot !in old(owners) ==> slot.State() == old(slot.State()).(id := slot.drId)
      ensures r.Err? ==>
        && subscriptions == old(subscriptions) && owners == old(owners) && slot.drId == old(slot.drId)
        && trace == old(trace) + evs && D.SameShape(old(slots), slots)
      ensures r.Ok? ==>
        && r.value == slot && slot.drId == LatestId(ENTITY_DATAREADER)
        && subscriptions == old(subscriptions) + [slot]
        && owners == (if slot in old(owners) then old(owners) else old(owners) + [slot])
        && trace == old(trace) + evs +
            [if slot in old(owners) then D.Rejoin(old(OwnerOf(slot)), slot.drId) else D.Join(slot.State())]
      ensures |old(subscriptions)| == MAX_SUBSCRIPTIONS || Ros2TopicName(topic).Err? ==>
        && (|old(subscriptions)| < MAX_SUBSCRIPTIONS ==> r == Err(BufferTooSmall))
        && history == old(history) && allocs == old(allocs) && evs == []
      ensures |old(subscriptions)| < MAX_SUBSCRIPTIONS && Ros2TopicName(topic).Ok? ==>
        var h := history[|old(history)|..];
        && Answered(h, 3, r.Ok?, transport.reliable)
        && SubscriptionAsked(h, node, Ros2TopicName(topic).value, typeName, LatestId(ENTITY_TOPIC), LatestId(ENTITY_DATAREADER),
                             node in old(nodes))
        && allocs == if |h| == 1 then Bump(old(allocs), ENTITY_TOPIC)
                     else Bump(Bump(old(allocs), ENTITY_TOPIC), ENTITY_DATAREADER)
      ensures r.Ok? && allocs[ENTITY_DATAREADER] <= 4095 ==> D.Unanswered(sessionId, old(slots), evs, slot.drId)
      ensures transport.reliable && |old(subscriptions)| < MAX_SUBSCRIPTIONS && Ros2TopicName(topic).Ok? ==>
        TurnsFor(sessionId, old(reqId), old(transport.rx), 3)
          == Turns(WaitEnd(Done(r), transport.rx, D.FramesOf(evs)), |history| - |old(history)|)
    {
      hide Sound, Paced, ObjectId, Waited, WaitInTurn, RequestsMade, InTurn, NextReq, D.FramesOf, Acked, Unused,
           D.NoJoins, D.SameShape, D.Unanswered, Answered, AllSent, SubscriptionAsked, Ros2TopicName, NodeKnown;
      NothingHappened(slots, trace);
      ReaderSerialsBounded();
      ghost var h0, was, allocs0 := history, slots, allocs;
      calls := calls + 1;
      evs := [];
      if |subscriptions| == MAX_SUBSCRIPTIONS {
        CallOver(h0, allocs0, 3, false);
        return Err(TooManySubscriptions), evs;
      }
      var ddsTopic := Ros2TopicName(topic);
      if ddsTopic.Err? {
        CallOver(h0, allocs0, 3, false);
        return Err(ddsTopic.error), evs;
      }
      ghost var own := node in nodes;
      HandedOutNode(node);
      RegisteredId(slot);
      var d;
      d, evs := RequestSubscription(node, ddsTopic.value, typeName, own);
      IdKept(slot, was, old(slot.drId));
      CallOver(h0, allocs0, 3, d.Ok?);
      if d.Err? {
        return Err(d.error), evs;
      }
      ReaderSerialsBounded();
      // The table had room on entry and has not changed, so the push cannot fail.
      Register(slot, d.value);
      return Ok(slot), evs;
    }

    /** A registered object is in the state that is recorded for it. */
    lemma Recorded(o: Subscription)
      requires Sound() && (o in owners || o in subscriptions)
      ensures o in owners && OwnerOf(o) < |slots| && o.State() == slots[OwnerOf(o)]
      ensures slots == D.Run(sessionId, [], trace)
    {
      hide Counters, Indices, Past, Delivered, D.Run, Firsts;
    }

    /** The id of the reader numbered next is in no slot yet. */
    lemma NextReaderIsNew()
      requires Sound()
      ensures |allocs| == 7
      ensures allocs[ENTITY_DATAREADER] < 4095 ==> forall i :: 0 <= i < |slots| ==>
        slots[i].id != ObjectId((allocs[ENTITY_DATAREADER] + 1) % 0x1_0000, ENTITY_DATAREADER)
    {
      hide Lawful, HandlesKnown, Table, Counters, Indices, Delivered, ObjectId;
      if allocs[ENTITY_DATAREADER] < 4095 {
        ObjectIdOfSerial(allocs[ENTITY_DATAREADER] + 1, ENTITY_DATAREADER);
        forall i | 0 <= i < |slots|
          ensures slots[i].id < (allocs[ENTITY_DATAREADER] + 1) * 0x10 + ENTITY_DATAREADER
        {
          ObjectIdOfSerial(readerSerials[i], ENTITY_DATAREADER);
        }
      }
    }

    lemma RegisteredId(slot: Subscription)
      requires Sound()
      ensures slot in owners ==> OwnerOf(slot) < |slots| && slots[OwnerOf(slot)].id == slot.drId
    {
      if slot in owners {
        Recorded(slot);
      }
    }

    /** Traffic changes no reader id. */
    lemma IdKept(slot: Subscription, was: seq<D.Slot>, id: u16)
      requires Sound() && D.SameShape(was, slots)
      requires if slot in owners then OwnerOf(slot) < |was| && was[OwnerOf(slot)].id == id else slot.drId == id
      ensures slot.drId == id
    {
      RegisteredId(slot);
    }

    /** Two stretches of traffic make one. */
    static lemma Chain(was: seq<D.Slot>, mid: seq<D.Slot>, now: seq<D.Slot>, e: Trace, f: Trace)
      requires D.SameShape(was, mid) && D.SameShape(mid, now) && D.NoJoins(e) && D.NoJoins(f)
      ensures D.SameShape(was, now) && D.NoJoins(e + f)
    {
    }

    // ---- publishing ----

    /** Bytes reserved in front of a message body. */
    function Prefix(): nat {
      HdrLen(sessionId) + 4 + 4
    }

    /** Serializes the body behind the room for the headers, then fills the headers in. */
    method LayOut(msg: Message, seqDrawn: u16, dwId: u16) returns (total: nat)
      requires Buffers() && CanWriteAll(msg, 0, BodyRoom(sessionId))
      modifies txBuf
      ensures total <= TX_BUF_SIZE
      ensures txBuf[..total] ==
        Wire(WriteData(SessionHdr(sessionId, clientKey, STREAM_BEST_EFFORT, seqDrawn), dwId, SentBody(sessionId, msg)))
    {
      hide EncodeAll, CanWriteAll, StartsAll, Wire, Overlay, SessionHdr;
      var prefix := Prefix();
      var w := new CdrWriter(txBuf, prefix);
      w.WriteAll(msg);
      assert w.ideal == EncodeAll(msg, 0);
      // The count is capped at the slice's length, so the size tests that follow it never fire.
      var bodyLen := w.BytesWritten();
      total := prefix + bodyLen;
      ghost var m := WriteData(SessionHdr(sessionId, clientKey, STREAM_BEST_EFFORT, seqDrawn), dwId, SentBody(sessionId, msg));
      OverlayShows(w.base, prefix, txBuf.Length, w.ideal);
      assert txBuf[prefix..total] == txBuf[..][prefix..total] == SentBody(sessionId, msg);
      WireLen(m);
      FinalizeWriteDataHeaders(txBuf, total, sessionId, seqDrawn, clientKey, dwId);
      assert txBuf[..total] == txBuf[..][..total];
    }

    /**
     * Publishing draws a sequence number and no reply. The frame sent is the WRITE_DATA message
     * of the encoded body; a body that fits is sent whole. A publisher of another session is
     * taken as it is.
     */
    method Publish(publisher: Publisher, msg: Message) returns (r: Result<()>, ghost a: Attempt)
      requires Valid()
      requires CanWriteAll(msg, 0, BodyRoom(sessionId))
      modifies `seqNo, `history, transport`tx, transport`log, txBuf
      ensures Valid()
      ensures history == old(history) + [a] && a.m == WriteData(old(NextHdr()), publisher.dwId, SentBody(sessionId, msg))
      ensures a.own == (publisher.dwId in writers) && (a.sent <==> r.Ok?) && (transport.reliable ==> r.Ok?)
      ensures F.Blamed(r, old(transport.log), transport.log)
      ensures r.Ok? ==> transport.tx == old(transport.tx) + F.Frame(Wire(a.m)) && transport.log.flushed == |transport.tx|
      ensures r.Err? ==>
        && r.error in {Io, Disconnected}
        && old(transport.tx) <= transport.tx <= old(transport.tx) + F.Frame(Wire(a.m))
    {
      hide Sound, Pausing, Table, Indices, Past, Delivered, Counters, Addable, SessionHdr, Wire, Acked,
           CountRequests, ReqAt, CanWriteAll, SentBody, F.Join, F.Frame, Sends;
      SoundParts();
      ghost var own := publisher.dwId in writers;
      HandedOutWriter(publisher.dwId);
      ghost var m := WriteData(old(NextHdr()), publisher.dwId, SentBody(sessionId, msg));
      var seqDrawn := NextSeqNo();
      WrappingStep(|history|);
      var total := LayOut(msg, seqDrawn, publisher.dwId);
      AttemptIsAddable(Attempt(m, own, 0, |trace|, false, None));
      r := F.WriteFramed(transport, txBuf[..total]);
      a := Attempt(m, own, 0, |trace|, r.Ok?, None);
      RecordSent(a, old(transport.tx));
      PartsSound();
    }

    lemma HandedOutWriter(w: u16)
      requires Sound()
      ensures w in writers ==> Acked(history, w, ENTITY_DATAWRITER)
    {
    }

    /** A message that awaits no reply goes on record, sent or not. */
    ghost method RecordSent(a: Attempt, before: seq<byte>)
      requires Buffers() && Table() && Indices() && Past()
      requires a.m.WriteData? && a.ack.None? && |Wire(a.m)| <= TX_BUF_SIZE
      requires Addable(sessionId, clientKey, history, allocs, Attempt(a.m, a.own, a.serial, a.at, false, None), trace)
      requires transport.reliable ==> a.sent && before == preface + F.Join(Sends(history))
      requires a.sent ==> transport.tx == before + F.Frame(Wire(a.m))
      modifies `history
      ensures Pausing() && history == old(history) + [a] && CountRequests(history) == CountRequests(old(history))
    {
      hide Lawful, HandlesKnown, ReadersNumbered, Synced, D.Run, Wire, F.Join, F.Frame, Sends, CountRequests, Acked,
           Unused;
      F.JoinAppend(Sends(history), [Wire(a.m)]);
      F.JoinOne(Wire(a.m));
      Record(a);
    }

    // ---- spinning ----

    /** A consumer polls between two calls: it gets the oldest sample, and every invariant is kept. */
    method Poll(i: nat) returns (m: Option<Message>)
      requires Valid() && i < |subscriptions|
      modifies `slots, `trace, owners
      ensures Valid() && |slots| == |old(slots)| && D.SameShape(old(slots), slots)
      ensures trace == old(trace) + [D.Receive(OwnerOf(subscriptions[i]))]
      ensures m == if old(subscriptions[i].inbox) == [] then None else Some(old(subscriptions[i].inbox)[0])
    {
      hide Lawful, HandlesKnown, ReadersNumbered, Indices, Counters, Synced, D.Run, D.SameShape;
      ghost var was, before := slots, trace;
      m := ConsumerPolls(i);
      TrafficKeepsPast(was, before, [D.Receive(OwnerOf(subscriptions[i]))]);
    }

    /** Reads one frame and dispatches it. */
    method SpinOnce() returns (r: Result<()>, ghost evs: Trace)
      requires Valid()
      modifies `slots, `trace, transport`rx, transport`log, rxBuf, owners
      ensures Valid() && |slots| == |old(slots)| && D.SameShape(old(slots), slots)
      ensures trace == old(trace) + evs && D.NoJoins(evs)
      ensures r.Ok? ==>
        match F.TakeFrame(old(transport.rx), 768) {
          case Whole(f, rest) => D.FramesOf(evs) == [f] && transport.rx == rest
          case _ => false
        }
      ensures r.Err? ==> D.FramesOf(evs) == []
      ensures F.Blamed(r, old(transport.log), transport.log)
      ensures r == Err(Io) ==> !transport.reliable && F.Remains(transport.rx, old(transport.rx))
      ensures r.Err? && r.error != Io ==>
        match F.TakeFrame(old(transport.rx), 768) {
          case Whole(_, _) => false
          case TooLong(rest) => r.error == BufferTooSmall && transport.rx == rest
          case Ended => r.error == Disconnected && transport.rx == []
        }
    {
      hide Lawful, HandlesKnown, ReadersNumbered, Indices, Counters, Synced, D.Run, F.TakeFrame, D.FramesOf, D.NoJoins,
           D.SameShape;
      ghost var was, before := slots, trace;
      var len;
      len, evs := ReadOneFrame();
      if len.Err? {
        TrafficKeepsPast(was, before, evs);
        return Err(len.error), evs;
      }
      var msg := rxBuf[..len.value];
      assert msg == rxBuf[..][..len.value];
      DispatchFrame(msg);
      D.OneFrame(msg);
      D.FramesOfAppend(evs, [D.Frame(msg)]);
      NoJoinsPlusFrame(evs, msg);
      evs := evs + [D.Frame(msg)];
      TrafficKeepsPast(was, before, evs);
      return Ok(()), evs;
    }

    static lemma NoJoinsPlusFrame(evs: Trace, msg: seq<byte>)
      requires D.NoJoins(evs)
      ensures D.NoJoins(evs + [D.Frame(msg)])
    {
    }

    /** One turn is the spin's own first step. */
    static lemma SpinTakes(r: Result<()>, before: seq<byte>, after: seq<byte>, taken: seq<seq<byte>>)
      requires r.Ok? ==> exists f :: F.TakeFrame(before, RX_BUF_SIZE) == F.Whole(f, after) && taken == [f]
      requires r.Err? && r.error != Io ==> taken == []
      requires r.Err? && r.error != Io ==>
        match F.TakeFrame(before, RX_BUF_SIZE) {
          case Whole(_, _) => false
          case TooLong(rest) => r.error == BufferTooSmall && after == rest
          case Ended => r.error == Disconnected && after == []
        }
      ensures r.Ok? ==>
        |after| < |before| && SpinFor(before) == SpinFor(after).(frames := taken + SpinFor(after).frames)
      ensures r.Err? && r.error != Io ==> SpinFor(before) == SpinEnd(r.error, after, taken)
    {
      hide F.TakeFrame;
    }

    /** Spins until the first error; unless that is a fault, every frame has then been dispatched. */
    method Spin() returns (e: Error, ghost evs: Trace)
      requires Valid()
      modifies `slots, `trace, transport`rx, transport`log, rxBuf, owners
      ensures Valid() && |slots| == |old(slots)| && D.SameShape(old(slots), slots)
      ensures trace == old(trace) + evs && D.NoJoins(evs)
      ensures F.Blamed<()>(Err(e), old(transport.log), transport.log) && (transport.reliable ==> e != Io)
      ensures e != Io ==> SpinFor(old(transport.rx)) == SpinEnd(e, transport.rx, D.FramesOf(evs))
    {
      hide Valid, F.TakeFrame, SpinFor, D.FramesOf, D.NoJoins, D.SameShape;
      evs := [];
      assert D.FramesOf(evs) == [] by { D.NoFrames(); }
      NothingHappened(slots, trace);
      while true
        invariant Valid() && |slots| == |old(slots)| && D.SameShape(old(slots), slots)
        invariant trace == old(trace) + evs && D.NoJoins(evs)
        invariant SpinsOn(SpinFor(old(transport.rx)), D.FramesOf(evs), SpinFor(transport.rx))
        invariant F.Blamed(Ok(()), old(transport.log), transport.log)
        decreases |transport.rx|
      {
        ghost var before, mid := transport.rx, slots;
        var r, more := SpinOnce();
        SpinTakes(r, before, transport.rx, D.FramesOf(more));
        D.FramesOfAppend(evs, more);
        Chain(old(slots), mid, slots, evs, more);
        evs := evs + more;
        if r.Err? {
          return r.error, evs;
        }
      }
    }
  }

  /** The whole spin is the frames taken so far and then the rest of it. */
  ghost predicate SpinsOn(whole: SpinEnd, done: seq<seq<byte>>, rest: SpinEnd) {
    whole == rest.(frames := done + rest.frames)
  }
}
