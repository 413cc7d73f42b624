/**
 * From one session's publisher to another session's inbox, through an agent that relays the
 * body: it adds the 4-byte encapsulation and wraps the result in a DATA message.
 */
module EndToEnd {
  import opened Bytes
  import opened Protocol
  import opened Cdr
  import opened CdrWriting
  import opened CdrReading
  import opened AgentWire
  import opened MsgWriting
  import opened Waiting
  import opened History
  import opened Subscriptions
  import opened Sessions
  import F = Framing
  import D = Dispatch

  /** How the agent relays a body to reader `reader`: header, request id and encapsulation are its own. */
  datatype Relay = Relay(hdr: Hdr, req: u16, flags: byte, encap: Key)

  function DataFrame(r: Relay, reader: u16, body: seq<byte>): seq<byte> {
    HdrBytes(r.hdr) + Submessage(SUBMSG_DATA, r.flags, ObjectRequest(r.req, reader) + (r.encap + body))
  }

  lemma DataFrameLen(r: Relay, reader: u16, body: seq<byte>)
    requires GoodHdr(r.hdr)
    ensures |DataFrame(r, reader, body)| == HdrLen(r.hdr.sid) + 12 + |body|
  {
    hide Submessage, HdrBytes, Be16;
    HdrBytesLen(r.hdr);
    SubmessageLen(SUBMSG_DATA, r.flags, ObjectRequest(r.req, reader) + (r.encap + body));
  }

  /** A relayed frame that keeps its length field is addressed to its reader and carries the payload. */
  lemma DataFrameAddressed(sid: byte, r: Relay, reader: u16, body: seq<byte>)
    requires GoodHdr(r.hdr) && HdrLen(r.hdr.sid) == HdrLen(sid)
    requires 8 + |body| < 0x1_0000
    ensures D.Addressed(sid, DataFrame(r, reader, body)) == Some((reader, r.encap + body))
  {
    hide HdrBytes, Be16, Le16, FromBe16, FromLe16;
    var payload := ObjectRequest(r.req, reader) + (r.encap + body);
    var f := DataFrame(r, reader, body);
    var h := HdrLen(sid);
    HdrBytesLen(r.hdr);
    Le16RoundTrip(|payload|);
    Be16RoundTrip(reader);
    assert f[h] == SUBMSG_DATA && f[h + 2] == Le16(|payload|)[0] && f[h + 3] == Le16(|payload|)[1];
    assert f[h + 4..] == payload;
    assert D.FirstPayload(sid, f) == payload;
    assert payload[2] == Be16(reader)[0] && payload[3] == Be16(reader)[1];
    assert payload[4..] == r.encap + body;
  }

  /** What the receiver makes of a whole encoding behind an encapsulation header. */
  lemma EncapsulatedRoundTrip(m: Message, s: Schema, encap: Key)
    requires HasSchema(m, s)
    ensures D.Deserialize(s, encap + EncodeAll(m, 0)) == Some(m)
  {
    hide EncodeAll, DecodeAll;
    MessageRoundTrip(m, s, [], []);
    assert [] + EncodeAll(m, 0) + [] == EncodeAll(m, 0);
    assert Body(encap + EncodeAll(m, 0)) == EncodeAll(m, 0);
  }

  /** Dispatching an addressed frame is delivering its payload to the one slot that answers. */
  lemma DispatchIsDelivery(sid: byte, slots: seq<D.Slot>, i: nat, f: seq<byte>, reader: u16, payload: seq<byte>)
    requires i < |slots| && D.Answers(slots, i, reader)
    requires D.Addressed(sid, f) == Some((reader, payload))
    ensures D.DispatchFrame(sid, slots, f) == slots[i := D.Deliver(slots[i], payload)]
  {
    hide D.Deliver, D.DispatchFrame, D.Addressed;
    var after := D.DispatchFrame(sid, slots, f);
    forall k | 0 <= k < |slots|
      ensures after[k] == slots[i := D.Deliver(slots[i], payload)][k]
    {
      D.DispatchAt(sid, slots, f, k);
    }
  }

  // ---- one message ----

  /** One turn of the spin loop: the table, the error if there is one, and what is left of the stream. */
  datatype SpinTurn = SpinTurn(slots: seq<D.Slot>, error: Option<Error>, rest: seq<byte>)

  function TurnOn(sid: byte, slots: seq<D.Slot>, rx: seq<byte>): SpinTurn {
    match F.TakeFrame(rx, RX_BUF_SIZE)
    case Whole(f, rest) => SpinTurn(D.DispatchFrame(sid, slots, f), None, rest)
    case TooLong(rest) => SpinTurn(slots, Some(BufferTooSmall), rest)
    case Ended => SpinTurn(slots, Some(Disconnected), [])
  }

  /**
   * The relayed frame is four bytes of encapsulation longer than the published one. A session
   * with the same buffer sizes can take it exactly when the body leaves that room, so the last
   * four body sizes that can be published cannot be received.
   */
  lemma RelayedFrameCarriedExactly(r: Relay, reader: u16, body: seq<byte>, rest: seq<byte>)
    requires GoodHdr(r.hdr)
    ensures F.TakeFrame(F.Frame(DataFrame(r, reader, body)) + rest, RX_BUF_SIZE) == F.Whole(DataFrame(r, reader, body), rest)
       <==> HdrLen(r.hdr.sid) + 12 + |body| <= RX_BUF_SIZE
  {
    hide DataFrame, F.TakeFrame, F.Frame;
    DataFrameLen(r, reader, body);
    F.TakeFrameExact(DataFrame(r, reader, body), rest, RX_BUF_SIZE);
  }

  /** A relayed frame that is too long costs the turn its length prefix only; all else stays in the stream. */
  lemma RelayedFrameRead(sid: byte, slots: seq<D.Slot>, r: Relay, reader: u16, body: seq<byte>, rest: seq<byte>)
    requires GoodHdr(r.hdr) && HdrLen(r.hdr.sid) + 12 + |body| < 0x1_0000
    ensures
      var f := DataFrame(r, reader, body);
      TurnOn(sid, slots, F.Frame(f) + rest)
        == if HdrLen(r.hdr.sid) + 12 + |body| <= RX_BUF_SIZE then SpinTurn(D.DispatchFrame(sid, slots, f), None, rest)
           else SpinTurn(slots, Some(BufferTooSmall), f + rest)
  {
    hide DataFrame, F.TakeFrame, F.Frame, D.DispatchFrame;
    DataFrameLen(r, reader, body);
    F.TakeFrameExact(DataFrame(r, reader, body), rest, RX_BUF_SIZE);
  }

  /**
   * A message whose body fits the transmit buffer is recovered by the agent. The DATA frame it
   * makes of it adds exactly that message to the reader's inbox, if there is room, and changes
   * nothing else; but if the frame is then too long, as it is between sessions of one header form
   * for the four longest bodies, it is refused instead.
   */
  lemma PublishedMessageArrives(m: Message, s: Schema, hdr: Hdr, writer: u16, r: Relay, reader: u16,
                                sid: byte, slots: seq<D.Slot>, i: nat, rest: seq<byte>)
    requires HasSchema(m, s) && GoodHdr(hdr) && |EncodeAll(m, 0)| <= BodyRoom(hdr.sid)
    requires GoodHdr(r.hdr) && HdrLen(r.hdr.sid) == HdrLen(sid)
    requires i < |slots| && D.Answers(slots, i, reader) && slots[i].schema == s
    ensures Parse(Wire(WriteData(hdr, writer, EncodeAll(m, 0)))) == Some(WriteData(hdr, writer, EncodeAll(m, 0)))
    ensures
      var f := DataFrame(r, reader, EncodeAll(m, 0));
      var queue := if |slots[i].queue| < slots[i].depth then slots[i].queue + [m] else slots[i].queue;
      TurnOn(sid, slots, F.Frame(f) + rest)
        == if HdrLen(sid) + 12 + |EncodeAll(m, 0)| <= RX_BUF_SIZE then SpinTurn(slots[i := slots[i].(queue := queue)], None, rest)
           else SpinTurn(slots, Some(BufferTooSmall), f + rest)
  {
    hide EncodeAll, Parse, Wire, DataFrame, TurnOn, F.Frame, D.DispatchFrame, D.Deserialize, D.Addressed;
    var w := WriteData(hdr, writer, EncodeAll(m, 0));
    WireLen(w);
    AgentRecoversMessage(w);
    EncapsulatedRoundTrip(m, s, r.encap);
    DataFrameAddressed(sid, r, reader, EncodeAll(m, 0));
    DispatchIsDelivery(sid, slots, i, DataFrame(r, reader, EncodeAll(m, 0)), reader, r.encap + EncodeAll(m, 0));
    RelayedFrameRead(sid, slots, r, reader, EncodeAll(m, 0), rest);
  }

  // ---- a message that does not fit ----

  /**
   * A message that does not fit fills the transmit buffer, so what the agent makes of it can be
   * received only where that saves the four bytes: from a sender with a key in its header to a
   * receiver without one.
   */
  lemma CutFrameCarriedExactly(m: Message, sender: byte, r: Relay, reader: u16)
    requires GoodHdr(r.hdr) && |EncodeAll(m, 0)| > BodyRoom(sender)
    ensures |SentBody(sender, m)| == BodyRoom(sender)
    ensures |DataFrame(r, reader, SentBody(sender, m))| == RX_BUF_SIZE + 4 + HdrLen(r.hdr.sid) - HdrLen(sender)
    ensures F.Carried(DataFrame(r, reader, SentBody(sender, m)), RX_BUF_SIZE)
       <==> HdrLen(sender) == 8 && HdrLen(r.hdr.sid) == 4
  {
    hide EncodeAll, DataFrame;
    DataFrameLen(r, reader, SentBody(sender, m));
  }

  /** A cut message, if it is read at all, does not decode: no inbox changes. */
  lemma CutMessageRejected(m: Message, s: Schema, sender: byte, r: Relay, reader: u16,
                           sid: byte, slots: seq<D.Slot>, i: nat)
    requires HasSchema(m, s) && m != [] && s[|s| - 1] != F64sK(0) && |EncodeAll(m, 0)| > BodyRoom(sender)
    requires GoodHdr(r.hdr) && HdrLen(r.hdr.sid) == HdrLen(sid)
    requires i < |slots| && D.Answers(slots, i, reader) && slots[i].schema == s
    ensures D.DispatchFrame(sid, slots, DataFrame(r, reader, SentBody(sender, m))) == slots
  {
    hide EncodeAll, DecodeAll, DataFrame, D.DispatchFrame, D.Addressed, HasKind;
    var cut := SentBody(sender, m);
    TruncationDetected(m, s, BodyRoom(sender));
    assert Body(r.encap + cut) == cut;
    DataFrameAddressed(sid, r, reader, cut);
    DispatchIsDelivery(sid, slots, i, DataFrame(r, reader, cut), reader, r.encap + cut);
    assert slots[i := slots[i]] == slots;
  }

  /**
   * A message that does not fit but is published without a panic never arrives. Between sessions
   * of one header form its frame is refused and left in the stream; a receiver without a key
   * reads the frame of a sender with one, and drops the message. (A message ending in an empty
   * array could lose padding only.)
   */
  lemma CutMessageNeverArrives(m: Message, s: Schema, sender: byte, r: Relay, reader: u16,
                               sid: byte, slots: seq<D.Slot>, i: nat, rest: seq<byte>)
    requires HasSchema(m, s) && m != [] && s[|s| - 1] != F64sK(0) && |EncodeAll(m, 0)| > BodyRoom(sender)
    requires GoodHdr(r.hdr) && HdrLen(r.hdr.sid) == HdrLen(sid)
    requires i < |slots| && D.Answers(slots, i, reader) && slots[i].schema == s
    ensures
      var f := DataFrame(r, reader, SentBody(sender, m));
      TurnOn(sid, slots, F.Frame(f) + rest)
        == if HdrLen(sender) == 8 && HdrLen(sid) == 4 then SpinTurn(slots, None, rest)
           else SpinTurn(slots, Some(BufferTooSmall), f + rest)
  {
    hide EncodeAll, DataFrame, TurnOn, SentBody, F.Frame, D.DispatchFrame, D.Answers, HasSchema;
    CutFrameCarriedExactly(m, sender, r, reader);
    CutMessageRejected(m, s, sender, r, reader, sid, slots, i);
    RelayedFrameRead(sid, slots, r, reader, SentBody(sender, m), rest);
  }

  lemma TextHasSchema(t: seq<byte>, limit: nat)
    requires Utf8(t) && |t| <= limit && |t| < 0xFFFF_FFFF
    ensures HasSchema([Str(t)], [TextK(limit)])
  {
    hide Utf8;
  }

  lemma CutString(t: seq<byte>, sender: byte)
    requires |t| + 4 == BodyRoom(sender)
    ensures CanWriteAll([Str(t)], 0, BodyRoom(sender)) && |EncodeAll([Str(t)], 0)| > BodyRoom(sender)
    ensures SentBody(sender, [Str(t)]) == Le(StringCount(t), 4) + t
  {
    hide CanWriteAll, EncodeAll, Le, StringCount;
    SilentStringTruncation(t, BodyRoom(sender));
  }

  /** The one string length that is published cut: it loses its terminator and never arrives. */
  lemma StringOneTooLongNeverArrives(t: seq<byte>, limit: nat, sender: byte, r: Relay, reader: u16,
                                     sid: byte, slots: seq<D.Slot>, i: nat, rest: seq<byte>)
    requires Utf8(t) && |t| <= limit && |t| + 4 == BodyRoom(sender)
    requires GoodHdr(r.hdr) && HdrLen(r.hdr.sid) == HdrLen(sid)
    requires i < |slots| && D.Answers(slots, i, reader) && slots[i].schema == [TextK(limit)]
    ensures CanWriteAll([Str(t)], 0, BodyRoom(sender)) && SentBody(sender, [Str(t)]) == Le(StringCount(t), 4) + t
    ensures
      var f := DataFrame(r, reader, Le(StringCount(t), 4) + t);
      TurnOn(sid, slots, F.Frame(f) + rest)
        == if HdrLen(sender) == 8 && HdrLen(sid) == 4 then SpinTurn(slots, None, rest)
           else SpinTurn(slots, Some(BufferTooSmall), f + rest)
  {
    hide Utf8, CanWriteAll, EncodeAll, HasSchema, DataFrame, TurnOn, SentBody, F.Frame, D.Answers, Le, StringCount;
    CutString(t, sender);
    TextHasSchema(t, limit);
    CutMessageNeverArrives([Str(t)], [TextK(limit)], sender, r, reader, sid, slots, i, rest);
  }

  /**
   * What a refused frame does to a session that spins on: the first two bytes of the frame are
   * taken for the next length, and the stream is read from there, wherever that ends.
   */
  lemma RefusedFrameReread(r: Relay, reader: u16, body: seq<byte>, rest: seq<byte>)
    requires GoodHdr(r.hdr) && HdrLen(r.hdr.sid) + 12 + |body| > RX_BUF_SIZE
    ensures
      var s := DataFrame(r, reader, body) + rest;
      var len := r.hdr.sid + 0x100 * r.hdr.stream;
      SpinFor(s)
        == if len > RX_BUF_SIZE then SpinEnd(BufferTooSmall, s[2..], [])
           else if |s| < 2 + len then SpinEnd(Disconnected, [], [])
           else var next := SpinFor(s[2 + len..]); next.(frames := [s[2..2 + len]] + next.frames)
  {
    hide Submessage, Le16;
    DataFrameLen(r, reader, body);
    var s := DataFrame(r, reader, body) + rest;
    assert s[0] == r.hdr.sid && s[1] == r.hdr.stream;
  }

  /**
   * So a refused message is not out of the way: if that point lies in its body, what the body
   * holds from there on is read, and dispatched, as frames.
   */
  lemma RefusedBodyReadAsFrames(r: Relay, reader: u16, body: seq<byte>, at: nat, g: seq<byte>, tail: seq<byte>,
                                rest: seq<byte>)
    requires GoodHdr(r.hdr) && HdrLen(r.hdr.sid) + 12 + |body| > RX_BUF_SIZE
    requires at <= |body| && HdrLen(r.hdr.sid) + 12 + at == 2 + r.hdr.sid + 0x100 * r.hdr.stream <= 2 + RX_BUF_SIZE
    requires body[at..] == F.Frame(g) + tail && F.Carried(g, RX_BUF_SIZE)
    ensures
      var f := DataFrame(r, reader, body);
      var next := SpinFor(tail + rest);
      SpinFor(f + rest) == next.(frames := [f[2..HdrLen(r.hdr.sid) + 12 + at], g] + next.frames)
  {
    hide DataFrame, F.Frame, F.TakeFrame;
    var f, n := DataFrame(r, reader, body), HdrLen(r.hdr.sid) + 12 + at;
    RefusedFrameReread(r, reader, body, rest);
    DataFrameLen(r, reader, body);
    BodyIsLast(r, reader, body, at);
    assert (f + rest)[n..] == F.Frame(g) + (tail + rest);
    assert (f + rest)[2..n] == f[2..n];
    F.TakeFrameExact(g, tail + rest, RX_BUF_SIZE);
    var next := SpinFor(tail + rest);
    assert [f[2..n]] + ([g] + next.frames) == [f[2..n], g] + next.frames;
  }

  lemma BodyIsLast(r: Relay, reader: u16, body: seq<byte>, at: nat)
    requires GoodHdr(r.hdr) && at <= |body|
    ensures |DataFrame(r, reader, body)| == HdrLen(r.hdr.sid) + 12 + |body|
    ensures DataFrame(r, reader, body)[HdrLen(r.hdr.sid) + 12 + at..] == body[at..]
  {
    hide Le16, Be16;
    DataFrameLen(r, reader, body);
  }

  // ---- a stream of messages among other traffic ----

  /** A frame on the receiver's stream: a message relayed to the reader at hand, or anything else. */
  datatype Item = Sample(m: Message, relay: Relay) | Other(frame: seq<byte>)

  function ItemFrame(x: Item, reader: u16): seq<byte> {
    match x
    case Sample(m, r) => DataFrame(r, reader, EncodeAll(m, 0))
    case Other(f) => f
  }

  function ItemFrames(xs: seq<Item>, reader: u16): (fs: seq<seq<byte>>)
    ensures |fs| == |xs|
    ensures forall k :: 0 <= k < |xs| ==> fs[k] == ItemFrame(xs[k], reader)
  {
    if xs == [] then [] else ItemFrames(xs[..|xs| - 1], reader) + [ItemFrame(xs[|xs| - 1], reader)]
  }

  /** The messages relayed to the reader. */
  function Samples(xs: seq<Item>): seq<Message> {
    if xs == [] then []
    else Samples(xs[..|xs| - 1]) + match xs[|xs| - 1] case Sample(m, _) => [m] case Other(_) => []
  }

  /** The rest of the traffic. */
  function Others(xs: seq<Item>): seq<Item> {
    if xs == [] then []
    else Others(xs[..|xs| - 1]) + if xs[|xs| - 1].Other? then [xs[|xs| - 1]] else []
  }

  /** A message of the reader's type that can be received, or a frame that can be and is not for the reader. */
  predicate Acceptable(sid: byte, s: Schema, reader: u16, x: Item) {
    match x
    case Sample(m, r) =>
      && HasSchema(m, s)
      && GoodHdr(r.hdr) && HdrLen(r.hdr.sid) == HdrLen(sid)
      && HdrLen(sid) + 12 + |EncodeAll(m, 0)| <= RX_BUF_SIZE
    case Other(f) =>
      && F.Carried(f, RX_BUF_SIZE)
      && (D.Addressed(sid, f).Some? ==> D.Addressed(sid, f).value.0 != reader)
  }

  ghost predicate AllAcceptable(sid: byte, s: Schema, reader: u16, xs: seq<Item>) {
    forall k :: 0 <= k < |xs| ==> Acceptable(sid, s, reader, xs[k])
  }

  lemma ItemCarried(sid: byte, s: Schema, reader: u16, x: Item)
    requires Acceptable(sid, s, reader, x)
    ensures F.Carried(ItemFrame(x, reader), RX_BUF_SIZE)
    ensures x.Sample? ==> D.Addressed(sid, ItemFrame(x, reader)) == Some((reader, x.relay.encap + EncodeAll(x.m, 0)))
  {
    hide EncodeAll, DataFrame, HasSchema, D.Addressed;
    if x.Sample? {
      DataFrameLen(x.relay, reader, EncodeAll(x.m, 0));
      DataFrameAddressed(sid, x.relay, reader, EncodeAll(x.m, 0));
    }
  }

  /** What one frame brings to the reader's subscription. */
  lemma ItemArrives(sid: byte, slots: seq<D.Slot>, i: nat, reader: u16, x: Item)
    requires i < |slots| && D.Answers(slots, i, reader) && Acceptable(sid, slots[i].schema, reader, x)
    ensures D.Arrivals(D.InputOf(sid, slots, i, D.Frame(ItemFrame(x, reader))))
         == match x case Sample(m, _) => [m] case Other(_) => []
  {
    hide EncodeAll, HasSchema, DataFrame, D.Addressed, D.Deserialize;
    ItemCarried(sid, slots[i].schema, reader, x);
    if x.Sample? {
      EncapsulatedRoundTrip(x.m, slots[i].schema, x.relay.encap);
      assert [D.Arrive(x.m)][..0] == [];
    }
  }

  lemma {:induction false} ItemsArrive(sid: byte, slots: seq<D.Slot>, i: nat, reader: u16, xs: seq<Item>)
    requires i < |slots| && D.Answers(slots, i, reader) && AllAcceptable(sid, slots[i].schema, reader, xs)
    ensures D.SamplesFor(sid, slots, i, ItemFrames(xs, reader)) == Samples(xs)
  {
    hide Acceptable, ItemFrame, D.InputOf, D.Arrivals, D.Answers;
    if xs != [] {
      var n := |xs| - 1;
      assert ItemFrames(xs, reader)[..n] == ItemFrames(xs[..n], reader);
      ItemsArrive(sid, slots, i, reader, xs[..n]);
      ItemArrives(sid, slots, i, reader, xs[n]);
    }
  }

  /**
   * The byte stream of any number of relayed messages among other traffic, spun over by a session
   * whose inbox has room for the messages: every frame is taken, and what was received followed
   * by what is queued has grown by exactly those messages, in order, wherever consumers polled.
   */
  lemma StreamArrives(sid: byte, slots: seq<D.Slot>, i: nat, reader: u16, xs: seq<Item>, evs: Trace)
    requires i < |slots| && D.Answers(slots, i, reader) && AllAcceptable(sid, slots[i].schema, reader, xs)
    requires |slots[i].queue| + |Samples(xs)| <= slots[i].depth
    requires D.NoJoins(evs) && D.FramesOf(evs) == SpinFor(F.Join(ItemFrames(xs, reader))).frames
    ensures SpinFor(F.Join(ItemFrames(xs, reader))) == SpinEnd(Disconnected, [], ItemFrames(xs, reader))
    ensures i < |D.Run(sid, slots, evs)|
    ensures
      var s := D.Run(sid, slots, evs)[i];
      s.taken + s.queue == slots[i].taken + slots[i].queue + Samples(xs)
  {
    hide Acceptable, ItemFrame, Samples, SpinFor, F.Join, D.Run, D.SamplesFor, D.Answers, D.FramesOf, D.NoJoins;
    var fs := ItemFrames(xs, reader);
    forall k | 0 <= k < |fs|
      ensures F.Carried(fs[k], RX_BUF_SIZE)
    {
      ItemCarried(sid, slots[i].schema, reader, xs[k]);
    }
    SpinTakesAll(fs);
    ItemsArrive(sid, slots, i, reader, xs);
    D.RoomyInboxGainsAll(sid, slots, i, evs);
  }

  /** For every other subscription the stream is as if only the other traffic were on it. */
  lemma {:induction false} SamplesReachNoOther(sid: byte, slots: seq<D.Slot>, i: nat, reader: u16, xs: seq<Item>, j: nat)
    requires i < |slots| && D.Answers(slots, i, reader) && AllAcceptable(sid, slots[i].schema, reader, xs)
    requires j < |slots| && j != i
    ensures D.SamplesFor(sid, slots, j, ItemFrames(xs, reader)) == D.SamplesFor(sid, slots, j, ItemFrames(Others(xs), reader))
  {
    hide Acceptable, ItemFrame, D.InputOf, D.Arrivals, D.Answers;
    if xs != [] {
      var n := |xs| - 1;
      OneMoreFrame(sid, slots, j, reader, xs[..n], xs[n]);
      assert xs == xs[..n] + [xs[n]];
      SamplesReachNoOther(sid, slots, i, reader, xs[..n], j);
      assert xs[n].Sample? ==> Others(xs) == Others(xs[..n]);
      if xs[n].Other? {
        OneMoreFrame(sid, slots, j, reader, Others(xs[..n]), xs[n]);
      } else {
        SampleIsNotFor(sid, slots, i, reader, xs[n], j);
      }
    }
  }

  lemma OneMoreFrame(sid: byte, slots: seq<D.Slot>, j: nat, reader: u16, xs: seq<Item>, x: Item)
    requires j < |slots|
    ensures D.SamplesFor(sid, slots, j, ItemFrames(xs + [x], reader))
         == D.SamplesFor(sid, slots, j, ItemFrames(xs, reader)) +
            D.Arrivals(D.InputOf(sid, slots, j, D.Frame(ItemFrame(x, reader))))
  {
    hide ItemFrame, D.InputOf, D.Arrivals;
    assert (xs + [x])[..|xs|] == xs;
    var fs := ItemFrames(xs + [x], reader);
    assert fs[..|xs|] == ItemFrames(xs, reader);
  }

  lemma SampleIsNotFor(sid: byte, slots: seq<D.Slot>, i: nat, reader: u16, x: Item, j: nat)
    requires i < |slots| && D.Answers(slots, i, reader) && Acceptable(sid, slots[i].schema, reader, x) && x.Sample?
    requires j < |slots| && j != i
    ensures D.Arrivals(D.InputOf(sid, slots, j, D.Frame(ItemFrame(x, reader)))) == []
  {
    hide ItemFrame, EncodeAll, HasSchema, DataFrame, D.Addressed, D.Deserialize;
    ItemCarried(sid, slots[i].schema, reader, x);
  }

  // ---- two sessions and the agent between them ----

  /** The agent reads one frame that a session sent; if it is WRITE_DATA, it relays the body to a reader. */
  method AgentRelays(sent: seq<byte>, to: F.Transport, r: Relay, reader: u16)
    modifies to`rx
    ensures forall m: AgentMsg :: m.WriteData? && WellFormed(m) && |Wire(m)| <= TX_BUF_SIZE && sent == F.Frame(Wire(m)) ==>
      to.rx == old(to.rx) + F.Frame(DataFrame(r, reader, m.body))
  {
    hide Parse, Wire, F.TakeFrame, F.Frame, DataFrame;
    forall m: AgentMsg | m.WriteData? && WellFormed(m) && |Wire(m)| <= TX_BUF_SIZE && sent == F.Frame(Wire(m))
      ensures F.TakeFrame(sent, TX_BUF_SIZE) == F.Whole(Wire(m), []) && Parse(Wire(m)) == Some(m)
    {
      WireLen(m);
      AgentRecoversMessage(m);
      F.TakeFrameExact(Wire(m), [], TX_BUF_SIZE);
      assert F.Frame(Wire(m)) + [] == F.Frame(Wire(m));
    }
    match F.TakeFrame(sent, TX_BUF_SIZE)
    case Whole(f, _) =>
      match Parse(f) {
        case Some(WriteData(_, _, body)) => to.rx := to.rx + F.Frame(DataFrame(r, reader, body));
        case _ =>
      }
    case _ =>
  }

  /** One session twice, or two with no object in common. */
  ghost predicate Apart(a: Session, b: Session)
    reads a, b
  {
    a == b || (a.transport != b.transport && forall o :: o in a.owners ==> o !in b.owners)
  }

  /** DATA for the id of this subscription finds it. */
  ghost predicate Reachable(b: Session, o: Subscription)
    reads b, o
  {
    var k := b.OwnerOf(o);
    k < |b.slots| && D.Answers(b.slots, k, o.drId)
  }

  /** One message from one session's publisher to another session's stream. */
  method PublishRelay(a: Session, p: Publisher, b: Session, m: Message, r: Relay, reader: u16)
    requires a.Valid() && b.Valid() && Apart(a, b) && a.transport.reliable && CanWriteAll(m, 0, BodyRoom(a.sessionId))
    modifies a`seqNo, a`history, a.transport`tx, a.transport`log, a.txBuf, b.transport`rx
    ensures a.Valid() && b.Valid()
    ensures old(a.history) <= a.history && |a.history| == |old(a.history)| + 1
    ensures b.transport.rx == old(b.transport.rx) + F.Frame(DataFrame(r, reader, SentBody(a.sessionId, m)))
  {
    hide Session.Valid, EncodeAll, Wire, DataFrame, SentBody, F.Frame, CanWriteAll;
    var before := |a.transport.tx|;
    var _, sent := a.Publish(p, m);
    assert a.transport.tx[before..] == F.Frame(Wire(sent.m));
    SentBodyFits(a.sessionId, m);
    WireLen(sent.m);
    AgentRelays(a.transport.tx[before..], b.transport, r, reader);
  }

  lemma SentBodyFits(sid: byte, m: Message)
    ensures |SentBody(sid, m)| <= BodyRoom(sid)
  {
    hide EncodeAll;
  }

  /** The receiver takes one turn; the other session is as it was. */
  method ReceiverTurn(a: Session, b: Session) returns (r: Result<()>, ghost evs: Trace)
    requires a.Valid() && b.Valid() && Apart(a, b)
    modifies b`slots, b`trace, b.transport`rx, b.transport`log, b.rxBuf, b.owners
    ensures a.Valid() && b.Valid()
    ensures b.trace == old(b.trace) + evs && D.NoJoins(evs)
    ensures b.transport.reliable ==>
      match F.TakeFrame(old(b.transport.rx), RX_BUF_SIZE) {
        case Whole(f, rest) => r.Ok? && D.FramesOf(evs) == [f] && b.transport.rx == rest
        case TooLong(rest) => r == Err(BufferTooSmall) && D.FramesOf(evs) == [] && b.transport.rx == rest
        case Ended => r == Err(Disconnected) && D.FramesOf(evs) == [] && b.transport.rx == []
      }
  {
    hide Session.Valid, F.TakeFrame, D.NoJoins, D.FramesOf, D.SameShape;
    r, evs := b.SpinOnce();
    if a != b {
      assert unchanged(a) && unchanged(a.transport);
      forall j | 0 <= j < |a.owners|
        ensures unchanged(a.owners[j])
      {
        assert a.owners[j] in a.owners;
      }
    }
  }

  /** The same for a whole spin. */
  method ReceiverSpins(a: Session, b: Session) returns (e: Error, ghost evs: Trace)
    requires a.Valid() && b.Valid() && Apart(a, b)
    modifies b`slots, b`trace, b.transport`rx, b.transport`log, b.rxBuf, b.owners
    ensures a.Valid() && b.Valid()
    ensures b.trace == old(b.trace) + evs && D.NoJoins(evs)
    ensures b.transport.reliable ==> SpinFor(old(b.transport.rx)) == SpinEnd(e, b.transport.rx, D.FramesOf(evs))
  {
    hide Session.Valid, SpinFor, D.NoJoins, D.FramesOf, D.SameShape;
    e, evs := b.Spin();
    if a != b {
      assert unchanged(a) && unchanged(a.transport);
      forall j | 0 <= j < |a.owners|
        ensures unchanged(a.owners[j])
      {
        assert a.owners[j] in a.owners;
      }
    }
  }

  /**
   * Any message that can be published, on error-free connections, to a receiver with nothing else
   * in its stream: its turn succeeds exactly when the relayed body leaves the four bytes it needs;
   * otherwise the whole frame but its length stays in the stream. Between sessions of one header
   * form that is the fate of every message that does not fit.
   */
  method PublishRelayTurn(a: Session, p: Publisher, b: Session, m: Message, r: Relay, reader: u16)
    returns (turn: Result<()>)
    requires a.Valid() && b.Valid() && Apart(a, b) && CanWriteAll(m, 0, BodyRoom(a.sessionId))
    requires a.transport.reliable && b.transport.reliable && b.transport.rx == []
    requires GoodHdr(r.hdr) && HdrLen(r.hdr.sid) == HdrLen(b.sessionId)
    modifies a`seqNo, a`history, a.transport`tx, a.transport`log, a.txBuf
    modifies b`slots, b`trace, b.transport`rx, b.transport`log, b.rxBuf, b.owners
    ensures a.Valid() && b.Valid()
    ensures
      var body := SentBody(a.sessionId, m);
      if HdrLen(b.sessionId) + 12 + |body| <= RX_BUF_SIZE then turn.Ok? && b.transport.rx == []
      else turn == Err(BufferTooSmall) && b.transport.rx == DataFrame(r, reader, body)
    ensures |EncodeAll(m, 0)| > BodyRoom(a.sessionId) && HdrLen(a.sessionId) == HdrLen(b.sessionId) ==>
      turn == Err(BufferTooSmall)
  {
    hide Session.Valid, EncodeAll, DataFrame, F.Frame, F.TakeFrame, CanWriteAll, SentBody, D.NoJoins, D.FramesOf;
    PublishRelay(a, p, b, m, r, reader);
    ghost var body := SentBody(a.sessionId, m);
    ghost var f := DataFrame(r, reader, body);
    assert b.transport.rx == F.Frame(f) + [];
    SentBodyFits(a.sessionId, m);
    DataFrameLen(r, reader, body);
    F.TakeFrameExact(f, [], RX_BUF_SIZE);
    assert f + [] == f;
    if |EncodeAll(m, 0)| > BodyRoom(a.sessionId) {
      CutFrameCarriedExactly(m, a.sessionId, r, reader);
    }
    ghost var evs;
    turn, evs := ReceiverTurn(a, b);
  }

  lemma ItemsCarried(sid: byte, s: Schema, reader: u16, xs: seq<Item>)
    requires AllAcceptable(sid, s, reader, xs)
    ensures forall k :: 0 <= k < |xs| ==> F.Carried(ItemFrames(xs, reader)[k], RX_BUF_SIZE)
  {
    hide Acceptable, ItemFrame;
    forall k | 0 <= k < |xs|
      ensures F.Carried(ItemFrames(xs, reader)[k], RX_BUF_SIZE)
    {
      ItemCarried(sid, s, reader, xs[k]);
    }
  }

  /** What has been relayed of the items, from `j` on, is still in the stream, and the rest was dispatched. */
  ghost predicate Underway(b: Session, reader: u16, xs: seq<Item>, j: nat, n: nat, evs: Trace)
    reads b.transport`rx
  {
    && j <= n <= |xs|
    && b.transport.rx == F.Join(ItemFrames(xs[j..n], reader))
    && D.FramesOf(evs) == ItemFrames(xs[..j], reader) && D.NoJoins(evs)
  }

  /** The receiver takes the next item. */
  method ReceiverTakesItem(a: Session, b: Session, ghost reader: u16, ghost xs: seq<Item>, ghost j: nat, ghost n: nat,
                           ghost evs: Trace)
    returns (ghost more: Trace)
    requires a.Valid() && b.Valid() && Apart(a, b) && b.transport.reliable
    requires Underway(b, reader, xs, j, n, evs) && b.transport.rx != []
    requires forall k :: 0 <= k < |xs| ==> F.Carried(ItemFrames(xs, reader)[k], RX_BUF_SIZE)
    modifies b`slots, b`trace, b.transport`rx, b.transport`log, b.rxBuf, b.owners
    ensures a.Valid() && b.Valid() && j < n && Underway(b, reader, xs, j + 1, n, evs + more)
    ensures b.trace == old(b.trace) + more
  {
    hide Session.Valid, ItemFrame, F.TakeFrame, F.Frame, F.Join, F.Carried, D.NoJoins, D.FramesOf;
    OneFrameTaken(b, reader, xs, j, n, evs);
    var r;
    r, more := ReceiverTurn(a, b);
    D.FramesOfAppend(evs, more);
    NoJoinsTogether(evs, more);
    assert xs[..j + 1] == xs[..j] + [xs[j]];
    assert ItemFrames(xs[..j + 1], reader) == ItemFrames(xs[..j], reader) + [ItemFrame(xs[j], reader)];
  }

  /** Any number of turns while there is something in the stream. */
  method ReceiverTurns(a: Session, b: Session, ghost reader: u16, ghost xs: seq<Item>, ghost j: nat, ghost n: nat,
                       ghost evs: Trace)
    returns (ghost j': nat, ghost more: Trace)
    requires a.Valid() && b.Valid() && Apart(a, b) && b.transport.reliable && Underway(b, reader, xs, j, n, evs)
    requires forall k :: 0 <= k < |xs| ==> F.Carried(ItemFrames(xs, reader)[k], RX_BUF_SIZE)
    modifies b`slots, b`trace, b.transport`rx, b.transport`log, b.rxBuf, b.owners
    ensures a.Valid() && b.Valid() && Underway(b, reader, xs, j', n, evs + more)
    ensures b.trace == old(b.trace) + more
  {
    hide Session.Valid, Underway, F.Carried;
    j', more := j, [];
    assert evs + more == evs;
    var turns: nat := *;
    while turns > 0 && b.transport.rx != []
      invariant a.Valid() && b.Valid() && Underway(b, reader, xs, j', n, evs + more)
      invariant b.trace == old(b.trace) + more
    {
      ghost var taken := ReceiverTakesItem(a, b, reader, xs, j', n, evs + more);
      assert evs + more + taken == evs + (more + taken);
      j', more := j' + 1, more + taken;
      turns := turns - 1;
    }
  }

  lemma NoJoinsTogether(e: Trace, f: Trace)
    requires D.NoJoins(e) && D.NoJoins(f)
    ensures D.NoJoins(e + f)
  {
  }

  lemma OneFrameTaken(b: Session, reader: u16, xs: seq<Item>, j: nat, n: nat, evs: Trace)
    requires Underway(b, reader, xs, j, n, evs) && b.transport.rx != []
    requires forall k :: 0 <= k < |xs| ==> F.Carried(ItemFrames(xs, reader)[k], RX_BUF_SIZE)
    ensures j < n
    ensures F.TakeFrame(b.transport.rx, RX_BUF_SIZE)
         == F.Whole(ItemFrame(xs[j], reader), F.Join(ItemFrames(xs[j + 1..n], reader)))
  {
    hide ItemFrame, F.TakeFrame, F.Frame, D.FramesOf, D.NoJoins;
    var fs := ItemFrames(xs[j..n], reader);
    assert |fs| == n - j && fs != [];
    assert fs[1..] == ItemFrames(xs[j + 1..n], reader);
    assert F.Carried(ItemFrames(xs, reader)[j], RX_BUF_SIZE);
    F.TakeFrameExact(fs[0], F.Join(fs[1..]), RX_BUF_SIZE);
  }

  /** The last spin finds what is left of the items and ends with the stream. */
  lemma AllTaken(b: Session, reader: u16, xs: seq<Item>, j: nat, evs: Trace)
    requires Underway(b, reader, xs, j, |xs|, evs)
    requires forall k :: 0 <= k < |xs| ==> F.Carried(ItemFrames(xs, reader)[k], RX_BUF_SIZE)
    ensures
      var s := SpinFor(b.transport.rx);
      && s.error == Disconnected && s.rest == [] && D.NoJoins(evs)
      && D.FramesOf(evs) + s.frames == SpinFor(F.Join(ItemFrames(xs, reader))).frames
  {
    hide ItemFrames, SpinFor, F.Join, F.Carried, D.FramesOf, D.NoJoins;
    var fs, left := ItemFrames(xs, reader), ItemFrames(xs[j..], reader);
    ItemFramesSplit(xs, reader, j);
    forall k | 0 <= k < |left|
      ensures F.Carried(left[k], RX_BUF_SIZE)
    {
      assert left[k] == fs[j + k];
    }
    assert xs[j..|xs|] == xs[j..];
    SpinTakesAll(left);
    SpinTakesAll(fs);
  }

  lemma ItemFramesSplit(xs: seq<Item>, reader: u16, j: nat)
    requires j <= |xs|
    ensures ItemFrames(xs, reader) == ItemFrames(xs[..j], reader) + ItemFrames(xs[j..], reader)
  {
    hide ItemFrame;
  }

  lemma NothingRelayed(b: Session, reader: u16, xs: seq<Item>)
    requires b.transport.rx == []
    ensures Underway(b, reader, xs, 0, 0, [])
  {
    D.NoFrames();
    assert xs[0..0] == [] && xs[..0] == [];
  }

  lemma OneMoreItem(xs: seq<Item>, reader: u16, j: nat, n: nat)
    requires j <= n < |xs|
    ensures F.Join(ItemFrames(xs[j..n + 1], reader))
         == F.Join(ItemFrames(xs[j..n], reader)) + F.Frame(ItemFrame(xs[n], reader))
  {
    hide ItemFrame, F.Frame, F.Join;
    assert xs[j..n + 1] == xs[j..n] + [xs[n]];
    assert ItemFrames(xs[j..n + 1], reader) == ItemFrames(xs[j..n], reader) + [ItemFrame(xs[n], reader)];
    F.JoinAppend(ItemFrames(xs[j..n], reader), [ItemFrame(xs[n], reader)]);
    F.JoinOne(ItemFrame(xs[n], reader));
  }

  /** One item more in the stream. */
  method RelayItem(a: Session, p: Publisher, b: Session, reader: u16, xs: seq<Item>, n: nat, ghost j: nat, ghost evs: Trace)
    requires a.Valid() && b.Valid() && Apart(a, b) && a.transport.reliable && n < |xs| && Underway(b, reader, xs, j, n, evs)
    requires xs[n].Sample? ==> |EncodeAll(xs[n].m, 0)| <= BodyRoom(a.sessionId)
    modifies a`seqNo, a`history, a.transport`tx, a.transport`log, a.txBuf, b.transport`rx
    ensures a.Valid() && b.Valid() && Underway(b, reader, xs, j, n + 1, evs)
    ensures old(a.history) <= a.history && |a.history| == |old(a.history)| + if xs[n].Sample? then 1 else 0
  {
    hide Session.Valid, EncodeAll, DataFrame, SentBody, ItemFrames, F.Frame, F.Join, D.NoJoins, D.FramesOf;
    OneMoreItem(xs, reader, j, n);
    match xs[n]
    case Sample(m, r) =>
      FittingMessageIsSafe(m, 0, BodyRoom(a.sessionId));
      PublishRelay(a, p, b, m, r, reader);
    case Other(f) =>
      b.transport.rx := b.transport.rx + F.Frame(f);
  }

  /**
   * End to end: a session publishes, the agent relays each body among other traffic, and another
   * session, or the same one, spins in between and at the end. On error-free connections
   * everything published, and nothing else, reaches the subscription, in order, whatever polls
   * fall in between.
   */
  method PublishRelaySpin(a: Session, p: Publisher, b: Session, o: Subscription, xs: seq<Item>) returns (e: Error)
    requires a.Valid() && b.Valid() && Apart(a, b)
    requires a.transport.reliable && b.transport.reliable && b.transport.rx == []
    requires o in b.subscriptions && Reachable(b, o)
    requires AllAcceptable(b.sessionId, o.schema, o.drId, xs)
    requires forall k :: 0 <= k < |xs| && xs[k].Sample? ==> |EncodeAll(xs[k].m, 0)| <= BodyRoom(a.sessionId)
    requires |o.inbox| + |Samples(xs)| <= o.depth
    modifies a`seqNo, a`history, a.transport`tx, a.transport`log, a.txBuf
    modifies b`slots, b`trace, b.transport`rx, b.transport`log, b.rxBuf, b.owners
    ensures a.Valid() && b.Valid() && e == Disconnected && b.transport.rx == []
    ensures old(a.history) <= a.history && |a.history| == |old(a.history)| + |Samples(xs)|
    ensures o.taken + o.inbox == old(o.taken + o.inbox) + Samples(xs)
  {
    hide Session.Sound, Paced, EncodeAll, Acceptable, ItemFrames, Underway, SpinFor, F.Join, D.Run, D.Answers,
         D.FramesOf, D.NoJoins, D.SameShape;
    var reader := o.drId;
    ghost var k, was, before := b.OwnerOf(o), b.slots, b.trace;
    b.Recorded(o);
    ItemsCarried(b.sessionId, o.schema, reader, xs);
    NothingRelayed(b, reader, xs);
    ghost var j: nat, evs: Trace := 0, [];
    for n := 0 to |xs|
      invariant a.Valid() && b.Valid() && Underway(b, reader, xs, j, n, evs)
      invariant b.trace == before + evs
      invariant old(a.history) <= a.history && |a.history| == |old(a.history)| + |Samples(xs[..n])|
    {
      RelayItem(a, p, b, reader, xs, n, j, evs);
      assert xs[..n + 1][..n] == xs[..n];
      ghost var j', more := ReceiverTurns(a, b, reader, xs, j, n + 1, evs);
      assert before + evs + more == before + (evs + more);
      j, evs := j', evs + more;
    }
    assert xs[..|xs|] == xs;
    AllTaken(b, reader, xs, j, evs);
    ghost var rest;
    e, rest := ReceiverSpins(a, b);
    D.FramesOfAppend(evs, rest);
    NoJoinsTogether(evs, rest);
    b.Recorded(o);
    D.RunAppend(b.sessionId, [], before, evs + rest);
    assert before + evs + rest == before + (evs + rest);
    StreamArrives(b.sessionId, was, k, reader, xs, evs + rest);
  }
}
