/**
 * The client's messages in bytes: where each field stands and what is in it, with every constant
 * by value. `b` is the whole message, header first.
 */
module MessageLayout {
  import opened Bytes
  import opened Layout
  import opened Protocol
  import opened Cdr
  import opened AgentWire

  /** Length of the message header: 8 with a client key, 4 without. */
  function Behind(sid: byte): nat {
    if sid < 0x80 then 8 else 4
  }

  /** Session id, best-effort stream 1, sequence number, and the key for session ids below 0x80. */
  ghost predicate HeaderAt(b: seq<byte>, sid: byte, key: Key, seqNo: u16) {
    && |b| >= Behind(sid)
    && b[0] == sid && b[1] == 1 && U16At(b, 2, seqNo)
    && (sid < 0x80 ==> b[4..8] == key)
  }

  /** Submessage id, flags, and the length of all that follows them. */
  ghost predicate SubmessageAt(b: seq<byte>, h: nat, id: byte, flags: byte) {
    h + 4 <= |b| && b[h] == id && b[h + 1] == flags && U16At(b, h + 2, (|b| - h - 4) % 0x1_0000)
  }

  /** Request and object id, high byte first. */
  ghost predicate IdsAt(b: seq<byte>, at: nat, req: u16, oid: u16) {
    U16BeAt(b, at, req) && U16BeAt(b, at + 2, oid)
  }

  /** CREATE up to the end of the xml: kind, representation 2, two bytes of padding, count, text, terminator. */
  ghost predicate CreateAt(b: seq<byte>, h: nat, req: u16, oid: u16, kind: byte, xml: seq<byte>) {
    && h + 17 + |xml| <= |b|
    && SubmessageAt(b, h, 1, 7) && IdsAt(b, h + 4, req, oid)
    && b[h + 8] == kind && b[h + 9] == 2 && b[h + 10] == 0 && b[h + 11] == 0
    && U32At(b, h + 12, (|xml| + 1) % 0x1_0000_0000)
    && b[h + 16..h + 16 + |xml|] == xml && b[h + 16 + |xml|] == 0
  }

  /** A participant: kind 1, and behind the xml the domain in two bytes at an even distance. */
  ghost predicate ParticipantBytes(b: seq<byte>, sid: byte, key: Key, seqNo: u16, req: u16, oid: u16, xml: seq<byte>,
                                   domain: i16) {
    var h := Behind(sid);
    var at := h + 4 + Next(13 + |xml|, 2);
    && |b| == at + 2
    && HeaderAt(b, sid, key, seqNo) && CreateAt(b, h, req, oid, 1, xml)
    && ZeroAt(b, h + 17 + |xml|, at) && U16At(b, at, Pattern16(domain))
  }

  /** Any other entity: its kind, and right behind the xml the parent, high byte first. */
  ghost predicate ChildBytes(b: seq<byte>, sid: byte, key: Key, seqNo: u16, req: u16, oid: u16, kind: byte,
                             xml: seq<byte>, parent: u16) {
    var h := Behind(sid);
    && |b| == h + 19 + |xml|
    && HeaderAt(b, sid, key, seqNo) && CreateAt(b, h, req, oid, kind, xml) && U16BeAt(b, h + 17 + |xml|, parent)
  }

  /** READ_DATA, submessage 8: best-effort stream, data format 0, no filter, no delivery control. */
  ghost predicate ReadBytes(b: seq<byte>, sid: byte, key: Key, seqNo: u16, req: u16, reader: u16) {
    var h := Behind(sid);
    && |b| == h + 12
    && HeaderAt(b, sid, key, seqNo) && SubmessageAt(b, h, 8, 1) && IdsAt(b, h + 4, req, reader)
    && b[h + 8] == 1 && b[h + 9] == 0 && b[h + 10] == 0 && b[h + 11] == 0
  }

  /** WRITE_DATA, submessage 7: request 0, the writer, and the body. */
  ghost predicate WriteBytes(b: seq<byte>, sid: byte, key: Key, seqNo: u16, writer: u16, body: seq<byte>) {
    var h := Behind(sid);
    && |b| == h + 8 + |body|
    && HeaderAt(b, sid, key, seqNo) && SubmessageAt(b, h, 7, 1) && IdsAt(b, h + 4, 0, writer)
    && b[h + 8..] == body
  }

  /**
   * CREATE_CLIENT, submessage 0: under session id 0 or 0x80 on stream 0, with the cookie "XRCE",
   * version 1.0, eProsima's vendor id, the key, the session id asked for, no properties, the MTU.
   */
  ghost predicate ClientBytes(b: seq<byte>, sid: byte, key: Key, mtu: u16) {
    var h := Behind(sid);
    && |b| == h + 20
    && b[0] == (if sid < 0x80 then 0 else 0x80) && b[1] == 0 && b[2] == 0 && b[3] == 0
    && (sid < 0x80 ==> b[4..8] == key)
    && SubmessageAt(b, h, 0, 1)
    && b[h + 4..h + 12] == [0x58, 0x52, 0x43, 0x45, 1, 0, 1, 15]
    && b[h + 12..h + 16] == key && b[h + 16] == sid && b[h + 17] == 0
    && U16At(b, h + 18, mtu)
  }

  // ---- the messages have these layouts ----

  /** A message header on its own, on any stream. */
  ghost predicate HdrAt(b: seq<byte>, sid: byte, key: Key, stream: byte, seqNo: u16) {
    |b| == Behind(sid) && b[0] == sid && b[1] == stream && U16At(b, 2, seqNo) && (sid < 0x80 ==> b[4..] == key)
  }

  lemma HdrInBytes(sid: byte, key: Key, stream: byte, seqNo: u16)
    ensures HdrAt(HdrBytes(SessionHdr(sid, key, stream, seqNo)), sid, key, stream, seqNo)
  {
    Word16InBytes(seqNo);
  }

  /** Header and submessage header, and the payload behind them. */
  lemma FrontInBytes(sid: byte, key: Key, stream: byte, seqNo: u16, id: byte, flags: byte, payload: seq<byte>)
    ensures
      var b := HdrBytes(SessionHdr(sid, key, stream, seqNo)) + Submessage(id, flags, payload);
      var h := Behind(sid);
      && |b| == h + 4 + |payload| && b[h + 4..] == payload
      && b[0] == sid && b[1] == stream && U16At(b, 2, seqNo) && (sid < 0x80 ==> b[4..8] == key)
      && SubmessageAt(b, h, id, flags)
      && (stream == 1 ==> HeaderAt(b, sid, key, seqNo))
  {
    var head := HdrBytes(SessionHdr(sid, key, stream, seqNo));
    var h := Behind(sid);
    var n := Le16(|payload| % 0x1_0000);
    var b := head + Submessage(id, flags, payload);
    Word16InBytes(seqNo);
    Word16InBytes(|payload| % 0x1_0000);
    assert |head| == h && head[0] == sid && head[1] == stream;
    assert b[2] == Le16(seqNo)[0] && b[3] == Le16(seqNo)[1];
    assert b[h + 2] == n[0] && b[h + 3] == n[1];
    assert sid < 0x80 ==> b[4..8] == key;
  }

  lemma IdsInBytes(req: u16, oid: u16, rest: seq<byte>)
    ensures IdsAt(ObjectRequest(req, oid) + rest, 0, req, oid) && (ObjectRequest(req, oid) + rest)[4..] == rest
  {
    Word16InBytes(req);
    Word16InBytes(oid);
  }

  /** The payload of a CREATE up to the end of the xml, whatever follows. */
  ghost predicate CreatePayloadAt(p: seq<byte>, req: u16, oid: u16, kind: byte, xml: seq<byte>) {
    && 13 + |xml| <= |p|
    && IdsAt(p, 0, req, oid)
    && p[4] == kind && p[5] == 2 && p[6] == 0 && p[7] == 0
    && U32At(p, 8, (|xml| + 1) % 0x1_0000_0000)
    && p[12..12 + |xml|] == xml && p[12 + |xml|] == 0
  }

  lemma CreatePrefixParts(req: u16, oid: u16, kind: byte, xml: seq<byte>)
    ensures CreatePrefix(req, oid, kind, xml)
         == (ObjectRequest(req, oid) + [kind, 2, 0, 0]) + Le((|xml| + 1) % 0x1_0000_0000, 4) + (xml + [0])
  {
    hide Le, ObjectRequest, Pad;
    TwoPadding();
    Regroup(ObjectRequest(req, oid), [kind, 2], Pad(6, 4), Le((|xml| + 1) % 0x1_0000_0000, 4), xml, [0]);
    FourBytes(kind);
  }

  lemma FourBytes(kind: byte)
    ensures [kind, 2] + [0, 0] == [kind, 2, 0, 0]
  {
  }

  lemma TwoPadding()
    ensures Pad(6, 4) == [0, 0]
  {
  }

  lemma Regroup(a: seq<byte>, b: seq<byte>, c: seq<byte>, d: seq<byte>, e: seq<byte>, f: seq<byte>)
    ensures a + b + (c + d + e + f) == (a + (b + c)) + d + (e + f)
  {
  }

  lemma CreatePrefixInBytes(req: u16, oid: u16, kind: byte, xml: seq<byte>, rest: seq<byte>)
    ensures
      var p := CreatePrefix(req, oid, kind, xml) + rest;
      |CreatePrefix(req, oid, kind, xml)| == 13 + |xml| && CreatePayloadAt(p, req, oid, kind, xml)
  {
    hide CreatePrefix, Le, ObjectRequest, IdsAt, U32At;
    CreatePrefixParts(req, oid, kind, xml);
    var count: u32 := (|xml| + 1) % 0x1_0000_0000;
    var front, c, tail := ObjectRequest(req, oid) + [kind, 2, 0, 0], Le(count, 4), xml + [0] + rest;
    var p := CreatePrefix(req, oid, kind, xml) + rest;
    RequestLen(req, oid);
    assert p == front + c + tail;
    Le4InBytes(count);
    WordInside(front, c, tail, count);
    IdsInBytes(req, oid, [kind, 2, 0, 0] + c + tail);
    assert p == ObjectRequest(req, oid) + ([kind, 2, 0, 0] + c + tail);
    assert p[4] == front[4] && p[5] == front[5] && p[6] == front[6] && p[7] == front[7];
    assert p[12..] == tail;
    assert p[12..12 + |xml|] == tail[..|xml|];
  }

  lemma RequestLen(req: u16, oid: u16)
    ensures |ObjectRequest(req, oid)| == 4
  {
  }

  lemma WordInside(pre: seq<byte>, w: seq<byte>, suf: seq<byte>, v: nat)
    requires U32At(w, 0, v)
    ensures U32At(pre + w + suf, |pre|, v)
  {
  }

  /** The payload's layout is the message's, `h + 4` bytes further on. */
  lemma CreateInBytes(b: seq<byte>, h: nat, p: seq<byte>, req: u16, oid: u16, kind: byte, xml: seq<byte>)
    requires h + 4 <= |b| && b[h + 4..] == p && SubmessageAt(b, h, 1, 7)
    requires CreatePayloadAt(p, req, oid, kind, xml)
    ensures CreateAt(b, h, req, oid, kind, xml)
  {
    assert forall i :: 0 <= i < |p| ==> b[h + 4 + i] == p[i];
    assert b[h + 16..h + 16 + |xml|] == p[12..12 + |xml|];
  }

  lemma ParticipantInBytes(sid: byte, key: Key, seqNo: u16, req: u16, oid: u16, xml: seq<byte>, domain: i16)
    ensures ParticipantBytes(Wire(CreateParticipant(SessionHdr(sid, key, STREAM_BEST_EFFORT, seqNo), req, oid, xml, domain)),
                             sid, key, seqNo, req, oid, xml, domain)
  {
    hide HdrBytes, Submessage, CreatePrefix, HeaderAt, SubmessageAt, CreatePayloadAt, CreateAt, Le16, U16At;
    var m := CreateParticipant(SessionHdr(sid, key, STREAM_BEST_EFFORT, seqNo), req, oid, xml, domain);
    var b, p := Wire(m), Payload(m);
    var h := Behind(sid);
    var c := CreatePrefix(req, oid, ENTITY_PARTICIPANT, xml);
    var rest := Pad(|c|, 2) + Le16(Bits16(domain));
    CreatePrefixInBytes(req, oid, ENTITY_PARTICIPANT, xml, rest);
    assert p == c + rest;
    FrontInBytes(sid, key, STREAM_BEST_EFFORT, seqNo, SUBMSG_CREATE, FLAGS_CREATE, p);
    CreateInBytes(b, h, p, req, oid, ENTITY_PARTICIPANT, xml);
    NextIsAlignUp(|c|, 2);
    PatternsAreBits(0, domain);
    Word16InBytes(Bits16(domain));
    LastWord(b, h + 4 + |c|, Pad(|c|, 2), Le16(Bits16(domain)), Bits16(domain));
  }

  /** Padding and a word at the end of a message. */
  lemma LastWord(b: seq<byte>, from: nat, pad: seq<byte>, w: seq<byte>, v: u16)
    requires from <= |b| && b[from..] == pad + w && U16At(w, 0, v) && |w| == 2 && forall i :: 0 <= i < |pad| ==> pad[i] == 0
    ensures ZeroAt(b, from, from + |pad|) && U16At(b, from + |pad|, v)
  {
    var t := b[from..];
    assert forall i :: 0 <= i < |t| ==> b[from + i] == t[i];
    forall i | from <= i < from + |pad|
      ensures b[i] == 0
    {
      assert b[i] == t[i - from];
    }
    assert b[from + |pad|] == t[|pad|] == w[0] && b[from + |pad| + 1] == t[|pad| + 1] == w[1];
  }

  lemma ChildInBytes(sid: byte, key: Key, seqNo: u16, req: u16, oid: u16, kind: byte, xml: seq<byte>, parent: u16)
    ensures ChildBytes(Wire(CreateChild(SessionHdr(sid, key, STREAM_BEST_EFFORT, seqNo), req, oid, kind, xml, parent)),
                       sid, key, seqNo, req, oid, kind, xml, parent)
  {
    hide HdrBytes, Submessage, CreatePrefix, HeaderAt, SubmessageAt, CreatePayloadAt, CreateAt, Be16;
    var m := CreateChild(SessionHdr(sid, key, STREAM_BEST_EFFORT, seqNo), req, oid, kind, xml, parent);
    var b, p := Wire(m), Payload(m);
    var h := Behind(sid);
    var c := CreatePrefix(req, oid, kind, xml);
    CreatePrefixInBytes(req, oid, kind, xml, Be16(parent));
    FrontInBytes(sid, key, STREAM_BEST_EFFORT, seqNo, SUBMSG_CREATE, FLAGS_CREATE, p);
    CreateInBytes(b, h, p, req, oid, kind, xml);
    Word16InBytes(parent);
    assert b[h + 17 + |xml|] == p[|c|] == Be16(parent)[0] && b[h + 18 + |xml|] == p[|c| + 1] == Be16(parent)[1];
  }

  lemma ReadInBytes(sid: byte, key: Key, seqNo: u16, req: u16, reader: u16)
    ensures ReadBytes(Wire(ReadData(SessionHdr(sid, key, STREAM_BEST_EFFORT, seqNo), req, reader)),
                      sid, key, seqNo, req, reader)
  {
    hide HdrBytes, Submessage, HeaderAt, SubmessageAt, Be16;
    var m := ReadData(SessionHdr(sid, key, STREAM_BEST_EFFORT, seqNo), req, reader);
    var b, p := Wire(m), Payload(m);
    var h := Behind(sid);
    FrontInBytes(sid, key, STREAM_BEST_EFFORT, seqNo, SUBMSG_READ_DATA, FLAG_LE, p);
    IdsInBytes(req, reader, [STREAM_BEST_EFFORT, FORMAT_DATA, 0, 0]);
    assert forall i :: 0 <= i < |p| ==> b[h + 4 + i] == p[i];
  }

  lemma WriteInBytes(sid: byte, key: Key, seqNo: u16, writer: u16, body: seq<byte>)
    ensures WriteBytes(Wire(WriteData(SessionHdr(sid, key, STREAM_BEST_EFFORT, seqNo), writer, body)),
                       sid, key, seqNo, writer, body)
  {
    hide HdrBytes, Submessage, HeaderAt, SubmessageAt, Be16;
    var m := WriteData(SessionHdr(sid, key, STREAM_BEST_EFFORT, seqNo), writer, body);
    var b, p := Wire(m), Payload(m);
    var h := Behind(sid);
    FrontInBytes(sid, key, STREAM_BEST_EFFORT, seqNo, SUBMSG_WRITE_DATA, FLAG_LE, p);
    IdsInBytes(0, writer, body);
    assert forall i :: 0 <= i < |p| ==> b[h + 4 + i] == p[i];
    assert b[h + 8..] == p[4..];
  }

  lemma ClientInBytes(sid: byte, key: Key, mtu: u16)
    ensures ClientBytes(Wire(CreateClient(sid, key, mtu)), sid, key, mtu)
  {
    hide HdrBytes, Submessage, SubmessageAt, Le16;
    var m := CreateClient(sid, key, mtu);
    var b, p := Wire(m), Payload(m);
    var h := Behind(sid);
    FrontInBytes(HdrOf(m).sid, key, STREAM_NONE, 0, SUBMSG_CREATE_CLIENT, FLAG_LE, p);
    Word16InBytes(mtu);
    assert forall i :: 0 <= i < |p| ==> b[h + 4 + i] == p[i];
    assert p == [0x58, 0x52, 0x43, 0x45, 1, 0, 1, 15] + key + ([sid, 0] + Le16(mtu));
    assert p[..8] == [0x58, 0x52, 0x43, 0x45, 1, 0, 1, 15] && p[8..12] == key;
    assert b[h + 4..h + 12] == p[..8] && b[h + 12..h + 16] == p[8..12];
    assert p[14] == Le16(mtu)[0] && p[15] == Le16(mtu)[1];
  }
}
