/**
 * The messages a client sends, the bytes it sends for each, and a reference agent decoder that
 * reads those bytes back.
 */
module AgentWire {
  import opened Bytes
  import opened Protocol
  import opened Cdr

  /** Message header: the client key is present only for session ids below 0x80. */
  datatype Hdr = Hdr(sid: byte, stream: byte, seqNo: u16, key: seq<byte>)

  datatype AgentMsg =
    | CreateClient(sid: byte, clientKey: Key, mtu: u16)
    | CreateParticipant(hdr: Hdr, req: u16, oid: u16, xml: seq<byte>, domain: i16)
    | CreateChild(hdr: Hdr, req: u16, oid: u16, kind: byte, xml: seq<byte>, parent: u16)
    | ReadData(hdr: Hdr, req: u16, reader: u16)
    | WriteData(hdr: Hdr, writer: u16, body: seq<byte>)

  function HdrLen(sid: byte): nat {
    if sid < SESSION_ID_WITHOUT_CLIENT_KEY then 8 else 4
  }

  predicate GoodHdr(h: Hdr) {
    |h.key| == if h.sid < SESSION_ID_WITHOUT_CLIENT_KEY then 4 else 0
  }

  /** The header of a session with this id and key. */
  function SessionHdr(sid: byte, key: Key, stream: byte, seqNo: u16): (h: Hdr)
    ensures GoodHdr(h)
  {
    Hdr(sid, stream, seqNo, if sid < SESSION_ID_WITHOUT_CLIENT_KEY then key else [])
  }

  function HdrBytes(h: Hdr): seq<byte> {
    [h.sid, h.stream] + Le16(h.seqNo) + h.key
  }

  function Submessage(id: byte, flags: byte, payload: seq<byte>): seq<byte> {
    [id, flags] + Le16(|payload| % 0x1_0000) + payload
  }

  // ---- payloads ----

  function ObjectRequest(req: u16, oid: u16): seq<byte> {
    Be16(req) + Be16(oid)
  }

  function CreatePrefix(req: u16, oid: u16, kind: byte, xml: seq<byte>): seq<byte> {
    ObjectRequest(req, oid) + [kind, REPR_AS_XML] + Encode(Str(xml), 6)
  }

  function Payload(m: AgentMsg): seq<byte> {
    match m
    case CreateClient(sid, key, mtu) =>
      XRCE_COOKIE + XRCE_VERSION + VENDOR_ID_EPROSIMA + key + [sid, 0] + Le16(mtu)
    case CreateParticipant(_, req, oid, xml, domain) =>
      var p := CreatePrefix(req, oid, ENTITY_PARTICIPANT, xml);
      p + Pad(|p|, 2) + Le16(Bits16(domain))
    case CreateChild(_, req, oid, kind, xml, parent) =>
      CreatePrefix(req, oid, kind, xml) + Be16(parent)
    case ReadData(_, req, reader) =>
      ObjectRequest(req, reader) + [STREAM_BEST_EFFORT, FORMAT_DATA, 0, 0]
    case WriteData(_, writer, body) =>
      ObjectRequest(0, writer) + body
  }

  function SubmessageId(m: AgentMsg): byte {
    match m
    case CreateClient(_, _, _) => SUBMSG_CREATE_CLIENT
    case CreateParticipant(_, _, _, _, _) => SUBMSG_CREATE
    case CreateChild(_, _, _, _, _, _) => SUBMSG_CREATE
    case ReadData(_, _, _) => SUBMSG_READ_DATA
    case WriteData(_, _, _) => SUBMSG_WRITE_DATA
  }

  function Flags(m: AgentMsg): byte {
    if SubmessageId(m) == SUBMSG_CREATE then FLAGS_CREATE else FLAG_LE
  }

  /** CREATE_CLIENT goes out under the masked session id, before any session exists. */
  function HdrOf(m: AgentMsg): Hdr {
    match m
    case CreateClient(sid, key, _) =>
      SessionHdr(if sid < SESSION_ID_WITHOUT_CLIENT_KEY then 0 else SESSION_ID_WITHOUT_CLIENT_KEY, key, STREAM_NONE, 0)
    case _ => m.hdr
  }

  /** The bytes of a message on the wire. */
  function Wire(m: AgentMsg): seq<byte> {
    HdrBytes(HdrOf(m)) + Submessage(SubmessageId(m), Flags(m), Payload(m))
  }

  // ---- the reference agent decoder ----

  function Parse(b: seq<byte>): Option<AgentMsg> {
    if |b| < 4 || |b| < HdrLen(b[0]) + 4 then None
    else
      var n := HdrLen(b[0]);
      var hdr := Hdr(b[0], b[1], FromLe16(b[2], b[3]), b[4..n]);
      if |b| != n + 4 + FromLe16(b[n + 2], b[n + 3]) then None
      else ParsePayload(hdr, b[n], b[n + 1], b[n + 4..])
  }

  function ParsePayload(hdr: Hdr, id: byte, flags: byte, p: seq<byte>): Option<AgentMsg> {
    if id == SUBMSG_CREATE_CLIENT && flags == FLAG_LE then ParseCreateClient(p)
    else if |p| < 4 then None
    else
      var req := FromBe16(p[0], p[1]);
      var oid := FromBe16(p[2], p[3]);
      if id == SUBMSG_CREATE && flags == FLAGS_CREATE then ParseCreate(hdr, req, oid, p)
      else if id == SUBMSG_READ_DATA && flags == FLAG_LE && p[4..] == [STREAM_BEST_EFFORT, FORMAT_DATA, 0, 0] then
        Some(ReadData(hdr, req, oid))
      else if id == SUBMSG_WRITE_DATA && flags == FLAG_LE && req == 0 then
        Some(WriteData(hdr, oid, p[4..]))
      else None
  }

  function ParseCreateClient(p: seq<byte>): Option<AgentMsg> {
    if |p| == 16 && p[..8] == XRCE_COOKIE + XRCE_VERSION + VENDOR_ID_EPROSIMA && p[13] == 0 then
      Some(CreateClient(p[12], p[8..12], FromLe16(p[14], p[15])))
    else None
  }

  function ParseCreate(hdr: Hdr, req: u16, oid: u16, p: seq<byte>): Option<AgentMsg> {
    if |p| < 6 || p[5] != REPR_AS_XML then None
    else
      match ReadString(p, 6)
      case Short(_) => None
      case Got(xml, e) =>
        if p[4] == ENTITY_PARTICIPANT then
          if |p| == AlignUp(e, 2) + 2 then
            Some(CreateParticipant(hdr, req, oid, xml, FromBits16(FromLe16(p[|p| - 2], p[|p| - 1]))))
          else None
        else if |p| == e + 2 then
          Some(CreateChild(hdr, req, oid, p[4], xml, FromBe16(p[e], p[e + 1])))
        else None
  }

  // ---- the decoder inverts the encoders ----

  predicate WellFormed(m: AgentMsg) {
    && GoodHdr(HdrOf(m))
    && (m.CreateChild? ==> m.kind != ENTITY_PARTICIPANT)
  }

  lemma Be16RoundTrip(v: u16)
    ensures FromBe16(Be16(v)[0], Be16(v)[1]) == v
  {
  }

  lemma Le16RoundTrip(v: u16)
    ensures FromLe16(Le16(v)[0], Le16(v)[1]) == v
  {
  }

  /** Header, submessage header and payload are recovered whenever the length field is exact. */
  lemma ParseFrame(h: Hdr, id: byte, flags: byte, p: seq<byte>)
    requires GoodHdr(h)
    ensures Parse(HdrBytes(h) + Submessage(id, flags, p))
         == if |p| < 0x1_0000 then ParsePayload(h, id, flags, p) else None
  {
    hide ParsePayload;
    var b := HdrBytes(h) + Submessage(id, flags, p);
    var n := HdrLen(h.sid);
    Le16RoundTrip(h.seqNo);
    Le16RoundTrip(|p| % 0x1_0000);
    assert |HdrBytes(h)| == n;
    assert b[0] == h.sid && b[1] == h.stream && b[2] == Le16(h.seqNo)[0] && b[3] == Le16(h.seqNo)[1];
    assert b[4..n] == h.key;
    assert b[n] == id && b[n + 1] == flags;
    assert b[n + 2] == Le16(|p| % 0x1_0000)[0] && b[n + 3] == Le16(|p| % 0x1_0000)[1];
    assert b[n + 4..] == p;
  }

  lemma ParseCreateClientPayload(m: AgentMsg)
    requires m.CreateClient?
    ensures |Payload(m)| == 16 && ParseCreateClient(Payload(m)) == Some(m)
  {
    var p := Payload(m);
    assert p[8..12] == m.clientKey;
    assert p[..8] == XRCE_COOKIE + XRCE_VERSION + VENDOR_ID_EPROSIMA;
    assert p[14] == Le16(m.mtu)[0] && p[15] == Le16(m.mtu)[1];
  }

  /** The xml of a CREATE payload, whatever follows it. */
  lemma ReadCreatePrefix(req: u16, oid: u16, kind: byte, xml: seq<byte>, rest: seq<byte>)
    requires |xml| < 0xFFFF_FFFF
    ensures
      var c := CreatePrefix(req, oid, kind, xml);
      var p := c + rest;
      && |c| == 13 + |xml|
      && FromBe16(p[0], p[1]) == req && FromBe16(p[2], p[3]) == oid && p[4] == kind && p[5] == REPR_AS_XML
      && ReadString(p, 6) == Got(xml, |c|)
      && p[|c|..] == rest
  {
    hide ReadString, StringCount, Le;
    var pre := ObjectRequest(req, oid) + [kind, REPR_AS_XML];
    StringRoundTrip(pre, xml, rest);
    assert CreatePrefix(req, oid, kind, xml) + rest == pre + Encode(Str(xml), |pre|) + rest;
  }

  lemma ParseCreatePayload(m: AgentMsg)
    requires m.CreateParticipant? || m.CreateChild?
    requires WellFormed(m) && |m.xml| < 0xFFFF_FFFF
    ensures |Payload(m)| >= 6 && ParseCreate(m.hdr, m.req, m.oid, Payload(m)) == Some(m)
    ensures FromBe16(Payload(m)[0], Payload(m)[1]) == m.req && FromBe16(Payload(m)[2], Payload(m)[3]) == m.oid
  {
    hide ReadString, Encode, CreatePrefix;
    var p := Payload(m);
    match m
    case CreateParticipant(_, req, oid, xml, domain) =>
      var c := CreatePrefix(req, oid, ENTITY_PARTICIPANT, xml);
      var rest := Pad(|c|, 2) + Le16(Bits16(domain));
      ReadCreatePrefix(req, oid, ENTITY_PARTICIPANT, xml, rest);
      assert p == c + rest;
      assert p[|p| - 2] == Le16(Bits16(domain))[0] && p[|p| - 1] == Le16(Bits16(domain))[1];
    case CreateChild(_, req, oid, kind, xml, parent) =>
      ReadCreatePrefix(req, oid, kind, xml, Be16(parent));
      assert p[|p| - 2] == Be16(parent)[0] && p[|p| - 1] == Be16(parent)[1];
  }

  lemma RequestRoundTrip(req: u16, oid: u16, rest: seq<byte>)
    ensures
      var p := ObjectRequest(req, oid) + rest;
      FromBe16(p[0], p[1]) == req && FromBe16(p[2], p[3]) == oid && p[4..] == rest
  {
    Be16RoundTrip(req);
    Be16RoundTrip(oid);
  }

  lemma ParseReadPayload(m: AgentMsg)
    requires m.ReadData?
    ensures ParsePayload(m.hdr, SUBMSG_READ_DATA, FLAG_LE, Payload(m)) == Some(m)
  {
    hide ParseCreate, ParseCreateClient, FromBe16, Be16;
    RequestRoundTrip(m.req, m.reader, [STREAM_BEST_EFFORT, FORMAT_DATA, 0, 0]);
  }

  lemma ParseWritePayload(m: AgentMsg)
    requires m.WriteData?
    ensures ParsePayload(m.hdr, SUBMSG_WRITE_DATA, FLAG_LE, Payload(m)) == Some(m)
  {
    hide ParseCreate, ParseCreateClient, FromBe16, Be16;
    RequestRoundTrip(0, m.writer, m.body);
  }

  lemma ParsePayloadOf(m: AgentMsg)
    requires WellFormed(m) && |Payload(m)| < 0x1_0000
    ensures ParsePayload(HdrOf(m), SubmessageId(m), Flags(m), Payload(m)) == Some(m)
  {
    if m.ReadData? {
      ParseReadPayload(m);
    } else if m.WriteData? {
      ParseWritePayload(m);
    } else {
      hide ParseCreate, ParseCreateClient, Payload;
      if m.CreateClient? {
        ParseCreateClientPayload(m);
      } else {
        XmlIsShort(m);
        ParseCreatePayload(m);
      }
    }
  }

  /**
   * The agent recovers every field of every message the client encodes, keyed or not, exactly
   * when the payload length is representable in the 16-bit submessage length.
   */
  lemma AgentRecoversMessage(m: AgentMsg)
    requires WellFormed(m)
    ensures Parse(Wire(m)) == Some(m) <==> |Payload(m)| < 0x1_0000
  {
    hide Parse, ParsePayload, HdrBytes, Submessage, Payload, SubmessageId, Flags, HdrOf;
    ParseFrame(HdrOf(m), SubmessageId(m), Flags(m), Payload(m));
    if |Payload(m)| < 0x1_0000 {
      ParsePayloadOf(m);
    }
  }

  lemma XmlIsShort(m: AgentMsg)
    requires m.CreateParticipant? || m.CreateChild?
    ensures |m.xml| < |Payload(m)|
  {
  }

  /** Two messages with the same bytes are the same message. */
  lemma WireInjective(m: AgentMsg, n: AgentMsg)
    requires WellFormed(m) && WellFormed(n)
    requires |Payload(m)| < 0x1_0000 && |Payload(n)| < 0x1_0000
    requires Wire(m) == Wire(n)
    ensures m == n
  {
    hide Parse, Wire, Payload;
    AgentRecoversMessage(m);
    AgentRecoversMessage(n);
  }
}
