/**
 * The bounded in-place message writer and the encoders built on it. The writer covers the slice
 * `buf[..hi]` and keeps counting past its end; `ideal` is what an unbounded buffer would hold.
 */
module MsgWriting {
  import opened Bytes
  import opened Protocol
  import opened Cdr
  import opened AgentWire
  import L = MessageLayout

  /** The two length bytes at `offset`, overwritten. */
  function Patched(s: seq<byte>, offset: nat, value: u16): seq<byte>
    requires offset + 2 <= |s|
  {
    s[offset := value % 0x100][offset + 1 := value / 0x100]
  }

  /** As much of the patch as falls inside `s`. */
  function PatchedWithin(s: seq<byte>, offset: nat, value: u16): (r: seq<byte>)
    ensures |r| == |s|
  {
    if offset + 2 <= |s| then Patched(s, offset, value)
    else if offset + 1 == |s| then s[offset := value % 0x100]
    else s
  }

  /** Where a message header slices the buffer: sequence number and, if there is one, key. */
  function HdrStarts(sid: byte, pos: nat): seq<int> {
    [pos + 2] + if sid < SESSION_ID_WITHOUT_CLIENT_KEY then [pos + 4] else []
  }

  /** Where the common part of the CREATE encoders does: header, length, ids, string count and text. */
  function CreateStarts(sid: byte): seq<int> {
    var h := HdrLen(sid);
    HdrStarts(sid, 0) + [h + 2, h + 4, h + 6, h + 12, h + 16]
  }

  class MsgWriter {
    const buf: array<byte>
    const hi: nat
    var pos: nat
    var overflow: bool
    ghost var base: seq<byte>
    ghost var ideal: seq<byte>
    ghost var starts: seq<int> // where the slices of the buffer so far began
    ghost var stray: bool // a patch fell neither in the slice nor in the message

    ghost predicate Valid()
      reads this, buf
    {
      && hi <= buf.Length == |base|
      && pos == |ideal|
      && buf[..] == Overlay(base, 0, hi, ideal)
      && (overflow ==> pos > hi || stray)
      && (stray ==> overflow)
    }

    constructor (buf: array<byte>, hi: nat)
      requires hi <= buf.Length
      ensures this.buf == buf && this.hi == hi && Valid() && ideal == [] && starts == [] && base == buf[..] && !stray
    {
      this.buf, this.hi, pos, overflow := buf, hi, 0, false;
      base, ideal, starts, stray := buf[..], [], [], false;
    }

    /** The flag means exactly that the ideal message does not fit, or that a patch went astray. */
    predicate Overflow()
      requires Valid()
      reads this, buf
      ensures Overflow() <==> |ideal| > hi || stray
    {
      overflow || pos > hi
    }

    method U8(v: byte)
      requires Valid()
      modifies `pos, `overflow, `ideal, buf
      ensures Valid() && ideal == old(ideal) + [v]
    {
      if pos < hi {
        buf[pos] := v;
      } else {
        overflow := true;
      }
      pos := pos + 1;
      ideal := ideal + [v];
    }

    /** Slices the buffer at `pos` even for an empty argument, so `pos` must lie in the slice. */
    method Put(data: seq<byte>)
      requires Valid() && pos <= hi
      modifies `pos, `overflow, `ideal, `starts, buf
      ensures Valid() && ideal == old(ideal) + data && starts == old(starts) + [old(pos)]
    {
      var space := hi - pos;
      if |data| > space {
        overflow := true;
      }
      var n := Min(|data|, space);
      forall i | 0 <= i < n {
        buf[pos + i] := data[i];
      }
      starts := starts + [pos];
      pos := pos + |data|;
      ideal := ideal + data;
    }

    method U16Raw(v: u16)
      requires Valid() && pos <= hi
      modifies `pos, `overflow, `ideal, `starts, buf
      ensures Valid() && ideal == old(ideal) + Le16(v) && starts == old(starts) + [old(pos)]
    {
      Put(Le16(v));
    }

    /** Alignment relative to `origin`; `align_buf` is the case `origin == 0`. */
    method CdrAlign(origin: nat, n: nat)
      requires Valid() && origin <= pos && n > 0
      modifies `pos, `overflow, `ideal, buf
      ensures Valid() && ideal == old(ideal) + Pad(old(pos) - origin, n)
    {
      var rem := (pos - origin) % n;
      if rem != 0 {
        for k := 0 to n - rem
          invariant Valid() && ideal == old(ideal) + Zeros(k)
        {
          U8(0);
        }
      }
    }

    method AlignBuf(n: nat)
      requires Valid() && n > 0
      modifies `pos, `overflow, `ideal, buf
      ensures Valid() && ideal == old(ideal) + Pad(old(pos), n)
    {
      CdrAlign(0, n);
    }

    method CdrU16(v: u16, origin: nat)
      requires Valid() && origin <= pos && origin + AlignUp(pos - origin, 2) <= hi
      modifies `pos, `overflow, `ideal, `starts, buf
      ensures Valid() && ideal == old(ideal) + (Pad(old(pos) - origin, 2) + Le16(v))
      ensures starts == old(starts) + [origin + AlignUp(old(pos) - origin, 2)]
    {
      hide Pad;
      CdrAlign(origin, 2);
      Put(Le16(v));
    }

    method CdrI16(v: i16, origin: nat)
      requires Valid() && origin <= pos && origin + AlignUp(pos - origin, 2) <= hi
      modifies `pos, `overflow, `ideal, `starts, buf
      ensures Valid() && ideal == old(ideal) + (Pad(old(pos) - origin, 2) + Le16(Bits16(v)))
      ensures starts == old(starts) + [origin + AlignUp(old(pos) - origin, 2)]
    {
      hide Pad;
      CdrAlign(origin, 2);
      Put(Le16(Bits16(v)));
    }

    method CdrU32(v: u32, origin: nat)
      requires Valid() && origin <= pos && origin + AlignUp(pos - origin, 4) <= hi
      modifies `pos, `overflow, `ideal, `starts, buf
      ensures Valid() && ideal == old(ideal) + (Pad(old(pos) - origin, 4) + Le(v, 4))
      ensures starts == old(starts) + [origin + AlignUp(old(pos) - origin, 4)]
    {
      hide Pad, Le;
      CdrAlign(origin, 4);
      Put(Le(v, 4));
    }

    method CdrString(s: seq<byte>, origin: nat) returns (r: Result<()>)
      requires Valid() && origin <= pos && origin + AlignUp(pos - origin, 4) + 4 <= hi
      modifies `pos, `overflow, `ideal, `starts, buf
      ensures Valid() && ideal == old(ideal) + Encode(Str(s), |old(ideal)| - origin)
      ensures
        var at := origin + AlignUp(old(pos) - origin, 4);
        starts == old(starts) + [at, at + 4]
      ensures r == if |ideal| > hi || stray then Err(BufferTooSmall) else Ok(())
    {
      hide Pad, Le, StringCount, Overlay;
      CdrU32(StringCount(s), origin);
      Put(s);
      U8(0);
      assert ideal == old(ideal) + (Pad(old(pos) - origin, 4) + Le(StringCount(s), 4) + s + [0]);
      if Overflow() {
        return Err(BufferTooSmall);
      }
      return Ok(());
    }

    /**
     * Patching changes two bytes of the slice and nothing else, wherever they are; out of the
     * slice it only marks overflow.
     */
    method PatchU16At(offset: nat, value: u16)
      requires Valid()
      modifies `overflow, `ideal, `base, `stray, buf
      ensures Valid()
      ensures offset + 2 <= hi ==>
        && buf[..] == Patched(old(buf[..]), offset, value)
        && ideal == PatchedWithin(old(ideal), offset, value)
        && stray == old(stray) && (offset + 2 <= pos ==> base == old(base))
      ensures offset + 2 > hi ==>
        && buf[..] == old(buf[..]) && ideal == old(ideal) && base == old(base)
        && overflow && stray == (old(stray) || pos <= hi)
    {
      hide Overlay, PatchedWithin;
      if offset + 2 <= hi {
        PatchOverlay(base, hi, ideal, offset, value);
        buf[offset] := value % 0x100;
        buf[offset + 1] := value / 0x100;
        base := if offset + 2 <= pos then base else Patched(base, offset, value);
        ideal := PatchedWithin(ideal, offset, value);
      } else {
        overflow := true;
        stray := stray || pos <= hi;
      }
    }

    method WriteSessionHeader(sid: byte, stream: byte, seqNo: u16, key: Key)
      requires Valid() && pos + (if sid < SESSION_ID_WITHOUT_CLIENT_KEY then 4 else 2) <= hi
      modifies `pos, `overflow, `ideal, `starts, buf
      ensures Valid() && ideal == old(ideal) + HdrBytes(SessionHdr(sid, key, stream, seqNo))
      ensures starts == old(starts) + HdrStarts(sid, old(pos))
      ensures L.HdrAt(ideal[|old(ideal)|..], sid, key, stream, seqNo)
    {
      hide Overlay, L.HdrAt;
      L.HdrInBytes(sid, key, stream, seqNo);
      U8(sid);
      U8(stream);
      U16Raw(seqNo);
      if sid < SESSION_ID_WITHOUT_CLIENT_KEY {
        Put(key);
      }
    }

    /** Opens a submessage with a zero length field, to be patched once the payload is known. */
    method OpenSubmessage(id: byte, flags: byte)
      requires Valid() && pos % 4 == 0 && pos + 2 <= hi
      modifies `pos, `overflow, `ideal, `starts, buf
      ensures Valid() && ideal == old(ideal) + [id, flags, 0, 0] && starts == old(starts) + [old(pos) + 2]
    {
      hide Overlay;
      AlignBuf(4);
      U8(id);
      U8(flags);
      U16Raw(0);
    }

    /** Sets the length field of the submessage that starts at `at`. */
    method CloseSubmessage(ghost head: seq<byte>, at: nat, ghost id: byte, ghost flags: byte, ghost payload: seq<byte>)
      requires Valid() && at == |head| && at + 4 <= hi
      requires ideal == head + [id, flags, 0, 0] + payload
      modifies `overflow, `ideal, `base, `stray, buf
      ensures Valid() && ideal == head + Submessage(id, flags, payload) && base == old(base) && stray == old(stray)
    {
      hide Overlay;
      var payloadLen := pos - (at + 4);
      PatchU16At(at + 2, payloadLen % 0x1_0000);
      LengthPatched(head, id, flags, payload);
    }
  }

  /** The CREATE encoders' common part: everything up to and including the xml. */
  method OpenCreate(b: MsgWriter, sid: byte, seqNo: u16, key: Key, req: u16, oid: u16, kind: byte, xml: seq<byte>)
    returns (r: Result<()>)
    requires b.Valid() && b.pos == 0 && !b.stray && HdrLen(sid) + 16 <= b.hi
    modifies b`pos, b`overflow, b`ideal, b`starts, b.buf
    ensures b.Valid() && b.ideal == CreateFront(SessionHdr(sid, key, STREAM_BEST_EFFORT, seqNo), req, oid, kind, xml)
    ensures b.starts == old(b.starts) + CreateStarts(sid)
    ensures r == if |b.ideal| > b.hi then Err(BufferTooSmall) else Ok(())
  {
    hide Overlay, HdrBytes, Encode, Be16;
    ghost var hdr := SessionHdr(sid, key, STREAM_BEST_EFFORT, seqNo);
    HdrBytesLen(hdr);
    b.WriteSessionHeader(sid, STREAM_BEST_EFFORT, seqNo, key);
    b.OpenSubmessage(SUBMSG_CREATE, FLAGS_CREATE);
    var origin := b.pos;
    ghost var front := b.ideal;
    b.Put(Be16(req));
    b.Put(Be16(oid));
    b.U8(kind);
    b.U8(REPR_AS_XML);
    assert b.ideal == front + (ObjectRequest(req, oid) + [kind, REPR_AS_XML]);
    r := b.CdrString(xml, origin);
    assert b.ideal == front + CreatePrefix(req, oid, kind, xml);
  }

  /** A CREATE message before its length is known, up to the end of the xml. */
  ghost function CreateFront(hdr: Hdr, req: u16, oid: u16, kind: byte, xml: seq<byte>): seq<byte> {
    HdrBytes(hdr) + [SUBMSG_CREATE, FLAGS_CREATE, 0, 0] + CreatePrefix(req, oid, kind, xml)
  }

  lemma CreateFrontLen(hdr: Hdr, req: u16, oid: u16, kind: byte, xml: seq<byte>)
    requires GoodHdr(hdr)
    ensures |CreateFront(hdr, req, oid, kind, xml)| == HdrLen(hdr.sid) + 17 + |xml|
    ensures |CreatePrefix(req, oid, kind, xml)| == 13 + |xml|
  {
    hide HdrBytes, Encode, Be16;
    HdrBytesLen(hdr);
    StringLen(xml, 6);
  }

  /** A patch of the slice is a patch of the message shown there and of what lies behind it. */
  lemma PatchOverlay(base: seq<byte>, hi: nat, ideal: seq<byte>, offset: nat, value: u16)
    requires hi <= |base| && offset + 2 <= hi
    ensures Patched(Overlay(base, 0, hi, ideal), offset, value)
         == Overlay(if offset + 2 <= |ideal| then base else Patched(base, offset, value), 0, hi,
                    PatchedWithin(ideal, offset, value))
  {
  }

  lemma LengthPatched(head: seq<byte>, id: byte, flags: byte, payload: seq<byte>)
    ensures Patched(head + [id, flags, 0, 0] + payload, |head| + 2, |payload| % 0x1_0000)
         == head + Submessage(id, flags, payload)
  {
  }

  // ---- which buffers are safe ----

  /**
   * Where the encoder of a participant CREATE slices a buffer of `len` bytes, for an xml of `n`:
   * the last slice happens only if the string has fitted.
   */
  function ParticipantStarts(sid: byte, n: nat, len: nat): seq<int> {
    var h := HdrLen(sid);
    CreateStarts(sid) + if h + 17 + n <= len then [h + 4 + AlignUp(13 + n, 2)] else []
  }

  predicate ParticipantSafe(sid: byte, n: nat, len: nat) {
    var h := HdrLen(sid);
    h + 16 <= len && (h + 17 + n <= len ==> h + 4 + AlignUp(13 + n, 2) <= len)
  }

  /**
   * From 24 bytes on, the only buffers that make the encoder slice past the end are those of odd
   * length that the xml fills to the last byte; an even buffer never does.
   */
  lemma ParticipantSafeExact(sid: byte, n: nat, len: nat)
    ensures ParticipantSafe(sid, n, len)
       <==> forall i :: 0 <= i < |ParticipantStarts(sid, n, len)| ==> ParticipantStarts(sid, n, len)[i] <= len
    ensures len >= 24 ==> (ParticipantSafe(sid, n, len) <==> !(len == HdrLen(sid) + 17 + n && len % 2 == 1))
    ensures len >= 24 && len % 2 == 0 ==> ParticipantSafe(sid, n, len)
  {
    var h, s, k := HdrLen(sid), ParticipantStarts(sid, n, len), |CreateStarts(sid)|;
    assert s[k - 1] == h + 16;
    if h + 17 + n <= len {
      assert s[k] == h + 4 + AlignUp(13 + n, 2);
    }
  }

  // ---- encoders ----

  method EncodeCreateParticipant(buf: array<byte>, sid: byte, seqNo: u16, key: Key, req: u16, oid: u16,
                                 xml: seq<byte>, domain: i16)
    returns (r: Result<nat>, ghost starts: seq<int>)
    requires ParticipantSafe(sid, |xml|, buf.Length)
    modifies buf
    ensures starts == ParticipantStarts(sid, |xml|, buf.Length)
    ensures
      var w := Wire(CreateParticipant(SessionHdr(sid, key, STREAM_BEST_EFFORT, seqNo), req, oid, xml, domain));
      && r == (if |w| <= buf.Length then Ok(|w|) else Err(BufferTooSmall))
      && (r.Ok? ==> buf[..|w|] == w && buf[|w|..] == old(buf[|w|..]))
    ensures r.Ok? ==> L.ParticipantBytes(buf[..r.value], sid, key, seqNo, req, oid, xml, domain)
  {
    hide Overlay, HdrBytes, Submessage, CreatePrefix, Pad, Le16, CreateStarts, L.ParticipantBytes;
    L.ParticipantInBytes(sid, key, seqNo, req, oid, xml, domain);
    ghost var hdr := SessionHdr(sid, key, STREAM_BEST_EFFORT, seqNo);
    ghost var m := CreateParticipant(hdr, req, oid, xml, domain);
    WireLen(m);
    HdrBytesLen(hdr);
    CreateFrontLen(hdr, req, oid, ENTITY_PARTICIPANT, xml);
    var b := new MsgWriter(buf, buf.Length);
    var hdrOff := HdrLen(sid);
    var s := OpenCreate(b, sid, seqNo, key, req, oid, ENTITY_PARTICIPANT, xml);
    if s.Err? {
      return Err(s.error), b.starts;
    }
    b.CdrI16(domain, hdrOff + 4);
    ghost var prefix := CreatePrefix(req, oid, ENTITY_PARTICIPANT, xml);
    assert Payload(m) == prefix + (Pad(|prefix|, 2) + Le16(Bits16(domain)));
    b.CloseSubmessage(HdrBytes(hdr), hdrOff, SUBMSG_CREATE, FLAGS_CREATE, Payload(m));
    if b.Overflow() {
      return Err(BufferTooSmall), b.starts;
    }
    OverlayFits(b.base, 0, buf.Length, b.ideal);
    return Ok(b.pos), b.starts;
  }

  method EncodeCreateWithParent(buf: array<byte>, sid: byte, seqNo: u16, key: Key, req: u16, oid: u16,
                                kind: byte, xml: seq<byte>, parent: u16)
    returns (r: Result<nat>)
    requires HdrLen(sid) + 16 <= buf.Length
    modifies buf
    ensures
      var w := Wire(CreateChild(SessionHdr(sid, key, STREAM_BEST_EFFORT, seqNo), req, oid, kind, xml, parent));
      && r == (if |w| <= buf.Length then Ok(|w|) else Err(BufferTooSmall))
      && (r.Ok? ==> buf[..|w|] == w && buf[|w|..] == old(buf[|w|..]))
    ensures r.Ok? ==> L.ChildBytes(buf[..r.value], sid, key, seqNo, req, oid, kind, xml, parent)
  {
    hide Overlay, HdrBytes, Submessage, CreatePrefix, Be16, L.ChildBytes;
    L.ChildInBytes(sid, key, seqNo, req, oid, kind, xml, parent);
    ghost var hdr := SessionHdr(sid, key, STREAM_BEST_EFFORT, seqNo);
    ghost var m := CreateChild(hdr, req, oid, kind, xml, parent);
    WireLen(m);
    HdrBytesLen(hdr);
    CreateFrontLen(hdr, req, oid, kind, xml);
    var b := new MsgWriter(buf, buf.Length);
    var hdrOff := HdrLen(sid);
    var s := OpenCreate(b, sid, seqNo, key, req, oid, kind, xml);
    if s.Err? {
      return Err(s.error);
    }
    b.Put(Be16(parent));
    b.CloseSubmessage(HdrBytes(hdr), hdrOff, SUBMSG_CREATE, FLAGS_CREATE, Payload(m));
    if b.Overflow() {
      return Err(BufferTooSmall);
    }
    OverlayFits(b.base, 0, buf.Length, b.ideal);
    return Ok(b.pos);
  }

  method PutReadPayload(b: MsgWriter, ghost hdr: Hdr, req: u16, reader: u16)
    requires b.Valid() && b.pos + 2 <= b.hi
    modifies b`pos, b`overflow, b`ideal, b`starts, b.buf
    ensures b.Valid() && b.ideal == old(b.ideal) + Payload(ReadData(hdr, req, reader))
  {
    hide Overlay, Be16;
    ghost var start := b.ideal;
    b.Put(Be16(req));
    b.Put(Be16(reader));
    assert b.ideal == start + ObjectRequest(req, reader);
    b.U8(STREAM_BEST_EFFORT);
    b.U8(FORMAT_DATA);
    b.U8(0);
    b.U8(0);
    assert b.ideal == start + (ObjectRequest(req, reader) + [STREAM_BEST_EFFORT, FORMAT_DATA, 0, 0]);
  }

  method EncodeReadData(buf: array<byte>, sid: byte, seqNo: u16, key: Key, req: u16, reader: u16)
    returns (r: Result<nat>)
    requires HdrLen(sid) + 6 <= buf.Length
    modifies buf
    ensures
      var w := Wire(ReadData(SessionHdr(sid, key, STREAM_BEST_EFFORT, seqNo), req, reader));
      && r == (if |w| <= buf.Length then Ok(|w|) else Err(BufferTooSmall))
      && (r.Ok? ==> buf[..|w|] == w && buf[|w|..] == old(buf[|w|..]))
    ensures r.Ok? ==> L.ReadBytes(buf[..r.value], sid, key, seqNo, req, reader)
  {
    hide Overlay, HdrBytes, Submessage, Payload, SessionHdr, L.ReadBytes;
    L.ReadInBytes(sid, key, seqNo, req, reader);
    ghost var hdr := SessionHdr(sid, key, STREAM_BEST_EFFORT, seqNo);
    assert hdr.sid == sid by { SessionHdrSid(sid, key, STREAM_BEST_EFFORT, seqNo); }
    ghost var m := ReadData(hdr, req, reader);
    HdrBytesLen(hdr);
    var b := new MsgWriter(buf, buf.Length);
    b.WriteSessionHeader(sid, STREAM_BEST_EFFORT, seqNo, key);
    var hdrOff := b.pos;
    b.OpenSubmessage(SUBMSG_READ_DATA, FLAG_LE);
    PutReadPayload(b, hdr, req, reader);
    b.CloseSubmessage(HdrBytes(hdr), hdrOff, SUBMSG_READ_DATA, FLAG_LE, Payload(m));
    if b.Overflow() {
      return Err(BufferTooSmall);
    }
    OverlayFits(b.base, 0, buf.Length, b.ideal);
    return Ok(b.pos);
  }

  method PutClientPayload(b: MsgWriter, sid: byte, key: Key, mtu: u16)
    requires b.Valid() && b.pos + 14 <= b.hi
    modifies b`pos, b`overflow, b`ideal, b`starts, b.buf
    ensures b.Valid() && b.ideal == old(b.ideal) + Payload(CreateClient(sid, key, mtu))
  {
    hide Overlay, Le16;
    var payloadOrigin := b.pos;
    ghost var start := b.ideal;
    b.Put(XRCE_COOKIE);
    b.Put(XRCE_VERSION);
    b.Put(VENDOR_ID_EPROSIMA);
    b.Put(key);
    ghost var names := XRCE_COOKIE + XRCE_VERSION + VENDOR_ID_EPROSIMA + key;
    assert b.ideal == start + names;
    b.U8(sid);
    b.U8(0);
    assert b.ideal == start + (names + [sid, 0]);
    assert Pad(14, 2) == [];
    b.CdrU16(mtu, payloadOrigin);
    assert b.ideal == start + (names + [sid, 0] + Le16(mtu));
  }

  /**
   * CREATE_CLIENT has no overflow check: the length returned is the whole message's, and the
   * buffer holds as much of it as fits. No slice starts past the end from two bytes short of
   * the message on.
   */
  method BuildCreateClient(buf: array<byte>, sid: byte, key: Key, mtu: u16) returns (n: nat)
    requires HdrLen(sid) + 18 <= buf.Length
    modifies buf
    ensures
      var w := Wire(CreateClient(sid, key, mtu));
      && n == |w| == HdrLen(sid) + 20
      && buf[..Min(n, buf.Length)] == w[..Min(n, buf.Length)]
      && buf[Min(n, buf.Length)..] == old(buf[Min(n, buf.Length)..])
    ensures n <= buf.Length ==> L.ClientBytes(buf[..n], sid, key, mtu)
  {
    hide Overlay, HdrBytes, Submessage, Payload, L.ClientBytes;
    L.ClientInBytes(sid, key, mtu);
    ghost var m := CreateClient(sid, key, mtu);
    WireLen(m);
    var masked: byte := if sid < SESSION_ID_WITHOUT_CLIENT_KEY then 0 else SESSION_ID_WITHOUT_CLIENT_KEY;
    ghost var hdr := SessionHdr(masked, key, STREAM_NONE, 0);
    HdrBytesLen(hdr);
    var b := new MsgWriter(buf, buf.Length);
    b.WriteSessionHeader(masked, STREAM_NONE, 0, key);
    var hdrOff := b.pos;
    b.OpenSubmessage(SUBMSG_CREATE_CLIENT, FLAG_LE);
    PutClientPayload(b, sid, key, mtu);
    b.CloseSubmessage(HdrBytes(hdr), hdrOff, SUBMSG_CREATE_CLIENT, FLAG_LE, Payload(m));
    OverlayShows(b.base, 0, buf.Length, b.ideal);
    OverlayKeeps(b.base, 0, buf.Length, b.ideal);
    n := b.pos;
    assert n <= buf.Length ==> buf[..n] == Wire(m);
  }

  /** The WRITE_DATA message up to its body. */
  ghost function WriteFront(hdr: Hdr, writer: u16, bodyLen: nat): seq<byte> {
    HdrBytes(hdr) + ([SUBMSG_WRITE_DATA, FLAG_LE] + Le16((4 + bodyLen) % 0x1_0000)) + ObjectRequest(0, writer)
  }

  /** Writing the front over a buffer that holds the body behind it completes the message. */
  lemma FrontMeetsBody(was: seq<byte>, total: nat, hdr: Hdr, writer: u16)
    requires GoodHdr(hdr) && HdrLen(hdr.sid) + 8 <= total <= |was|
    ensures
      var body := was[HdrLen(hdr.sid) + 8..total];
      Overlay(was, 0, total, WriteFront(hdr, writer, |body|)) == Wire(WriteData(hdr, writer, body)) + was[total..]
  {
    hide Overlay, HdrBytes, WriteFront, Wire;
    var body := was[HdrLen(hdr.sid) + 8..total];
    var front := WriteFront(hdr, writer, |body|);
    WriteFrontAndBody(hdr, writer, body);
    OverlayFits(was, 0, total, front);
    assert Overlay(was, 0, total, front) == front + (body + was[total..]);
  }

  lemma WriteFrontAndBody(hdr: Hdr, writer: u16, body: seq<byte>)
    requires GoodHdr(hdr)
    ensures |WriteFront(hdr, writer, |body|)| == HdrLen(hdr.sid) + 8
    ensures WriteFront(hdr, writer, |body|) + body == Wire(WriteData(hdr, writer, body))
  {
    hide HdrBytes, Le16, Be16;
    HdrBytesLen(hdr);
  }

  /**
   * Fills the headers in front of a body that already sits at `HdrLen(sid) + 8`. Only the
   * reserved prefix is written: the frame is the WRITE_DATA message of exactly that body.
   */
  method FinalizeWriteDataHeaders(buf: array<byte>, total: nat, sid: byte, seqNo: u16, key: Key, writer: u16)
    requires HdrLen(sid) + 8 <= total <= buf.Length
    modifies buf
    ensures
      var body := old(buf[HdrLen(sid) + 8..total]);
      && buf[..] == Wire(WriteData(SessionHdr(sid, key, STREAM_BEST_EFFORT, seqNo), writer, body)) + old(buf[total..])
      && L.WriteBytes(buf[..total], sid, key, seqNo, writer, body)
  {
    hide Overlay, HdrBytes, Be16, Le16, Wire, L.WriteBytes;
    ghost var body, tail := buf[HdrLen(sid) + 8..total], buf[total..];
    WholeFrame(sid, seqNo, key, writer, body, tail);
    ghost var hdr := SessionHdr(sid, key, STREAM_BEST_EFFORT, seqNo);
    HdrBytesLen(hdr);
    FrontMeetsBody(buf[..], total, hdr, writer);
    var b := new MsgWriter(buf, total);
    b.WriteSessionHeader(sid, STREAM_BEST_EFFORT, seqNo, key);
    var hdrOff := b.pos;
    b.U8(SUBMSG_WRITE_DATA);
    b.U8(FLAG_LE);
    b.U16Raw((total - hdrOff - 4) % 0x1_0000);
    b.Put(Be16(0));
    b.Put(Be16(writer));
    assert b.ideal == WriteFront(hdr, writer, total - hdrOff - 8);
    assert buf[HdrLen(sid) + 8..total] == buf[..][HdrLen(sid) + 8..total];
    assert buf[..total] == buf[..][..total];
  }

  /** The frame in front of what is left of the buffer. */
  lemma WholeFrame(sid: byte, seqNo: u16, key: Key, writer: u16, body: seq<byte>, tail: seq<byte>)
    ensures
      var s := Wire(WriteData(SessionHdr(sid, key, STREAM_BEST_EFFORT, seqNo), writer, body)) + tail;
      HdrLen(sid) + 8 + |body| <= |s| && L.WriteBytes(s[..HdrLen(sid) + 8 + |body|], sid, key, seqNo, writer, body)
  {
    hide Wire, L.WriteBytes;
    var m := WriteData(SessionHdr(sid, key, STREAM_BEST_EFFORT, seqNo), writer, body);
    WireLen(m);
    L.WriteInBytes(sid, key, seqNo, writer, body);
    assert (Wire(m) + tail)[..|Wire(m)|] == Wire(m);
  }

  // ---- lengths ----

  lemma SessionHdrSid(sid: byte, key: Key, stream: byte, seqNo: u16)
    ensures SessionHdr(sid, key, stream, seqNo).sid == sid
  {
  }

  lemma HdrBytesLen(h: Hdr)
    requires GoodHdr(h)
    ensures |HdrBytes(h)| == HdrLen(h.sid)
  {
  }

  lemma SubmessageLen(id: byte, flags: byte, payload: seq<byte>)
    ensures |Submessage(id, flags, payload)| == 4 + |payload|
  {
  }

  lemma StringLen(s: seq<byte>, pos: nat)
    ensures |Encode(Str(s), pos)| == Padding(pos, 4) + 5 + |s|
  {
    hide Le, StringCount, Zeros;
  }

  lemma WireLen(m: AgentMsg)
    requires GoodHdr(HdrOf(m))
    ensures |Wire(m)| == HdrLen(HdrOf(m).sid) + 4 + |Payload(m)|
    ensures m.CreateParticipant? ==> |Payload(m)| == AlignUp(13 + |m.xml|, 2) + 2
    ensures m.CreateChild? ==> |Payload(m)| == 15 + |m.xml|
    ensures m.CreateClient? ==> |Payload(m)| == 16
    ensures m.ReadData? ==> |Payload(m)| == 8
    ensures m.WriteData? ==> |Payload(m)| == 4 + |m.body|
  {
    hide Encode, Le16, HdrBytes, Submessage, Zeros;
    HdrBytesLen(HdrOf(m));
    SubmessageLen(SubmessageId(m), Flags(m), Payload(m));
    if m.CreateParticipant? || m.CreateChild? {
      StringLen(m.xml, 6);
    }
  }
}
