/**
 * The agent's replies in bytes: what each frame means to a session, with every constant by value.
 * `f` is a whole frame, message header first; `Behind` is the length of that header.
 */
module ReplyLayout {
  import opened Bytes
  import opened Layout
  import opened MessageLayout
  import opened AgentWire
  import opened Framing
  import opened Waiting
  import D = Dispatch

  /** A frame is its length, low byte first, and its payload. */
  lemma FrameInBytes(p: seq<byte>)
    ensures |Frame(p)| == |p| + 2 && U16At(Frame(p), 0, |p| % 0x1_0000) && Frame(p)[2..] == p
  {
    Word16InBytes(|p| % 0x1_0000);
  }

  // ---- STATUS_AGENT, submessage 4 ----

  /** The reply to CREATE_CLIENT: long enough, the right submessage, and result code 0. */
  lemma StatusAgentInBytes(f: seq<byte>, sid: byte)
    ensures
      var h := Behind(sid);
      ParseStatusAgent(f, sid)
        == if |f| < h + 6 || f[h] != 4 then Err(UnexpectedReply)
           else if f[h + 4] != 0 then Err(AgentRejected(f[h + 4]))
           else Ok(())
  {
  }

  /** From the agent's side: what it says is what the client understands. */
  lemma StatusAgentUnderstood(hdr: Hdr, sid: byte, flags: byte, code: byte, more: seq<byte>)
    requires GoodHdr(hdr) && HdrLen(hdr.sid) == HdrLen(sid) && more != []
    ensures
      var f := HdrBytes(hdr) + Submessage(4, flags, [code] + more);
      ParseStatusAgent(f, sid) == if code == 0 then Ok(()) else Err(AgentRejected(code))
  {
    hide ParseStatusAgent, Le16;
    var f := HdrBytes(hdr) + Submessage(4, flags, [code] + more);
    StatusAgentInBytes(f, sid);
    HeaderLength(hdr, sid);
    assert f[Behind(sid)] == 4 && f[Behind(sid) + 4] == code;
  }

  lemma HeaderLength(hdr: Hdr, sid: byte)
    requires GoodHdr(hdr) && HdrLen(hdr.sid) == HdrLen(sid)
    ensures |HdrBytes(hdr)| == Behind(sid)
  {
  }

  // ---- STATUS, submessage 5 ----

  /** Where the first submessage's payload ends: where its length says, or with the frame. */
  function PayloadEnd(f: seq<byte>, h: nat): (e: nat)
    requires h + 4 <= |f|
    ensures h + 4 <= e <= |f|
  {
    var e := h + 4 + LowFirst(f[h + 2], f[h + 3]);
    if e <= |f| then e else |f|
  }

  /** What a wait for `req` makes of a frame at which it ends. */
  function Verdict(f: seq<byte>, sid: byte, req: u16): Result<()> {
    var h := Behind(sid);
    if |f| < h + 4 || PayloadEnd(f, h) < h + 10 then Err(UnexpectedReply)
    else if HighFirst(f[h + 4], f[h + 5]) != req then Err(StatusReqMismatch)
    else if f[h + 8] > 1 then Err(AgentRejected(f[h + 8]))
    else Ok(())
  }

  lemma StatusInBytes(f: seq<byte>, sid: byte, req: u16)
    ensures FullHeader(sid, f) <==> |f| >= Behind(sid) + 4
    ensures IsStatus(sid, f) <==> |f| >= Behind(sid) + 4 && f[Behind(sid)] == 5
    ensures FullHeader(sid, f) ==> ParseStatusPayload(WaitPayload(sid, f), req) == Verdict(f, sid, req)
    ensures IsStatus(sid, f) ==> (Accepts(sid, f, req) <==> Verdict(f, sid, req).Ok?)
  {
    if FullHeader(sid, f) {
      var h := Behind(sid);
      var p := WaitPayload(sid, f);
      assert p == f[h + 4..PayloadEnd(f, h)];
      if |p| >= 6 {
        assert p[0] == f[h + 4] && p[1] == f[h + 5] && p[4] == f[h + 8];
      }
      SlicingsAgree(sid, f);
    }
  }

  /** From the agent's side: request id, object id, result code and at least one byte more. */
  lemma StatusUnderstood(hdr: Hdr, sid: byte, flags: byte, answered: u16, oid: u16, code: byte, more: seq<byte>, req: u16)
    requires GoodHdr(hdr) && HdrLen(hdr.sid) == HdrLen(sid) && more != [] && |more| < 0xFF00
    ensures
      var p := [answered / 0x100, answered % 0x100, oid / 0x100, oid % 0x100, code] + more;
      var f := HdrBytes(hdr) + Submessage(5, flags, p);
      && IsStatus(sid, f)
      && Verdict(f, sid, req)
        == if answered != req then Err(StatusReqMismatch)
           else if code > 1 then Err(AgentRejected(code))
           else Ok(())
  {
    hide Le16, HdrBytes;
    var p := [answered / 0x100, answered % 0x100, oid / 0x100, oid % 0x100, code] + more;
    var f := HdrBytes(hdr) + Submessage(5, flags, p);
    var h := Behind(sid);
    HeaderLength(hdr, sid);
    Word16InBytes(|p|);
    assert f[h] == 5 && f[h + 2] == Le16(|p|)[0] && f[h + 3] == Le16(|p|)[1];
    assert f[h + 4] == p[0] && f[h + 5] == p[1] && f[h + 8] == p[4];
    StatusInBytes(f, sid, req);
  }

  // ---- how a wait ends ----

  /**
   * Behind any frames to read past: a frame shorter than a header, or a STATUS, decides by what
   * is in it.
   */
  lemma WaitVerdict(sid: byte, req: u16, skipped: seq<seq<byte>>, f: seq<byte>, rest: seq<byte>)
    requires forall i :: 0 <= i < |skipped| ==> Skipped(sid, skipped[i])
    requires |f| <= 768 && (|f| < Behind(sid) + 4 || f[Behind(sid)] == 5)
    ensures WaitFor(sid, req, Join(skipped) + Frame(f) + rest) == WaitEnd(Verdict(f, sid, req), rest, skipped + [f])
  {
    hide Frame, Join, TakeFrame, Skipped, ParseStatusPayload, WaitPayload, Verdict;
    StatusInBytes(f, sid, req);
    TakeFrameExact(f, rest, RX_BUF_SIZE);
    ShortVerdict(f, sid, req);
    WaitSkips(sid, req, skipped, Frame(f) + rest);
    assert Join(skipped) + Frame(f) + rest == Join(skipped) + (Frame(f) + rest);
  }

  lemma ShortVerdict(f: seq<byte>, sid: byte, req: u16)
    ensures |f| < Behind(sid) + 4 ==> Verdict(f, sid, req) == Err(UnexpectedReply)
  {
  }

  /** Or the stream ends, or offers a frame of more than 768 bytes, of which the length is taken. */
  lemma WaitBroken(sid: byte, req: u16, skipped: seq<seq<byte>>, s: seq<byte>)
    requires forall i :: 0 <= i < |skipped| ==> Skipped(sid, skipped[i])
    requires |s| >= 2 ==> LowFirst(s[0], s[1]) > 768 || LowFirst(s[0], s[1]) > |s| - 2
    ensures WaitFor(sid, req, Join(skipped) + s)
         == if |s| >= 2 && LowFirst(s[0], s[1]) > 768 then WaitEnd(Err(BufferTooSmall), s[2..], skipped)
            else WaitEnd(Err(Disconnected), [], skipped)
  {
    hide Frame, Join, Skipped;
    WaitSkips(sid, req, skipped, s);
    assert skipped + [] == skipped;
  }

  // ---- DATA, submessage 9 ----

  /** The reader is in bytes 2 and 3 of the payload, high byte first, and the sample behind them. */
  lemma DataInBytes(f: seq<byte>, sid: byte)
    ensures
      var h := Behind(sid);
      D.Addressed(sid, f)
        == if |f| >= h + 4 && f[h] == 9 && PayloadEnd(f, h) >= h + 8 then
             Some((HighFirst(f[h + 6], f[h + 7]), f[h + 8..PayloadEnd(f, h)]))
           else None
  {
    var h := Behind(sid);
    if |f| >= h + 4 && f[h] == 9 {
      var p := D.FirstPayload(sid, f);
      assert p == f[h + 4..PayloadEnd(f, h)];
      if |p| >= 4 {
        assert p[2] == f[h + 6] && p[3] == f[h + 7];
        assert p[4..] == f[h + 8..PayloadEnd(f, h)];
      }
    }
  }
}
