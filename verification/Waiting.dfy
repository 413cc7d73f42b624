/** Waiting for a STATUS reply, as a function of the bytes that will arrive. */
module Waiting {
  import opened Bytes
  import opened Protocol
  import opened AgentWire
  import opened Framing
  import D = Dispatch

  // The session's buffers, src/session.rs:36-37.
  const TX_BUF_SIZE := 768
  const RX_BUF_SIZE := 768

  // ---- parsers ----

  function ParseStatusAgent(msg: seq<byte>, sid: byte): Result<()> {
    var h := HdrLen(sid);
    if |msg| < h + 4 + 2 then Err(UnexpectedReply)
    else if msg[h] != SUBMSG_STATUS_AGENT then Err(UnexpectedReply)
    else if msg[h + 4] != STATUS_OK then Err(AgentRejected(msg[h + 4]))
    else Ok(())
  }

  function ParseStatusPayload(payload: seq<byte>, expected: u16): (r: Result<()>)
    ensures r.Err? ==> r.error in {UnexpectedReply, StatusReqMismatch} || r.error.AgentRejected?
  {
    if |payload| < 6 then Err(UnexpectedReply)
    else if FromBe16(payload[0], payload[1]) != expected then Err(StatusReqMismatch)
    else if payload[4] != STATUS_OK && payload[4] != STATUS_OK_MATCHED then Err(AgentRejected(payload[4]))
    else Ok(())
  }

  predicate FullHeader(sid: byte, f: seq<byte>) {
    |f| >= HdrLen(sid) + 4
  }

  predicate IsStatus(sid: byte, f: seq<byte>) {
    FullHeader(sid, f) && f[HdrLen(sid)] == SUBMSG_STATUS
  }

  /** The payload slice as a status wait computes it. */
  function WaitPayload(sid: byte, f: seq<byte>): seq<byte>
    requires FullHeader(sid, f)
  {
    var h := HdrLen(sid);
    f[h + 4..h + 4 + Min(FromLe16(f[h + 2], f[h + 3]), |f| - h - 4)]
  }

  /** The wait and the spin loop slice payloads differently and get the same bytes. */
  lemma SlicingsAgree(sid: byte, f: seq<byte>)
    requires FullHeader(sid, f)
    ensures WaitPayload(sid, f) == D.FirstPayload(sid, f)
  {
  }

  // ---- the spin loop ----

  datatype SpinEnd = SpinEnd(error: Error, rest: seq<byte>, frames: seq<seq<byte>>)

  /** Spinning takes frame after frame until the stream ends or offers one that does not fit. */
  function SpinFor(rx: seq<byte>): SpinEnd
    decreases |rx|
  {
    match TakeFrame(rx, RX_BUF_SIZE)
    case Ended => SpinEnd(Disconnected, [], [])
    case TooLong(rest) => SpinEnd(BufferTooSmall, rest, [])
    case Whole(f, rest) => var s := SpinFor(rest); s.(frames := [f] + s.frames)
  }

  /** Every frame that can be carried is taken, in order, however many there are. */
  lemma {:induction false} SpinTakesAll(frames: seq<seq<byte>>)
    requires forall i :: 0 <= i < |frames| ==> Carried(frames[i], RX_BUF_SIZE)
    ensures SpinFor(Join(frames)) == SpinEnd(Disconnected, [], frames)
    decreases |frames|
  {
    hide Frame, TakeFrame;
    if frames == [] {
      NoFrame(Join(frames), RX_BUF_SIZE);
    } else {
      assert Carried(frames[0], RX_BUF_SIZE);
      TakeFrameExact(frames[0], Join(frames[1..]), RX_BUF_SIZE);
      SpinTakesAll(frames[1..]);
      assert [frames[0]] + frames[1..] == frames;
    }
  }

  // ---- the wait ----

  datatype WaitEnd = WaitEnd(result: Result<()>, rest: seq<byte>, frames: seq<seq<byte>>)

  function Prepend(fs: seq<seq<byte>>, w: WaitEnd): WaitEnd {
    w.(frames := fs + w.frames)
  }

  /** How a wait for `req` ends on the stream `rx`, what it leaves, and which frames it took. */
  function WaitFor(sid: byte, req: u16, rx: seq<byte>): WaitEnd
    decreases |rx|
  {
    match TakeFrame(rx, RX_BUF_SIZE)
    case Ended => WaitEnd(Err(Disconnected), [], [])
    case TooLong(rest) => WaitEnd(Err(BufferTooSmall), rest, [])
    case Whole(f, rest) =>
      if !FullHeader(sid, f) then WaitEnd(Err(UnexpectedReply), rest, [f])
      else if IsStatus(sid, f) then WaitEnd(ParseStatusPayload(WaitPayload(sid, f), req), rest, [f])
      else Prepend([f], WaitFor(sid, req, rest))
  }

  /**
   * `n` requests in a row, each waiting for its own STATUS before the next is sent; the first
   * failure ends them.
   */
  function WaitInTurn(sid: byte, req: u16, rx: seq<byte>, n: nat): WaitEnd
    decreases n
  {
    if n == 0 then WaitEnd(Ok(()), rx, [])
    else
      var w := WaitFor(sid, req, rx);
      if w.result.Err? then w else Prepend(w.frames, WaitInTurn(sid, NextReq(req), w.rest, n - 1))
  }

  /** How many of the `n` requests are made. */
  function RequestsMade(sid: byte, req: u16, rx: seq<byte>, n: nat): (made: nat)
    ensures made <= n
    ensures n > 0 ==> made > 0
    ensures WaitInTurn(sid, req, rx, n).result.Ok? ==> made == n
    decreases n
  {
    if n == 0 then 0
    else
      var w := WaitFor(sid, req, rx);
      if w.result.Err? then 1 else 1 + RequestsMade(sid, NextReq(req), w.rest, n - 1)
  }

  /** A frame that a wait reads past. */
  predicate Skipped(sid: byte, f: seq<byte>) {
    Carried(f, RX_BUF_SIZE) && FullHeader(sid, f) && !IsStatus(sid, f)
  }

  /** A STATUS that answers request `req` favourably. */
  predicate Accepts(sid: byte, f: seq<byte>, req: u16) {
    && IsStatus(sid, f)
    && var p := D.FirstPayload(sid, f);
       && |p| >= 6
       && FromBe16(p[0], p[1]) == req
       && p[4] in {STATUS_OK, STATUS_OK_MATCHED}
  }

  lemma AcceptsIsParsed(sid: byte, f: seq<byte>, req: u16)
    requires IsStatus(sid, f)
    ensures Accepts(sid, f, req) ==> ParseStatusPayload(WaitPayload(sid, f), req) == Ok(())
    ensures ParseStatusPayload(WaitPayload(sid, f), req).Ok? ==> Accepts(sid, f, req)
  {
    SlicingsAgree(sid, f);
  }

  /** A wait reads past any number of such frames and ends as it would have without them. */
  lemma {:induction false} WaitSkips(sid: byte, req: u16, skipped: seq<seq<byte>>, tail: seq<byte>)
    requires forall i :: 0 <= i < |skipped| ==> Skipped(sid, skipped[i])
    ensures WaitFor(sid, req, Join(skipped) + tail) == Prepend(skipped, WaitFor(sid, req, tail))
    decreases |skipped|
  {
    hide Frame, TakeFrame, ParseStatusPayload, WaitPayload;
    if skipped == [] {
      assert Join(skipped) + tail == tail;
      PrependNothing(WaitFor(sid, req, tail));
    } else {
      assert Join(skipped) + tail == Frame(skipped[0]) + (Join(skipped[1..]) + tail);
      assert Skipped(sid, skipped[0]);
      TakeFrameExact(skipped[0], Join(skipped[1..]) + tail, RX_BUF_SIZE);
      WaitSkips(sid, req, skipped[1..], tail);
      PrependTwice([skipped[0]], skipped[1..], WaitFor(sid, req, tail));
      assert [skipped[0]] + skipped[1..] == skipped;
    }
  }

  /** What a wait makes of the STATUS it comes to. */
  lemma WaitAtStatus(sid: byte, req: u16, status: seq<byte>, rest: seq<byte>)
    requires Carried(status, RX_BUF_SIZE) && IsStatus(sid, status)
    ensures WaitFor(sid, req, Frame(status) + rest)
         == WaitEnd(ParseStatusPayload(WaitPayload(sid, status), req), rest, [status])
  {
    hide Frame, TakeFrame, ParseStatusPayload, WaitPayload;
    TakeFrameExact(status, rest, RX_BUF_SIZE);
  }

  /**
   * If the stream begins with frames a wait reads past, followed by an accepting STATUS, the
   * wait succeeds and consumes exactly that much.
   */
  lemma WaitSucceeds(sid: byte, req: u16, skipped: seq<seq<byte>>, status: seq<byte>, rest: seq<byte>)
    requires forall i :: 0 <= i < |skipped| ==> Skipped(sid, skipped[i])
    requires Carried(status, RX_BUF_SIZE) && Accepts(sid, status, req)
    ensures WaitFor(sid, req, Join(skipped) + Frame(status) + rest) == WaitEnd(Ok(()), rest, skipped + [status])
  {
    hide Frame, Join, Skipped, WaitFor, ParseStatusPayload, WaitPayload, Accepts;
    AcceptsIsStatus(sid, status, req);
    AcceptsIsParsed(sid, status, req);
    WaitSkips(sid, req, skipped, Frame(status) + rest);
    WaitAtStatus(sid, req, status, rest);
    assert Join(skipped) + Frame(status) + rest == Join(skipped) + (Frame(status) + rest);
  }

  lemma AcceptsIsStatus(sid: byte, f: seq<byte>, req: u16)
    requires Accepts(sid, f, req)
    ensures IsStatus(sid, f) && FullHeader(sid, f)
  {
  }

  /** What a successful wait has read, to the byte. */
  ghost predicate ReadUpToStatus(sid: byte, req: u16, rx: seq<byte>, w: WaitEnd) {
    var n := |w.frames| - 1;
    && n >= 0
    && rx == Join(w.frames[..n]) + Frame(w.frames[n]) + w.rest
    && (forall i :: 0 <= i < n ==> Skipped(sid, w.frames[i]))
    && Carried(w.frames[n], RX_BUF_SIZE) && Accepts(sid, w.frames[n], req)
  }

  lemma OneMoreSkipped(sid: byte, req: u16, f: seq<byte>, rest: seq<byte>, v: WaitEnd)
    requires Skipped(sid, f) && ReadUpToStatus(sid, req, rest, v)
    ensures ReadUpToStatus(sid, req, Frame(f) + rest, Prepend([f], v))
  {
    hide Frame, Skipped, Accepts;
    var n := |v.frames| - 1;
    var fs := [f] + v.frames;
    assert fs[..n + 1] == [f] + v.frames[..n];
    assert ([f] + v.frames[..n])[1..] == v.frames[..n];
    forall i | 0 <= i < n + 1
      ensures Skipped(sid, fs[i])
    {
      if i > 0 {
        assert fs[i] == v.frames[i - 1];
      }
    }
  }

  /** Conversely, a wait that succeeds has read such a prefix, to the byte. */
  lemma {:induction false} WaitSucceededOn(sid: byte, req: u16, rx: seq<byte>)
    requires WaitFor(sid, req, rx).result.Ok?
    ensures ReadUpToStatus(sid, req, rx, WaitFor(sid, req, rx))
    decreases |rx|
  {
    hide Frame, TakeFrame, ParseStatusPayload, WaitPayload, Accepts;
    TakenWasFramed(rx, RX_BUF_SIZE);
    var f := TakeFrame(rx, RX_BUF_SIZE).frame;
    var rest := TakeFrame(rx, RX_BUF_SIZE).rest;
    if IsStatus(sid, f) {
      AcceptsIsParsed(sid, f, req);
      assert Join([]) + Frame(f) + rest == Frame(f) + rest;
    } else {
      WaitSucceededOn(sid, req, rest);
      hide ReadUpToStatus;
      OneMoreSkipped(sid, req, f, rest, WaitFor(sid, req, rest));
    }
  }

  /**
   * A wait succeeds exactly when the stream has the form: frames that fit, hold a full header
   * and are not STATUS, then a STATUS that fits and accepts the request.
   */
  lemma WaitOkExactly(sid: byte, req: u16, rx: seq<byte>)
    ensures WaitFor(sid, req, rx).result.Ok? <==>
      exists skipped: seq<seq<byte>>, status: seq<byte>, rest: seq<byte> ::
        && rx == Join(skipped) + Frame(status) + rest
        && (forall i :: 0 <= i < |skipped| ==> Skipped(sid, skipped[i]))
        && Carried(status, RX_BUF_SIZE) && Accepts(sid, status, req)
  {
    hide Frame, Join, Skipped, Accepts, WaitFor;
    if WaitFor(sid, req, rx).result.Ok? {
      WaitSucceededOn(sid, req, rx);
      var w := WaitFor(sid, req, rx);
      var n := |w.frames| - 1;
      var skipped := w.frames[..n];
      var status := w.frames[n];
      assert rx == Join(skipped) + Frame(status) + w.rest;
    }
    forall skipped: seq<seq<byte>>, status: seq<byte>, rest: seq<byte>
      | && rx == Join(skipped) + Frame(status) + rest
        && (forall i :: 0 <= i < |skipped| ==> Skipped(sid, skipped[i]))
        && Carried(status, RX_BUF_SIZE) && Accepts(sid, status, req)
      ensures WaitFor(sid, req, rx).result.Ok?
    {
      WaitSucceeds(sid, req, skipped, status, rest);
    }
  }

  /**
   * Dispatching the payload as the wait does, for DATA only, has the same effect on every inbox
   * as the spin loop has on the same frame.
   */
  lemma WaitDispatchIsSpinDispatch(sid: byte, slots: seq<D.Slot>, f: seq<byte>)
    requires FullHeader(sid, f)
    ensures D.DispatchFrame(sid, slots, f)
         == if f[HdrLen(sid)] == SUBMSG_DATA then D.DispatchPayload(slots, WaitPayload(sid, f)) else slots
  {
    hide D.DispatchPayload;
    SlicingsAgree(sid, f);
  }

  /** A failing wait takes whole frames too: what it read is what it consumed. */
  lemma {:induction false} WaitConsumes(sid: byte, req: u16, rx: seq<byte>)
    requires WaitFor(sid, req, rx).result.Err? && WaitFor(sid, req, rx).result.error !in {Disconnected, BufferTooSmall}
    ensures rx == Join(WaitFor(sid, req, rx).frames) + WaitFor(sid, req, rx).rest
    decreases |rx|
  {
    hide Frame, TakeFrame, ParseStatusPayload, WaitPayload;
    TakenWasFramed(rx, RX_BUF_SIZE);
    var f := TakeFrame(rx, RX_BUF_SIZE).frame;
    var rest := TakeFrame(rx, RX_BUF_SIZE).rest;
    if FullHeader(sid, f) && !IsStatus(sid, f) {
      WaitConsumes(sid, req, rest);
      var v := WaitFor(sid, req, rest);
      assert ([f] + v.frames)[1..] == v.frames;
    } else {
      var none: seq<seq<byte>> := [];
      assert [f][1..] == none;
      assert Join([f]) == Frame(f);
    }
  }

  lemma PrependNothing(w: WaitEnd)
    ensures Prepend([], w) == w
  {
    assert [] + w.frames == w.frames;
  }

  lemma PrependTwice(a: seq<seq<byte>>, b: seq<seq<byte>>, w: WaitEnd)
    ensures Prepend(a, Prepend(b, w)) == Prepend(a + b, w)
  {
    assert a + (b + w.frames) == a + b + w.frames;
  }

  /** How several requests in turn end, and how many of them are made. */
  datatype Turns = Turns(end: WaitEnd, made: nat)

  function TurnsFor(sid: byte, req: u16, rx: seq<byte>, n: nat): Turns {
    Turns(WaitInTurn(sid, req, rx, n), RequestsMade(sid, req, rx, n))
  }

  /**
   * `k` of the requests are still to be made, from request id `req` on the stream `rx`; `made`
   * have been made and `taken` has been read.
   */
  ghost predicate InTurn(sid: byte, whole: Turns, taken: seq<seq<byte>>, made: nat, req: u16, rx: seq<byte>, k: nat) {
    whole == Turns(Prepend(taken, WaitInTurn(sid, req, rx, k)), made + RequestsMade(sid, req, rx, k))
  }

  lemma NextInTurn(sid: byte, whole: Turns, taken: seq<seq<byte>>, made: nat, req: u16, rx: seq<byte>, k: nat, w: WaitEnd)
    requires k > 0 && InTurn(sid, whole, taken, made, req, rx, k) && WaitFor(sid, req, rx) == w
    ensures w.result.Ok? ==> InTurn(sid, whole, taken + w.frames, made + 1, NextReq(req), w.rest, k - 1)
    ensures w.result.Err? ==> whole == Turns(w.(frames := taken + w.frames), made + 1)
  {
    hide WaitFor, NextReq;
    if w.result.Ok? {
      PrependTwice(taken, w.frames, WaitInTurn(sid, NextReq(req), w.rest, k - 1));
    }
  }
}
