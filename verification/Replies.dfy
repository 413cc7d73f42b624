/**
 * Waits in a row over a stream of replies: when several requests in turn all succeed, and what
 * becomes of every later request once a session has fallen one reply behind.
 */
module Replies {
  import opened Bytes
  import opened Protocol
  import opened AgentWire
  import opened Framing
  import opened Waiting
  import D = Dispatch

  /** One reply in the stream: frames a wait reads past, then a STATUS. */
  datatype Segment = Segment(skipped: seq<seq<byte>>, status: seq<byte>)

  function SegmentBytes(s: Segment): seq<byte> {
    Join(s.skipped) + Frame(s.status)
  }

  function StreamOf(segs: seq<Segment>): seq<byte> {
    if segs == [] then [] else SegmentBytes(segs[0]) + StreamOf(segs[1..])
  }

  /** A segment that a wait can read: everything fits, and the STATUS is long enough to be parsed. */
  predicate Readable(sid: byte, s: Segment) {
    && (forall i :: 0 <= i < |s.skipped| ==> Skipped(sid, s.skipped[i]))
    && Carried(s.status, RX_BUF_SIZE) && IsStatus(sid, s.status)
    && |D.FirstPayload(sid, s.status)| >= 6
  }

  function ReplyTo(sid: byte, s: Segment): u16
    requires Readable(sid, s)
  {
    FromBe16(D.FirstPayload(sid, s.status)[0], D.FirstPayload(sid, s.status)[1])
  }

  /** What the agent's result code means for the request it answers. */
  function Verdict(sid: byte, s: Segment): Result<()>
    requires Readable(sid, s)
  {
    var code := D.FirstPayload(sid, s.status)[4];
    if code == STATUS_OK || code == STATUS_OK_MATCHED then Ok(()) else Err(AgentRejected(code))
  }

  /** A wait takes exactly one segment: the verdict if the ids agree, a mismatch otherwise. */
  lemma WaitOnSegment(sid: byte, req: u16, s: Segment, rest: seq<byte>)
    requires Readable(sid, s)
    ensures WaitFor(sid, req, SegmentBytes(s) + rest)
         == WaitEnd(if ReplyTo(sid, s) == req then Verdict(sid, s) else Err(StatusReqMismatch), rest, s.skipped + [s.status])
  {
    hide Frame, Join, Skipped, WaitFor, WaitPayload, IsStatus, FromBe16;
    IsStatusHasHeader(sid, s.status);
    SlicingsAgree(sid, s.status);
    WaitSkips(sid, req, s.skipped, Frame(s.status) + rest);
    WaitAtStatus(sid, req, s.status, rest);
    assert SegmentBytes(s) + rest == Join(s.skipped) + (Frame(s.status) + rest);
  }

  lemma IsStatusHasHeader(sid: byte, f: seq<byte>)
    requires IsStatus(sid, f)
    ensures FullHeader(sid, f)
  {
  }

  // ---- several requests in turn ----

  /** The segments accept the requests numbered `req` and following, one each. */
  predicate AcceptInTurn(sid: byte, req: u16, segs: seq<Segment>)
    decreases |segs|
  {
    segs == [] || (
      && Readable(sid, segs[0]) && ReplyTo(sid, segs[0]) == req && Verdict(sid, segs[0]).Ok?
      && AcceptInTurn(sid, NextReq(req), segs[1..]))
  }

  lemma {:induction false} RequestsSucceed(sid: byte, req: u16, segs: seq<Segment>, rest: seq<byte>)
    requires AcceptInTurn(sid, req, segs)
    ensures WaitInTurn(sid, req, StreamOf(segs) + rest, |segs|).result.Ok?
    ensures WaitInTurn(sid, req, StreamOf(segs) + rest, |segs|).rest == rest
    ensures RequestsMade(sid, req, StreamOf(segs) + rest, |segs|) == |segs|
    decreases |segs|
  {
    hide SegmentBytes, Readable, ReplyTo, Verdict, WaitFor, NextReq;
    if segs == [] {
      assert StreamOf(segs) + rest == rest;
    } else {
      var tail := StreamOf(segs[1..]) + rest;
      assert StreamOf(segs) + rest == SegmentBytes(segs[0]) + tail;
      WaitOnSegment(sid, req, segs[0], tail);
      RequestsSucceed(sid, NextReq(req), segs[1..], rest);
    }
  }

  /** The segment that a successful wait has read. */
  lemma SegmentRead(sid: byte, req: u16, rx: seq<byte>) returns (s: Segment)
    requires WaitFor(sid, req, rx).result.Ok?
    ensures Readable(sid, s) && ReplyTo(sid, s) == req && Verdict(sid, s).Ok?
    ensures rx == SegmentBytes(s) + WaitFor(sid, req, rx).rest
  {
    hide Frame, Join, Skipped, WaitFor, FromBe16;
    WaitSucceededOn(sid, req, rx);
    var w := WaitFor(sid, req, rx);
    var n := |w.frames| - 1;
    s := Segment(w.frames[..n], w.frames[n]);
  }

  lemma {:induction false} SegmentsRead(sid: byte, req: u16, rx: seq<byte>, n: nat) returns (segs: seq<Segment>)
    requires WaitInTurn(sid, req, rx, n).result.Ok?
    ensures |segs| == n && AcceptInTurn(sid, req, segs)
    ensures rx == StreamOf(segs) + WaitInTurn(sid, req, rx, n).rest
    decreases n
  {
    hide SegmentBytes, Readable, ReplyTo, Verdict, WaitFor, NextReq;
    segs := [];
    if n > 0 {
      var s := SegmentRead(sid, req, rx);
      var later := SegmentsRead(sid, NextReq(req), WaitFor(sid, req, rx).rest, n - 1);
      segs := [s] + later;
      assert segs[1..] == later;
    }
  }

  /**
   * `n` requests in turn all succeed exactly when the stream begins with `n` segments that accept
   * them one by one: each some frames to read past and then the accepting STATUS for the next id.
   */
  lemma RequestsInTurnOkExactly(sid: byte, req: u16, rx: seq<byte>, n: nat)
    ensures WaitInTurn(sid, req, rx, n).result.Ok? <==>
      exists segs: seq<Segment>, rest: seq<byte> ::
        |segs| == n && rx == StreamOf(segs) + rest && AcceptInTurn(sid, req, segs)
  {
    hide StreamOf, AcceptInTurn, WaitInTurn;
    if WaitInTurn(sid, req, rx, n).result.Ok? {
      var segs := SegmentsRead(sid, req, rx, n);
      assert |segs| == n && rx == StreamOf(segs) + WaitInTurn(sid, req, rx, n).rest && AcceptInTurn(sid, req, segs);
    }
    forall segs: seq<Segment>, rest: seq<byte>
      | |segs| == n && rx == StreamOf(segs) + rest && AcceptInTurn(sid, req, segs)
      ensures WaitInTurn(sid, req, rx, n).result.Ok?
    {
      RequestsSucceed(sid, req, segs, rest);
    }
  }

  // ---- falling behind ----

  /** Results of `n` requests, the first of them the `k`-th drawn, each made whatever became of the one before. */
  function Outcomes(sid: byte, k: nat, rx: seq<byte>, n: nat): (r: seq<Result<()>>)
    ensures |r| == n
    decreases n
  {
    if n == 0 then []
    else
      var w := WaitFor(sid, ReqAt(k), rx);
      [w.result] + Outcomes(sid, k + 1, w.rest, n - 1)
  }

  /** The segments answer the requests drawn as numbers `c`, `c + 1`, ..., one each and in order. */
  predicate AnswersFrom(sid: byte, c: nat, segs: seq<Segment>)
    decreases |segs|
  {
    segs == [] || (Readable(sid, segs[0]) && ReplyTo(sid, segs[0]) == ReqAt(c) && AnswersFrom(sid, c + 1, segs[1..]))
  }

  lemma {:induction false} AllReadable(sid: byte, c: nat, segs: seq<Segment>, j: nat)
    requires AnswersFrom(sid, c, segs) && j < |segs|
    ensures Readable(sid, segs[j])
    decreases |segs|
  {
    hide Readable;
    if j > 0 {
      AllReadable(sid, c + 1, segs[1..], j - 1);
    }
  }

  /**
   * A session whose next request is the `k`-th meets replies that start with the `c`-th. If the
   * lag is no multiple of 65535, every request fails with a mismatch, for as long as replies
   * come; otherwise each request gets the agent's verdict. Failing does not catch up.
   */
  lemma {:induction false} LagIsPermanent(sid: byte, k: nat, c: nat, segs: seq<Segment>, rest: seq<byte>, j: nat)
    requires AnswersFrom(sid, c, segs) && c <= k && j < |segs|
    ensures Readable(sid, segs[j])
    ensures Outcomes(sid, k, StreamOf(segs) + rest, |segs|)[j]
         == if (k - c) % 0xFFFF == 0 then Verdict(sid, segs[j]) else Err(StatusReqMismatch)
    decreases |segs|
  {
    hide SegmentBytes, Readable, ReplyTo, Verdict, WaitFor, ReqAt;
    AllReadable(sid, c, segs, j);
    var tail := StreamOf(segs[1..]) + rest;
    assert StreamOf(segs) + rest == SegmentBytes(segs[0]) + tail;
    WaitOnSegment(sid, ReqAt(k), segs[0], tail);
    RequestIdsAgree(c, k);
    if j > 0 {
      LagIsPermanent(sid, k + 1, c + 1, segs[1..], rest, j - 1);
    }
  }

  /**
   * One frame shorter than a header is enough: the wait that meets it fails with
   * `UnexpectedReply` and leaves its own reply unread, and every later request is answered with
   * the reply to the one before it.
   */
  lemma OneShortFrameDesynchronises(sid: byte, k: nat, skipped: seq<seq<byte>>, short: seq<byte>,
                                    segs: seq<Segment>, rest: seq<byte>)
    requires forall i :: 0 <= i < |skipped| ==> Skipped(sid, skipped[i])
    requires Carried(short, RX_BUF_SIZE) && !FullHeader(sid, short)
    requires AnswersFrom(sid, k, segs)
    ensures
      var r := Outcomes(sid, k, Join(skipped) + Frame(short) + (StreamOf(segs) + rest), |segs| + 1);
      r[0] == Err(UnexpectedReply) && forall j :: 0 < j <= |segs| ==> r[j] == Err(StatusReqMismatch)
  {
    hide Frame, Join, Skipped, AnswersFrom, StreamOf, ReqAt, FullHeader, Readable, Verdict, WaitFor, Outcomes;
    var tail := StreamOf(segs) + rest;
    WaitSkips(sid, ReqAt(k), skipped, Frame(short) + tail);
    WaitAtShortFrame(sid, ReqAt(k), short, tail);
    assert Join(skipped) + Frame(short) + tail == Join(skipped) + (Frame(short) + tail);
    var rx := Join(skipped) + Frame(short) + tail;
    OutcomesStep(sid, k, rx, |segs|);
    var r := Outcomes(sid, k, rx, |segs| + 1);
    var later := Outcomes(sid, k + 1, tail, |segs|);
    forall j | 0 < j <= |segs|
      ensures r[j] == Err(StatusReqMismatch)
    {
      LagIsPermanent(sid, k + 1, k, segs, rest, j - 1);
      assert ([Err(UnexpectedReply)] + later)[j] == later[j - 1];
    }
  }

  lemma OutcomesStep(sid: byte, k: nat, rx: seq<byte>, n: nat)
    ensures
      var w := WaitFor(sid, ReqAt(k), rx);
      Outcomes(sid, k, rx, n + 1) == [w.result] + Outcomes(sid, k + 1, w.rest, n)
  {
  }

  lemma WaitAtShortFrame(sid: byte, req: u16, short: seq<byte>, tail: seq<byte>)
    requires Carried(short, RX_BUF_SIZE) && !FullHeader(sid, short)
    ensures WaitFor(sid, req, Frame(short) + tail) == WaitEnd(Err(UnexpectedReply), tail, [short])
  {
    hide Frame, TakeFrame, FullHeader;
    TakeFrameExact(short, tail, RX_BUF_SIZE);
  }

  /** What that means for a call: it makes one request, fails with a mismatch, and is as far behind as before. */
  lemma CallBehindFails(sid: byte, k: nat, c: nat, segs: seq<Segment>, rest: seq<byte>, n: nat)
    requires AnswersFrom(sid, c, segs) && segs != [] && c <= k && (k - c) % 0xFFFF != 0 && n > 0
    ensures
      var rx := StreamOf(segs) + rest;
      && WaitInTurn(sid, ReqAt(k), rx, n).result == Err(StatusReqMismatch)
      && WaitInTurn(sid, ReqAt(k), rx, n).rest == StreamOf(segs[1..]) + rest
      && RequestsMade(sid, ReqAt(k), rx, n) == 1
      && AnswersFrom(sid, c + 1, segs[1..])
  {
    hide SegmentBytes, Readable, ReplyTo, Verdict, WaitFor, ReqAt;
    var tail := StreamOf(segs[1..]) + rest;
    assert StreamOf(segs) + rest == SegmentBytes(segs[0]) + tail;
    WaitOnSegment(sid, ReqAt(k), segs[0], tail);
    RequestIdsAgree(c, k);
  }
}
