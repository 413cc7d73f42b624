/**
 * Length-prefixed framing over a byte stream whose reads and writes move any positive number of
 * bytes at a time.
 */
module Framing {
  import opened Bytes

  // ---- frames as byte sequences ----

  /** `[len: u16 LE][payload]`; the length is cast to 16 bits. */
  function Frame(payload: seq<byte>): (f: seq<byte>)
    ensures |f| == 2 + |payload|
  {
    Le16(|payload| % 0x1_0000) + payload
  }

  function Join(frames: seq<seq<byte>>): seq<byte> {
    if frames == [] then [] else Frame(frames[0]) + Join(frames[1..])
  }

  datatype Taken =
    | Whole(frame: seq<byte>, rest: seq<byte>)
    | TooLong(rest: seq<byte>)
    | Ended

  /** The first frame of a stream, for a receive buffer of `cap` bytes. */
  function TakeFrame(s: seq<byte>, cap: nat): (t: Taken)
    ensures t.Whole? ==> |t.rest| + 2 <= |s| && |t.frame| <= cap
  {
    if |s| < 2 then Ended
    else
      var len := FromLe16(s[0], s[1]);
      if len > cap then TooLong(s[2..])
      else if |s| - 2 < len then Ended
      else Whole(s[2..2 + len], s[2 + len..])
  }

  /** A frame can be carried when its length is representable and the receiver has room. */
  predicate Carried(payload: seq<byte>, cap: nat) {
    |payload| <= cap && |payload| < 0x1_0000
  }

  /** A frame comes back, with what follows it intact, exactly when it can be carried. */
  lemma TakeFrameExact(payload: seq<byte>, rest: seq<byte>, cap: nat)
    ensures TakeFrame(Frame(payload) + rest, cap) == Whole(payload, rest) <==> Carried(payload, cap)
    ensures cap < |payload| < 0x1_0000 ==> TakeFrame(Frame(payload) + rest, cap) == TooLong(payload + rest)
  {
    var s := Frame(payload) + rest;
    var len := |payload| % 0x1_0000;
    assert s[0] == len % 0x100 && s[1] == len / 0x100;
    assert s[2..] == payload + rest;
    if Carried(payload, cap) {
      assert s[2..2 + len] == payload && s[2 + len..] == rest;
    }
  }

  /** What is taken as a whole frame was sent as one. */
  lemma TakenWasFramed(s: seq<byte>, cap: nat)
    requires TakeFrame(s, cap).Whole?
    ensures Carried(TakeFrame(s, cap).frame, cap)
    ensures s == Frame(TakeFrame(s, cap).frame) + TakeFrame(s, cap).rest
  {
    var len := FromLe16(s[0], s[1]);
    LengthPrefix(s[0], s[1]);
    assert s == [s[0], s[1]] + s[2..2 + len] + s[2 + len..];
  }

  lemma LengthPrefix(lo: byte, hi: byte)
    ensures Le16(FromLe16(lo, hi)) == [lo, hi]
  {
  }

  /** `n` frames taken one after the other. */
  function TakeFrames(s: seq<byte>, cap: nat, n: nat): Option<(seq<seq<byte>>, seq<byte>)>
    decreases n
  {
    if n == 0 then Some(([], s))
    else
      match TakeFrame(s, cap)
      case Whole(f, rest) =>
        (match TakeFrames(rest, cap, n - 1)
         case Some(r) => Some(([f] + r.0, r.1))
         case None => None)
      case _ => None
  }

  /**
   * Boundaries are recovered for a whole list of frames, consuming exactly their bytes, if and
   * only if every one of them can be carried.
   */
  lemma {:induction false} FramesRoundTripExact(frames: seq<seq<byte>>, rest: seq<byte>, cap: nat)
    ensures TakeFrames(Join(frames) + rest, cap, |frames|) == Some((frames, rest))
       <==> forall i :: 0 <= i < |frames| ==> Carried(frames[i], cap)
    decreases |frames|
  {
    hide TakeFrame, Frame;
    if frames == [] {
      assert Join(frames) + rest == rest;
    } else {
      var tail := Join(frames[1..]) + rest;
      assert Join(frames) + rest == Frame(frames[0]) + tail;
      TakeFrameExact(frames[0], tail, cap);
      if Carried(frames[0], cap) {
        FramesRoundTripExact(frames[1..], rest, cap);
        assert [frames[0]] + frames[1..] == frames;
        CarriedSplit(frames, cap);
        match TakeFrames(tail, cap, |frames| - 1)
        case None =>
        case Some(r) => assert ([frames[0]] + r.0)[1..] == r.0;
      } else {
        FirstFrameLost(frames, rest, cap);
      }
    }
  }

  lemma CarriedSplit(frames: seq<seq<byte>>, cap: nat)
    requires frames != []
    ensures (forall i :: 0 <= i < |frames| ==> Carried(frames[i], cap))
       <==> Carried(frames[0], cap) && forall i :: 0 <= i < |frames[1..]| ==> Carried(frames[1..][i], cap)
  {
    var tail := frames[1..];
    forall i | 0 < i < |frames|
      ensures frames[i] == tail[i - 1]
    {
    }
    forall i | 0 <= i < |tail|
      ensures tail[i] == frames[i + 1]
    {
    }
  }

  /** A first frame that cannot be carried is never the first frame read. */
  lemma FirstFrameLost(frames: seq<seq<byte>>, rest: seq<byte>, cap: nat)
    requires frames != [] && !Carried(frames[0], cap)
    ensures TakeFrames(Join(frames) + rest, cap, |frames|) != Some((frames, rest))
  {
    var tail := Join(frames[1..]) + rest;
    assert Join(frames) + rest == Frame(frames[0]) + tail;
    var s := Frame(frames[0]) + tail;
    assert s[0] == Frame(frames[0])[0] && s[1] == Frame(frames[0])[1];
    match TakeFrame(s, cap)
    case Whole(f, _) =>
      assert |f| == |frames[0]| % 0x1_0000;
      assert f != frames[0];
    case _ =>
  }

  lemma {:induction false} JoinAppend(a: seq<seq<byte>>, b: seq<seq<byte>>)
    ensures Join(a + b) == Join(a) + Join(b)
  {
    hide Frame;
    if a == [] {
      assert a + b == b;
    } else {
      assert (a + b)[1..] == a[1..] + b;
      JoinAppend(a[1..], b);
    }
  }

  lemma JoinOne(f: seq<byte>)
    ensures Join([f]) == Frame(f)
  {
    assert Join([f][1..]) == [];
  }

  // ---- a frame that was not written whole ----

  /** Frames taken one after the other were framed one after the other. */
  lemma {:induction false} TakenWereFramed(s: seq<byte>, cap: nat, n: nat)
    requires TakeFrames(s, cap, n).Some?
    ensures |TakeFrames(s, cap, n).value.0| == n
    ensures s == Join(TakeFrames(s, cap, n).value.0) + TakeFrames(s, cap, n).value.1
    decreases n
  {
    hide TakeFrame, Frame;
    if n > 0 {
      TakenWasFramed(s, cap);
      TakenWereFramed(TakeFrame(s, cap).rest, cap, n - 1);
      var later := TakeFrames(TakeFrame(s, cap).rest, cap, n - 1).value.0;
      assert ([TakeFrame(s, cap).frame] + later)[1..] == later;
    }
  }

  /**
   * When the first `k` bytes of a frame have been written and other frames follow, the peer reads
   * just those others if and only if `k` is 0, and the frame and then the others if and only if it
   * was written whole. Anything between leaves the peer out of step.
   */
  lemma FramingSurvivesExactly(f: seq<byte>, k: nat, later: seq<seq<byte>>, cap: nat)
    requires k <= |Frame(f)| && Carried(f, cap) && forall i :: 0 <= i < |later| ==> Carried(later[i], cap)
    ensures TakeFrames(Frame(f)[..k] + Join(later), cap, |later|) == Some((later, [])) <==> k == 0
    ensures TakeFrames(Frame(f)[..k] + Join(later), cap, |later| + 1) == Some(([f] + later, [])) <==> k == |Frame(f)|
  {
    hide TakeFrames, Frame, Carried;
    var s := Frame(f)[..k] + Join(later);
    var none: seq<byte> := [];
    FramesRoundTripExact(later, none, cap);
    FramesRoundTripExact([f] + later, none, cap);
    assert Join(later) + none == Join(later);
    JoinAppend([f], later);
    JoinOne(f);
    if TakeFrames(s, cap, |later|) == Some((later, [])) {
      TakenWereFramed(s, cap, |later|);
      assert |s| == |Join(later)|;
    }
    if TakeFrames(s, cap, |later| + 1) == Some(([f] + later, [])) {
      TakenWereFramed(s, cap, |later| + 1);
      assert |s| == |Join([f] + later)|;
    }
    if k == 0 {
      assert s == Join(later);
    }
    if k == |Frame(f)| {
      assert Frame(f)[..k] == Frame(f) && s + none == Join([f] + later) + none;
      assert s == s + none;
    }
  }

  /**
   * Once the length is written, the peer makes up what is missing of the frame from the bytes
   * written next, and goes on behind them.
   */
  lemma PartialFrameSwallows(f: seq<byte>, k: nat, next: seq<byte>, cap: nat)
    requires Carried(f, cap) && 2 <= k < |Frame(f)|
    ensures
      var missing := |Frame(f)| - k;
      TakeFrame(Frame(f)[..k] + next, cap)
        == if |next| < missing then Ended else Whole(f[..k - 2] + next[..missing], next[missing..])
  {
    var s := Frame(f)[..k] + next;
    var missing := |Frame(f)| - k;
    assert s[0] == Frame(f)[0] && s[1] == Frame(f)[1];
    assert Frame(f)[2..k] == f[..k - 2];
    assert FromLe16(s[0], s[1]) == |f|;
    if |next| >= missing {
      assert s[2..2 + |f|] == f[..k - 2] + next[..missing];
      assert s[2 + |f|..] == next[missing..];
    }
  }

  // ---- the transport ----

  datatype IoResult = Moved(n: nat) | Fault

  /** How often a call faulted, how often one moved no bytes, and how much of `tx` has been flushed. */
  datatype IoLog = IoLog(faults: nat, closes: nat, flushed: nat)

  function Logged(was: IoLog, r: IoResult): IoLog {
    match r
    case Fault => was.(faults := was.faults + 1)
    case Moved(n) => if n == 0 then was.(closes := was.closes + 1) else was
  }

  /** `Io` says that one call faulted, `Disconnected` that one moved no bytes; anything else, that none did. */
  ghost predicate Blamed<T>(r: Result<T>, was: IoLog, now: IoLog) {
    && now.faults == was.faults + (if r.Err? && r.error.Io? then 1 else 0)
    && now.closes == was.closes + (if r.Err? && r.error.Disconnected? then 1 else 0)
  }

  lemma NothingBlamed(log: IoLog)
    ensures Blamed<()>(Err(BufferTooSmall), log, log)
  {
  }

  /**
   * A connection. `rx` is everything that will still arrive, `tx` everything handed over. How
   * many bytes one call moves is arbitrary; only an unreliable connection may fault.
   */
  class Transport {
    const reliable: bool
    var rx: seq<byte>
    var tx: seq<byte>
    ghost var log: IoLog

    /** 0 bytes read means that the peer has closed. */
    method Read(buf: array<byte>, lo: nat, hi: nat) returns (r: IoResult)
      requires lo < hi <= buf.Length
      modifies `rx, `log, buf
      ensures reliable ==> r.Moved?
      ensures r.Moved? && r.n == 0 ==> old(rx) == []
      ensures log == Logged(old(log), r)
      ensures r.Moved? ==> r.n <= hi - lo && r.n <= |old(rx)| && rx == old(rx)[r.n..]
      ensures r.Fault? ==> rx == old(rx)
      ensures buf[..] == Overlay(old(buf[..]), lo, hi, if r.Moved? then old(rx)[..r.n] else [])
    {
      if * {
        if !reliable {
          log := Logged(log, Fault);
          return Fault;
        }
      }
      if rx == [] {
        log := Logged(log, Moved(0));
        return Moved(0);
      }
      var n: nat :| 1 <= n <= hi - lo && n <= |rx|;
      forall i | 0 <= i < n {
        buf[lo + i] := rx[i];
      }
      rx := rx[n..];
      return Moved(n);
    }

    method Write(data: seq<byte>) returns (r: IoResult)
      requires data != []
      modifies `tx, `log
      ensures reliable ==> r.Moved? && r.n > 0
      ensures log == Logged(old(log), r)
      ensures r.Moved? ==> r.n <= |data| && tx == old(tx) + data[..r.n]
      ensures r.Fault? ==> tx == old(tx)
    {
      if * {
        if !reliable {
          if * {
            log := Logged(log, Moved(0));
            return Moved(0);
          }
          log := Logged(log, Fault);
          return Fault;
        }
      }
      var n: nat :| 1 <= n <= |data|;
      tx := tx + data[..n];
      return Moved(n);
    }

    method Flush() returns (ok: bool)
      modifies `log
      ensures reliable ==> ok
      ensures log == if ok then old(log).(flushed := |tx|) else Logged(old(log), Fault)
    {
      ok := true;
      if * {
        ok := reliable;
      }
      log := if ok then log.(flushed := |tx|) else Logged(log, Fault);
    }
  }

  // ---- transfer loops ----

  /** All of `data`, or on an error a proper prefix of it. */
  method WriteAll(t: Transport, data: seq<byte>) returns (r: Result<()>)
    modifies t`tx, t`log
    ensures Blamed(r, old(t.log), t.log) && t.log.flushed == old(t.log.flushed)
    ensures r.Ok? ==> t.tx == old(t.tx) + data
    ensures r.Err? ==> old(t.tx) <= t.tx < old(t.tx) + data
    ensures t.reliable ==> r.Ok?
    ensures r.Err? ==> r.error in {Io, Disconnected}
  {
    var left := data;
    while left != []
      invariant old(t.tx) <= t.tx && t.tx + left == old(t.tx) + data
      invariant t.log == old(t.log)
      decreases |left|
    {
      var w := t.Write(left);
      match w
      case Fault => return Err(Io);
      case Moved(n) =>
        if n == 0 {
          return Err(Disconnected);
        }
        assert left[..n] + left[n..] == left;
        left := left[n..];
    }
    return Ok(());
  }

  lemma OverlayNothing(base: seq<byte>, lo: nat, hi: nat)
    requires lo <= hi <= |base|
    ensures Overlay(base, lo, hi, []) == base
  {
  }

  /** Reading on where the last read stopped continues the same stream. */
  lemma OverlayContinues(base: seq<byte>, lo: nat, at: nat, hi: nat, s: seq<byte>, n: nat)
    requires lo <= at <= hi <= |base| && n <= hi - at && at - lo + n <= |s|
    ensures Overlay(Overlay(base, lo, hi, s[..at - lo]), at, hi, s[at - lo..][..n])
         == Overlay(base, lo, hi, s[..at - lo + n])
    ensures s[at - lo..][n..] == s[at - lo + n..]
  {
  }

  /** `after` is what is left of `before` once some of it has been read. */
  ghost predicate Remains(after: seq<byte>, before: seq<byte>) {
    |after| <= |before| && after == before[|before| - |after|..]
  }

  /** Fills `buf[lo..hi]`, however the bytes arrive. */
  method ReadExact(t: Transport, buf: array<byte>, lo: nat, hi: nat) returns (r: Result<()>)
    requires lo <= hi <= buf.Length
    modifies t`rx, t`log, buf
    ensures Blamed(r, old(t.log), t.log) && t.log.flushed == old(t.log.flushed)
    ensures r.Ok? ==> |old(t.rx)| >= hi - lo && t.rx == old(t.rx)[hi - lo..]
    ensures r.Ok? ==> buf[..] == Overlay(old(buf[..]), lo, hi, old(t.rx)[..hi - lo])
    ensures r == Err(Disconnected) ==> |old(t.rx)| < hi - lo && t.rx == []
    ensures r == Err(Io) ==> !t.reliable && Remains(t.rx, old(t.rx))
    ensures r.Err? ==> r.error in {Io, Disconnected}
  {
    hide Overlay;
    var at := lo;
    OverlayNothing(buf[..], lo, hi);
    while at < hi
      invariant lo <= at <= hi
      invariant at - lo <= |old(t.rx)| && t.rx == old(t.rx)[at - lo..]
      invariant buf[..] == Overlay(old(buf[..]), lo, hi, old(t.rx)[..at - lo])
      invariant t.log == old(t.log)
      decreases hi - at
    {
      var m := t.Read(buf, at, hi);
      match m
      case Fault => return Err(Io);
      case Moved(n) =>
        if n == 0 {
          return Err(Disconnected);
        }
        OverlayContinues(old(buf[..]), lo, at, hi, old(t.rx), n);
        at := at + n;
    }
    return Ok(());
  }

  /** The whole frame, or on an error some prefix of it, which is whole only if the flush failed. */
  method WriteFramed(t: Transport, payload: seq<byte>) returns (r: Result<()>)
    modifies t`tx, t`log
    ensures Blamed(r, old(t.log), t.log) && t.log.flushed == if r.Ok? then |t.tx| else old(t.log.flushed)
    ensures r.Ok? ==> t.tx == old(t.tx) + Frame(payload)
    ensures r.Err? ==> old(t.tx) <= t.tx <= old(t.tx) + Frame(payload)
    ensures t.reliable ==> r.Ok?
    ensures r.Err? ==> r.error in {Io, Disconnected}
  {
    r := WriteAll(t, Le16(|payload| % 0x1_0000));
    if r.Err? {
      return r;
    }
    r := WriteAll(t, payload);
    if r.Err? {
      return r;
    }
    var flushed := t.Flush();
    if !flushed {
      return Err(Io);
    }
  }

  /** What reading one frame reports, for the stream it was read from. */
  ghost predicate ReadsFrame(r: Result<nat>, reliable: bool, before: seq<byte>, after: seq<byte>, buf: seq<byte>) {
    && (r.Ok? ==> r.value <= |buf| && TakeFrame(before, |buf|) == Whole(buf[..r.value], after))
    && (r == Err(BufferTooSmall) ==> TakeFrame(before, |buf|) == TooLong(after))
    && (r == Err(Disconnected) ==> TakeFrame(before, |buf|) == Ended && after == [])
    && (r == Err(Io) ==> !reliable && Remains(after, before))
    && (r.Err? ==> r.error in {Io, Disconnected, BufferTooSmall})
  }

  lemma NoFrame(s: seq<byte>, cap: nat)
    ensures |s| < 2 ==> TakeFrame(s, cap) == Ended
  {
  }

  /** A frame in terms of the two exact reads it takes. */
  lemma FrameParts(s: seq<byte>, len: nat, cap: nat)
    requires |s| >= 2 && len == FromLe16(s[0], s[1])
    ensures len > cap ==> TakeFrame(s, cap) == TooLong(s[2..])
    ensures len <= cap && |s[2..]| < len ==> TakeFrame(s, cap) == Ended
    ensures len <= cap && |s[2..]| >= len ==> TakeFrame(s, cap) == Whole(s[2..][..len], s[2..][len..])
  {
  }

  /**
   * Reads one frame into `buf` and returns its length. The handshake reader and the session's
   * receive loop are this same code.
   */
  method ReadFramed(t: Transport, buf: array<byte>) returns (r: Result<nat>)
    modifies t`rx, t`log, buf
    ensures Blamed(r, old(t.log), t.log) && t.log.flushed == old(t.log.flushed)
    ensures ReadsFrame(r, t.reliable, old(t.rx), t.rx, buf[..])
  {
    hide Overlay, TakeFrame, FromLe16;
    var lenBuf := new byte[2](_ => 0);
    var h := ReadExact(t, lenBuf, 0, 2);
    if h.Err? {
      NoFrame(old(t.rx), buf.Length);
      return Err(h.error);
    }
    assert lenBuf[..] == old(t.rx)[..2];
    assert lenBuf[0] == lenBuf[..][0] && lenBuf[1] == lenBuf[..][1];
    var len := FromLe16(lenBuf[0], lenBuf[1]);
    FrameParts(old(t.rx), len, buf.Length);
    if len > buf.Length {
      return Err(BufferTooSmall);
    }
    var p := ReadExact(t, buf, 0, len);
    if p.Err? {
      return Err(p.error);
    }
    assert buf[..][..len] == old(t.rx)[2..][..len];
    return Ok(len);
  }
}
