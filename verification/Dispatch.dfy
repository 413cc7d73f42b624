/**
 * Demultiplexing of incoming frames as a state machine: a dispatch table of bounded inboxes,
 * stepped by received frames, by consumers and by registrations, in any interleaving.
 */
module Dispatch {
  import opened Bytes
  import opened Protocol
  import opened Cdr
  import opened CdrReading
  import opened AgentWire

  /** One registered subscription: its reader id, message type, inbox depth, and both ends of its inbox. */
  datatype Slot = Slot(id: u16, schema: Schema, depth: nat, taken: seq<Message>, queue: seq<Message>)

  datatype Event =
    | Frame(bytes: seq<byte>)
    | Receive(slot: nat)
    | Join(joined: Slot)
    | Rejoin(slot: nat, id: u16) // a registered slot registered once more, under a new reader

  // ---- the code's dispatch ----

  /** Deserializing a SerializedPayload, encapsulation header and all. */
  function Deserialize(schema: Schema, payload: seq<byte>): Option<Message> {
    match DecodeAll(schema, Body(payload), 0)
    case Got(m, _) => Some(m)
    case Short(_) => None
  }

  /** Older samples are kept and a newer one dropped when the inbox is full. */
  function Deliver(s: Slot, payload: seq<byte>): Slot {
    match Deserialize(s.schema, payload)
    case Some(m) => if |s.queue| < s.depth then s.(queue := s.queue + [m]) else s
    case None => s
  }

  /** Index of the first slot with this reader id, `|slots|` if there is none. */
  function FirstMatch(slots: seq<Slot>, id: u16): (i: nat)
    ensures i <= |slots|
    ensures i < |slots| ==> slots[i].id == id
    ensures forall j :: 0 <= j < i ==> slots[j].id != id
  {
    if slots == [] then 0
    else if slots[0].id == id then 0
    else
      var i := FirstMatch(slots[1..], id);
      assert forall j :: 0 < j < i + 1 ==> slots[j] == slots[1..][j - 1];
      i + 1
  }

  function DispatchPayload(slots: seq<Slot>, payload: seq<byte>): (r: seq<Slot>)
    ensures |r| == |slots|
  {
    if |payload| < 4 then slots
    else
      var i := FirstMatch(slots, FromBe16(payload[2], payload[3]));
      if i < |slots| then slots[i := Deliver(slots[i], payload[4..])] else slots
  }

  /** The payload of a frame's first submessage, cut at the frame's end. */
  function FirstPayload(sid: byte, f: seq<byte>): seq<byte>
    requires |f| >= HdrLen(sid) + 4
  {
    var h := HdrLen(sid);
    f[h + 4..Min(h + 4 + FromLe16(f[h + 2], f[h + 3]), |f|)]
  }

  function DispatchFrame(sid: byte, slots: seq<Slot>, f: seq<byte>): (r: seq<Slot>)
    ensures |r| == |slots|
  {
    if |f| < HdrLen(sid) + 4 then slots
    else if f[HdrLen(sid)] == SUBMSG_DATA then DispatchPayload(slots, FirstPayload(sid, f))
    else slots
  }

  // ---- runs ----

  function ReceiveOne(s: Slot): Slot {
    if s.queue == [] then s else s.(taken := s.taken + [s.queue[0]], queue := s.queue[1..])
  }

  function Step(sid: byte, slots: seq<Slot>, e: Event): (r: seq<Slot>)
    ensures |slots| <= |r|
  {
    match e
    case Frame(f) => DispatchFrame(sid, slots, f)
    case Receive(i) => if i < |slots| then slots[i := ReceiveOne(slots[i])] else slots
    case Join(s) => slots + [s]
    case Rejoin(i, id) => if i < |slots| then slots[i := slots[i].(id := id)] else slots
  }

  function Run(sid: byte, slots: seq<Slot>, evs: seq<Event>): (r: seq<Slot>)
    ensures |slots| <= |r|
  {
    if evs == [] then slots
    else Step(sid, Run(sid, slots, evs[..|evs| - 1]), evs[|evs| - 1])
  }

  lemma {:induction false} RunAppend(sid: byte, slots: seq<Slot>, a: seq<Event>, b: seq<Event>)
    ensures Run(sid, slots, a + b) == Run(sid, Run(sid, slots, a), b)
  {
    hide Step;
    if b == [] {
      assert a + b == a;
    } else {
      assert (a + b)[..|a + b| - 1] == a + b[..|b| - 1];
      RunAppend(sid, slots, a, b[..|b| - 1]);
    }
  }

  lemma RunSnoc(sid: byte, slots: seq<Slot>, evs: seq<Event>, e: Event)
    ensures Run(sid, slots, evs + [e]) == Step(sid, Run(sid, slots, evs), e)
  {
    hide Step;
    assert (evs + [e])[..|evs|] == evs;
  }

  /** The frames among some events, in order. */
  function FramesOf(evs: seq<Event>): seq<seq<byte>> {
    if evs == [] then []
    else FramesOf(evs[..|evs| - 1]) + if evs[|evs| - 1].Frame? then [evs[|evs| - 1].bytes] else []
  }

  lemma {:induction false} FramesOfAppend(a: seq<Event>, b: seq<Event>)
    ensures FramesOf(a + b) == FramesOf(a) + FramesOf(b)
  {
    if b == [] {
      assert a + b == a;
    } else {
      assert (a + b)[..|a + b| - 1] == a + b[..|b| - 1];
      FramesOfAppend(a, b[..|b| - 1]);
    }
  }

  lemma NoFrames()
    ensures FramesOf([]) == []
  {
  }

  lemma OneFrame(f: seq<byte>)
    ensures FramesOf([Frame(f)]) == [f]
  {
    assert FramesOf([Frame(f)][..0]) == [];
  }

  lemma OnePoll(i: nat)
    ensures FramesOf([Receive(i)]) == []
  {
    assert [Receive(i)][..0] == [];
  }

  lemma ShortFrameIgnored(sid: byte, slots: seq<Slot>, f: seq<byte>)
    requires |f| < HdrLen(sid) + 4
    ensures DispatchFrame(sid, slots, f) == slots
  {
  }

  /** Only frames and polls. */
  predicate NoJoins(evs: seq<Event>) {
    forall i :: 0 <= i < |evs| ==> !evs[i].Join? && !evs[i].Rejoin?
  }

  /** Without registrations the table keeps its size. */
  lemma {:induction false} TableKeepsSize(sid: byte, slots: seq<Slot>, evs: seq<Event>)
    requires NoJoins(evs)
    ensures |Run(sid, slots, evs)| == |slots|
  {
    if evs != [] {
      TableKeepsSize(sid, slots, evs[..|evs| - 1]);
    }
  }

  // ---- the specification: one bounded FIFO per subscription ----

  datatype Input = Arrive(sample: Message) | Poll

  /** How many samples a FIFO of this depth holds after these inputs, starting from `start`. */
  function Level(depth: nat, start: nat, inputs: seq<Input>): nat {
    if inputs == [] then start
    else
      var n := Level(depth, start, inputs[..|inputs| - 1]);
      match inputs[|inputs| - 1]
      case Arrive(_) => if n < depth then n + 1 else n
      case Poll => if n > 0 then n - 1 else 0
  }

  /** The arriving samples, in order, minus those that arrive while `depth` are held. */
  function Kept(depth: nat, start: nat, inputs: seq<Input>): seq<Message> {
    if inputs == [] then []
    else
      var before := inputs[..|inputs| - 1];
      match inputs[|inputs| - 1]
      case Arrive(m) => Kept(depth, start, before) + if Level(depth, start, before) < depth then [m] else []
      case Poll => Kept(depth, start, before)
  }

  /** The reader id and user data of a frame, if it is DATA and long enough to carry them. */
  function Addressed(sid: byte, f: seq<byte>): Option<(u16, seq<byte>)> {
    if |f| < HdrLen(sid) + 4 || f[HdrLen(sid)] != SUBMSG_DATA then None
    else
      var p := FirstPayload(sid, f);
      if |p| < 4 then None else Some((FromBe16(p[2], p[3]), p[4..]))
  }

  /** Slot `i` answers for reader `id`: it has that id, and no earlier slot does. */
  predicate Answers(slots: seq<Slot>, i: nat, id: u16)
    requires i < |slots|
  {
    slots[i].id == id && forall j :: 0 <= j < i ==> slots[j].id != id
  }

  /** What one event of the whole system means to slot `i` alone, in the table as it then is. */
  function InputOf(sid: byte, slots: seq<Slot>, i: nat, e: Event): seq<Input>
    requires i < |slots|
  {
    match e
    case Frame(f) =>
      (match Addressed(sid, f)
       case None => []
       case Some(a) =>
         if !Answers(slots, i, a.0) then []
         else
           match Deserialize(slots[i].schema, a.1)
           case Some(m) => [Arrive(m)]
           case None => [])
    case Receive(j) => if i == j then [Poll] else []
    case _ => []
  }

  function InputsOf(sid: byte, slots: seq<Slot>, i: nat, evs: seq<Event>): seq<Input>
    requires i < |slots|
  {
    if evs == [] then []
    else
      var before := evs[..|evs| - 1];
      InputsOf(sid, slots, i, before) + InputOf(sid, Run(sid, slots, before), i, evs[|evs| - 1])
  }

  /** `s` is what `s0` becomes as a bounded FIFO fed `inputs`. */
  ghost predicate FifoState(s0: Slot, s: Slot, inputs: seq<Input>) {
    && s.schema == s0.schema && s.depth == s0.depth
    && s.taken + s.queue == s0.taken + s0.queue + Kept(s0.depth, |s0.queue|, inputs)
    && |s.queue| == Level(s0.depth, |s0.queue|, inputs)
    && s0.taken <= s.taken
  }

  /** First-match dispatch changes exactly the slot that answers for the addressed reader. */
  lemma DispatchAt(sid: byte, slots: seq<Slot>, f: seq<byte>, i: nat)
    requires i < |slots|
    ensures
      var a := Addressed(sid, f);
      DispatchFrame(sid, slots, f)[i]
        == if a.Some? && Answers(slots, i, a.value.0) then Deliver(slots[i], a.value.1) else slots[i]
  {
    hide Deliver, FirstPayload;
    if Addressed(sid, f).Some? {
      var k := FirstMatch(slots, Addressed(sid, f).value.0);
      assert k == i <==> Answers(slots, i, Addressed(sid, f).value.0);
    }
  }

  /** A slot after one event, up to its reader id. */
  predicate Became(s: Slot, t: Slot, inp: seq<Input>) {
    && t.schema == s.schema && t.depth == s.depth
    && (t.taken, t.queue) ==
      if |inp| != 1 then (s.taken, s.queue)
      else match inp[0] {
        case Poll => (ReceiveOne(s).taken, ReceiveOne(s).queue)
        case Arrive(m) => (s.taken, if |s.queue| < s.depth then s.queue + [m] else s.queue)
      }
  }

  lemma StepIsInput(sid: byte, slots: seq<Slot>, i: nat, e: Event)
    requires i < |slots|
    ensures |InputOf(sid, slots, i, e)| <= 1
    ensures Became(slots[i], Step(sid, slots, e)[i], InputOf(sid, slots, i, e))
  {
    hide Deserialize, Addressed, DispatchFrame;
    match e
    case Frame(f) => DispatchAt(sid, slots, f, i);
    case _ =>
  }

  lemma FifoAdvances(s0: Slot, s: Slot, inputs: seq<Input>, inp: seq<Input>, t: Slot)
    requires FifoState(s0, s, inputs) && |inp| <= 1 && Became(s, t, inp)
    ensures FifoState(s0, t, inputs + inp)
  {
    if inp == [] {
      assert inputs + inp == inputs;
    } else {
      assert inputs + inp == inputs + [inp[0]] && (inputs + [inp[0]])[..|inputs|] == inputs;
      match inp[0]
      case Poll =>
        if s.queue != [] {
          assert t.taken + t.queue == s.taken + s.queue;
        }
      case Arrive(m) =>
        if |s.queue| < s.depth {
          assert t.taken + t.queue == s.taken + s.queue + [m];
        }
    }
  }

  /**
   * In every interleaving of frames, consumer polls and registrations, each subscription behaves
   * as its own bounded FIFO: what was received followed by what is queued is exactly the
   * decodable samples addressed to it, in arrival order, minus those that arrived while it was
   * full; nothing addressed elsewhere and no other subscription's consumer touches it.
   */
  lemma {:induction false} SubscriptionIsBoundedFifo(sid: byte, slots: seq<Slot>, evs: seq<Event>, i: nat)
    requires i < |slots|
    ensures FifoState(slots[i], Run(sid, slots, evs)[i], InputsOf(sid, slots, i, evs))
  {
    hide Step, InputOf, FifoState, Became, ReceiveOne;
    if evs == [] {
      NothingYet(slots[i]);
    } else {
      var before := evs[..|evs| - 1];
      var later := Run(sid, slots, before);
      SubscriptionIsBoundedFifo(sid, slots, before, i);
      StepIsInput(sid, later, i, evs[|evs| - 1]);
      FifoAdvances(slots[i], later[i], InputsOf(sid, slots, i, before), InputOf(sid, later, i, evs[|evs| - 1]),
                   Run(sid, slots, evs)[i]);
    }
  }

  lemma NothingYet(s: Slot)
    ensures FifoState(s, s, [])
  {
    assert s.taken + s.queue + [] == s.taken + s.queue;
  }

  /** An inbox within its depth stays within it. */
  lemma {:induction false} LevelBounded(depth: nat, start: nat, inputs: seq<Input>)
    requires start <= depth
    ensures Level(depth, start, inputs) <= depth
  {
    if inputs != [] {
      LevelBounded(depth, start, inputs[..|inputs| - 1]);
    }
  }

  // ---- subscriptions that join a running session ----

  /** Every slot of a run from an empty table joined at one point of it, with the slots before it in place. */
  lemma {:induction false} EverySlotJoined(sid: byte, trace: seq<Event>, i: nat)
    returns (before: seq<Event>, s: Slot, after: seq<Event>)
    requires i < |Run(sid, [], trace)|
    ensures trace == before + [Join(s)] + after && |Run(sid, [], before)| == i
  {
    hide DispatchFrame;
    var e := trace[|trace| - 1];
    var t := trace[..|trace| - 1];
    assert trace == t + [e];
    if i < |Run(sid, [], t)| {
      before, s, after := EverySlotJoined(sid, t, i);
      after := after + [e];
    } else {
      before, s, after := t, e.joined, [];
    }
  }

  /**
   * A subscription that joins a running session, with whatever is in its inbox: from then on it
   * is a bounded FIFO of what is addressed to it, whatever happened before it joined.
   */
  lemma JoinedSubscriptionIsBoundedFifo(sid: byte, before: seq<Event>, s: Slot, after: seq<Event>)
    ensures
      var table := Run(sid, [], before) + [s];
      var i := |table| - 1;
      var end := Run(sid, [], before + [Join(s)] + after);
      && i < |end|
      && FifoState(s, end[i], InputsOf(sid, table, i, after))
      && (|s.queue| <= s.depth ==> |end[i].queue| <= s.depth)
  {
    hide Kept, Level, InputsOf, Step;
    var table := Run(sid, [], before) + [s];
    var i := |table| - 1;
    RunSnoc(sid, [], before, Join(s));
    RegistrationSteps(sid, Run(sid, [], before), s, 0, s.id);
    RunAppend(sid, [], before + [Join(s)], after);
    SubscriptionIsBoundedFifo(sid, table, after, i);
    if |s.queue| <= s.depth {
      LevelBounded(s.depth, |s.queue|, InputsOf(sid, table, i, after));
    }
  }

  /** What the two kinds of registration do to the table. */
  lemma RegistrationSteps(sid: byte, slots: seq<Slot>, s: Slot, i: nat, id: u16)
    ensures Step(sid, slots, Join(s)) == slots + [s]
    ensures i < |slots| ==> Step(sid, slots, Rejoin(i, id)) == slots[i := slots[i].(id := id)]
  {
  }

  // ---- traffic without registrations ----

  /** Ids, types and depths of the slots are the same. */
  predicate SameShape(slots: seq<Slot>, later: seq<Slot>) {
    && |slots| <= |later|
    && forall i :: 0 <= i < |slots| ==>
      later[i].id == slots[i].id && later[i].schema == slots[i].schema && later[i].depth == slots[i].depth
  }

  lemma StepKeepsShape(sid: byte, slots: seq<Slot>, later: seq<Slot>, e: Event)
    requires SameShape(slots, later) && !e.Rejoin?
    ensures SameShape(slots, Step(sid, later, e))
  {
    hide Deserialize, FirstPayload;
  }

  lemma {:induction false} RunKeepsShape(sid: byte, slots: seq<Slot>, evs: seq<Event>)
    requires NoJoins(evs)
    ensures SameShape(slots, Run(sid, slots, evs))
  {
    hide Step;
    if evs != [] {
      RunKeepsShape(sid, slots, evs[..|evs| - 1]);
      StepKeepsShape(sid, slots, Run(sid, slots, evs[..|evs| - 1]), evs[|evs| - 1]);
    }
  }

  lemma SameInput(sid: byte, slots: seq<Slot>, later: seq<Slot>, i: nat, e: Event)
    requires i < |slots| && SameShape(slots, later)
    ensures InputOf(sid, later, i, e) == InputOf(sid, slots, i, e)
  {
    hide Deserialize, Addressed;
    if e.Frame? && Addressed(sid, e.bytes).Some? {
      assert Answers(later, i, Addressed(sid, e.bytes).value.0) == Answers(slots, i, Addressed(sid, e.bytes).value.0);
    }
  }

  /** Whenever a frame addressed to `id` comes in, nothing in the table changes. */
  ghost predicate Unanswered(sid: byte, slots: seq<Slot>, evs: seq<Event>, id: u16) {
    forall k :: 0 <= k < |evs| && evs[k].Frame? && Addressed(sid, evs[k].bytes).Some?
                && Addressed(sid, evs[k].bytes).value.0 == id ==>
      Run(sid, slots, evs[..k + 1]) == Run(sid, slots, evs[..k])
  }

  /** Until some slot has the id, what is addressed to it is lost. */
  lemma NobodyAnswers(sid: byte, slots: seq<Slot>, evs: seq<Event>, id: u16)
    requires NoJoins(evs) && forall i :: 0 <= i < |slots| ==> slots[i].id != id
    ensures Unanswered(sid, slots, evs, id)
  {
    hide Run, Addressed, DispatchFrame;
    forall k | 0 <= k < |evs| && evs[k].Frame? && Addressed(sid, evs[k].bytes).Some?
               && Addressed(sid, evs[k].bytes).value.0 == id
      ensures Run(sid, slots, evs[..k + 1]) == Run(sid, slots, evs[..k])
    {
      var mid := Run(sid, slots, evs[..k]);
      assert evs[..k + 1] == evs[..k] + [evs[k]];
      RunSnoc(sid, slots, evs[..k], evs[k]);
      RunKeepsShape(sid, slots, evs[..k]);
      TableKeepsSize(sid, slots, evs[..k]);
      forall i | 0 <= i < |mid|
        ensures DispatchFrame(sid, mid, evs[k].bytes)[i] == mid[i]
      {
        DispatchAt(sid, mid, evs[k].bytes, i);
      }
    }
  }

  /** The samples that arrive among some inputs. */
  function Arrivals(inputs: seq<Input>): seq<Message> {
    if inputs == [] then []
    else
      Arrivals(inputs[..|inputs| - 1]) + match inputs[|inputs| - 1] case Arrive(m) => [m] case Poll => []
  }

  /** The samples that some frames hold for slot `i`. */
  function SamplesFor(sid: byte, slots: seq<Slot>, i: nat, fs: seq<seq<byte>>): seq<Message>
    requires i < |slots|
  {
    if fs == [] then []
    else SamplesFor(sid, slots, i, fs[..|fs| - 1]) + Arrivals(InputOf(sid, slots, i, Frame(fs[|fs| - 1])))
  }

  lemma {:induction false} ArrivalsAppend(a: seq<Input>, b: seq<Input>)
    ensures Arrivals(a + b) == Arrivals(a) + Arrivals(b)
  {
    if b == [] {
      assert a + b == a;
    } else {
      assert (a + b)[..|a + b| - 1] == a + b[..|b| - 1];
      ArrivalsAppend(a, b[..|b| - 1]);
    }
  }

  /** Between registrations, polls do not matter to what arrives: it is what the frames hold. */
  lemma {:induction false} ArrivalsAreSamples(sid: byte, slots: seq<Slot>, i: nat, evs: seq<Event>)
    requires i < |slots| && NoJoins(evs)
    ensures Arrivals(InputsOf(sid, slots, i, evs)) == SamplesFor(sid, slots, i, FramesOf(evs))
  {
    hide InputOf, Run;
    if evs != [] {
      var before := evs[..|evs| - 1];
      var e := evs[|evs| - 1];
      ArrivalsAreSamples(sid, slots, i, before);
      RunKeepsShape(sid, slots, before);
      SameInput(sid, slots, Run(sid, slots, before), i, e);
      ArrivalsAppend(InputsOf(sid, slots, i, before), InputOf(sid, slots, i, e));
      if e.Frame? {
        assert FramesOf(evs)[..|FramesOf(evs)| - 1] == FramesOf(before);
      } else {
        PollsBringNothing(sid, slots, i, e);
        assert FramesOf(evs) == FramesOf(before);
      }
    }
  }

  lemma PollsBringNothing(sid: byte, slots: seq<Slot>, i: nat, e: Event)
    requires i < |slots| && !e.Frame?
    ensures Arrivals(InputOf(sid, slots, i, e)) == []
  {
  }

  /** While the inbox cannot fill up, nothing is dropped. */
  lemma {:induction false} NothingDropped(depth: nat, start: nat, inputs: seq<Input>)
    requires start + |Arrivals(inputs)| <= depth
    ensures Kept(depth, start, inputs) == Arrivals(inputs)
    ensures Level(depth, start, inputs) <= start + |Arrivals(inputs)|
  {
    if inputs != [] {
      NothingDropped(depth, start, inputs[..|inputs| - 1]);
    }
  }

  /**
   * Between registrations, with room for all that the frames hold for it, a subscription gains
   * exactly those samples, in order, however its consumer and everyone else's polls fall.
   */
  lemma RoomyInboxGainsAll(sid: byte, slots: seq<Slot>, i: nat, evs: seq<Event>)
    requires i < |slots| && NoJoins(evs)
    requires |slots[i].queue| + |SamplesFor(sid, slots, i, FramesOf(evs))| <= slots[i].depth
    ensures
      var s := Run(sid, slots, evs)[i];
      s.taken + s.queue == slots[i].taken + slots[i].queue + SamplesFor(sid, slots, i, FramesOf(evs))
  {
    hide Run, InputsOf, SamplesFor, Kept, Level, Arrivals;
    SubscriptionIsBoundedFifo(sid, slots, evs, i);
    ArrivalsAreSamples(sid, slots, i, evs);
    NothingDropped(slots[i].depth, |slots[i].queue|, InputsOf(sid, slots, i, evs));
  }
}
