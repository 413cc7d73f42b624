/** The subscription handle: a reader id and a bounded inbox shared by dispatcher and consumer. */
module Subscriptions {
  import opened Bytes
  import opened Cdr
  import opened CdrReading
  import D = Dispatch

  class Subscription {
    const schema: Schema
    const depth: nat
    var drId: u16
    var inbox: seq<Message>
    ghost var taken: seq<Message>

    constructor (schema: Schema, depth: nat)
      ensures State() == D.Slot(0, schema, depth, [], [])
    {
      this.schema, this.depth := schema, depth;
      drId, inbox, taken := 0, [], [];
    }

    /** The abstract slot: everything consumed so far is part of it. */
    ghost function State(): D.Slot
      reads this
    {
      D.Slot(drId, schema, depth, taken, inbox)
    }

    /** `None` and no change when nothing is queued. */
    method TryRecv() returns (r: Option<Message>)
      modifies `inbox, `taken
      ensures State() == D.ReceiveOne(old(State()))
      ensures r == if old(inbox) == [] then None else Some(old(inbox)[0])
    {
      if inbox == [] {
        return None;
      }
      r := Some(inbox[0]);
      taken := taken + [inbox[0]];
      inbox := inbox[1..];
    }

    method SetDrId(id: u16)
      modifies `drId
      ensures State() == old(State()).(id := id)
    {
      drId := id;
    }

    method TryDeliver(payload: seq<byte>) returns (r: Result<()>)
      modifies `inbox
      ensures State() == D.Deliver(old(State()), payload)
      ensures if r.Ok? then |inbox| == |old(inbox)| + 1 <= depth && old(inbox) <= inbox else inbox == old(inbox)
      ensures r == match D.Deserialize(schema, payload) {
        case None => Err(Deserialization)
        case Some(_) => if |old(inbox)| < depth then Ok(()) else Err(SubscriptionOverflow)
      }
    {
      hide DecodeAll;
      var reader := new CdrReader(payload);
      var m := reader.ReadAll(schema);
      if m.Err? {
        return Err(m.error);
      }
      if |inbox| >= depth {
        return Err(SubscriptionOverflow);
      }
      inbox := inbox + [m.value];
      return Ok(());
    }
  }
}
