/**
 * The CDR deserializer: a cursor over an immutable body. Every method is total, with positions
 * that do not wrap (`Cdr.TakeWrapsExactly` says when 32-bit ones would); its contract is the
 * pure decoding function, so it also says where a failed read leaves the cursor.
 */
module CdrReading {
  import opened Bytes
  import opened Cdr

  /** The reader's view of a SerializedPayload: the 4-byte encapsulation header is skipped. */
  function Body(payload: seq<byte>): seq<byte> {
    if |payload| >= 4 then payload[4..] else []
  }

  /** What a typed read that ends at `pos` reports. */
  function Outcome(r: Result<Value>, pos: nat): Read<Value> {
    match r
    case Ok(v) => Got(v, pos)
    case Err(_) => Short(pos)
  }

  /** What is still to be read of a message whose first fields `done` were read up to `pos`. */
  ghost predicate Reading(s: Schema, i: nat, buf: seq<byte>, start: nat, done: Message, pos: nat) {
    && i == |done| <= |s|
    && DecodeAll(s, buf, start) == After(done, DecodeAll(s[i..], buf, pos))
  }

  lemma ReadNext(s: Schema, i: nat, buf: seq<byte>, start: nat, done: Message, pos: nat)
    requires i < |s| && Reading(s, i, buf, start, done, pos)
    ensures Decode(s[i], buf, pos).Short? ==> DecodeAll(s, buf, start) == Short(Decode(s[i], buf, pos).pos)
    ensures Decode(s[i], buf, pos).Got? ==>
      Reading(s, i + 1, buf, start, done + [Decode(s[i], buf, pos).value], Decode(s[i], buf, pos).pos)
  {
    hide Decode;
    assert s[i..][1..] == s[i + 1..];
    match Decode(s[i], buf, pos)
    case Short(_) =>
    case Got(v, p) =>
      match DecodeAll(s[i + 1..], buf, p)
      case Short(_) =>
      case Got(vs, _) => assert done + ([v] + vs) == (done + [v]) + vs;
  }

  class CdrReader {
    const buf: seq<byte>
    var pos: nat

    constructor (payload: seq<byte>)
      ensures buf == Body(payload) && pos == 0
    {
      buf, pos := if |payload| >= 4 then payload[4..] else [], 0;
    }

    constructor FromBody(body: seq<byte>)
      ensures buf == body && pos == 0
    {
      buf, pos := body, 0;
    }

    function Remaining(): (n: nat)
      reads this
      ensures forall k: nat :: k > 0 ==> (Take(buf, pos, k).Got? <==> k <= n)
    {
      if pos <= |buf| then |buf| - pos else 0
    }

    method TakeBytes(n: nat) returns (r: Result<seq<byte>>)
      modifies this
      ensures Take(buf, old(pos), n) == match r { case Ok(s) => Got(s, pos) case Err(_) => Short(pos) }
      ensures r.Err? ==> r.error == Deserialization
    {
      if pos + n > |buf| {
        return Err(Deserialization);
      }
      var s := buf[pos..pos + n];
      pos := pos + n;
      return Ok(s);
    }

    method Align(n: nat)
      requires n > 0
      modifies this
      ensures pos == AlignUp(old(pos), n)
    {
      var rem := pos % n;
      if rem != 0 {
        pos := pos + (n - rem);
      }
    }

    method U8Val() returns (r: Result<byte>)
      modifies this
      ensures Outcome(match r { case Ok(b) => Ok(U8(b)) case Err(e) => Err(e) }, pos) == Decode(U8K, buf, old(pos))
      ensures r.Err? ==> r.error == Deserialization
    {
      if pos >= |buf| {
        return Err(Deserialization);
      }
      var b := buf[pos];
      pos := pos + 1;
      return Ok(b);
    }

    method BoolVal() returns (r: Result<bool>)
      modifies this
      ensures Outcome(match r { case Ok(b) => Ok(Bool(b)) case Err(e) => Err(e) }, pos) == Decode(BoolK, buf, old(pos))
      ensures r.Err? ==> r.error == Deserialization
    {
      var b := U8Val();
      match b
      case Err(e) => return Err(e);
      case Ok(v) => return Ok(v != 0);
    }

    method U32Val() returns (r: Result<u32>)
      modifies this
      ensures ReadU32(buf, old(pos)) == match r { case Ok(w) => Got(w, pos) case Err(_) => Short(pos) }
      ensures r.Err? ==> r.error == Deserialization
    {
      hide FromLe;
      Widths();
      Align(4);
      var s := TakeBytes(4);
      match s
      case Err(e) => return Err(e);
      case Ok(b) => return Ok(FromLe(b));
    }

    method I32Val() returns (r: Result<i32>)
      modifies this
      ensures Outcome(match r { case Ok(i) => Ok(I32(i)) case Err(e) => Err(e) }, pos) == Decode(I32K, buf, old(pos))
      ensures r.Err? ==> r.error == Deserialization
    {
      hide ReadU32;
      var w := U32Val();
      match w
      case Err(e) => return Err(e);
      case Ok(b) => return Ok(FromBits32(b));
    }

    method F64Val() returns (r: Result<u64>)
      modifies this
      ensures ReadF64(buf, old(pos)) == match r { case Ok(w) => Got(w, pos) case Err(_) => Short(pos) }
      ensures r.Err? ==> r.error == Deserialization
    {
      hide FromLe;
      Widths();
      Align(8);
      var s := TakeBytes(8);
      match s
      case Err(e) => return Err(e);
      case Ok(b) => return Ok(FromLe(b));
    }

    method F64Array(n: nat) returns (r: Result<seq<u64>>)
      modifies this
      ensures ReadF64s(buf, AlignUp(old(pos), 8), n) == match r { case Ok(ws) => Got(ws, pos) case Err(_) => Short(pos) }
      ensures r.Ok? ==> |r.value| == n
      ensures r.Err? ==> r.error == Deserialization
    {
      hide ReadF64;
      Align(8);
      ghost var start := pos;
      var out := new u64[n];
      assert out[..0] == [];
      AfterNothing(ReadF64s(buf, start, n));
      for i := 0 to n
        invariant ReadF64s(buf, start, n) == After(out[..i], ReadF64s(buf, pos, n - i))
      {
        var w := F64Val();
        match w
        case Err(e) => return Err(e);
        case Ok(v) =>
          ghost var done := out[..i];
          out[i] := v;
          assert out[..i + 1] == done + [v];
          AfterStep(done, v, ReadF64s(buf, pos, n - i - 1));
      }
      assert out[..n] + [] == out[..];
      return Ok(out[..]);
    }

    /** Raw string read: a zero count is an empty string with no terminator to skip. */
    method StringBytes() returns (r: Result<seq<byte>>)
      modifies this
      ensures ReadString(buf, old(pos)) == match r { case Ok(t) => Got(t, pos) case Err(_) => Short(pos) }
      ensures r.Err? ==> r.error == Deserialization
    {
      hide ReadU32;
      var count := U32Val();
      if count.Err? {
        return Err(count.error);
      }
      if count.value == 0 {
        return Ok([]);
      }
      var bytes := TakeBytes(count.value - 1);
      if bytes.Err? {
        return bytes;
      }
      var terminator := TakeBytes(1);
      if terminator.Err? {
        return terminator;
      }
      return bytes;
    }

    method ReadField(k: Kind) returns (r: Result<Value>)
      modifies this
      ensures Outcome(r, pos) == Decode(k, buf, old(pos))
      ensures r.Err? ==> r.error == Deserialization
    {
      hide ReadU32, ReadF64, ReadString, ReadF64s, Utf8;
      match k
      case U8K => var b := U8Val(); return if b.Ok? then Ok(U8(b.value)) else Err(b.error);
      case BoolK => var b := BoolVal(); return if b.Ok? then Ok(Bool(b.value)) else Err(b.error);
      case I32K => var w := I32Val(); return if w.Ok? then Ok(I32(w.value)) else Err(w.error);
      case U32K => var w := U32Val(); return if w.Ok? then Ok(U32(w.value)) else Err(w.error);
      case F32K => var w := U32Val(); return if w.Ok? then Ok(F32(w.value)) else Err(w.error);
      case F64K => var w := F64Val(); return if w.Ok? then Ok(F64(w.value)) else Err(w.error);
      case F64sK(n) => var ws := F64Array(n); return if ws.Ok? then Ok(F64s(ws.value)) else Err(ws.error);
      case StrK => var t := StringBytes(); return if t.Ok? then Ok(Str(t.value)) else Err(t.error);
      case TextK(limit) =>
        var t := StringBytes();
        return
          if t.Err? then Err(t.error)
          else if Utf8(t.value) && |t.value| <= limit then Ok(Str(t.value))
          else Err(Deserialization);
    }

    /** Deserializing a message is reading its fields in order, stopping at the first failure. */
    method ReadAll(s: Schema) returns (r: Result<Message>)
      modifies this
      ensures DecodeAll(s, buf, old(pos)) == match r { case Ok(m) => Got(m, pos) case Err(_) => Short(pos) }
      ensures r.Err? ==> r.error == Deserialization
    {
      hide Decode;
      var m := [];
      AfterNothing(DecodeAll(s, buf, pos));
      assert s[0..] == s;
      for i := 0 to |s|
        invariant Reading(s, i, buf, old(pos), m, pos)
      {
        ReadNext(s, i, buf, old(pos), m, pos);
        var v := ReadField(s[i]);
        match v
        case Err(e) => return Err(e);
        case Ok(x) => m := m + [x];
      }
      assert s[|s|..] == [];
      assert m + [] == m;
      return Ok(m);
    }
  }

  lemma AfterStep<T>(done: seq<T>, v: T, rest: Read<seq<T>>)
    ensures After(done, After([v], rest)) == After(done + [v], rest)
  {
    match rest
    case Got(vs, _) => assert done + ([v] + vs) == (done + [v]) + vs;
    case Short(_) =>
  }

  lemma AfterNothing<T>(rest: Read<seq<T>>)
    ensures After([], rest) == rest
  {
    match rest
    case Got(vs, _) => assert [] + vs == vs;
    case Short(_) =>
  }
}
