/** The alignment-heavy ROS 2 message types, written and read call by call as the crate does. */
module Messages {
  import opened Bytes
  import opened Cdr
  import opened CdrWriting
  import opened CdrReading

  // ---- std_msgs/Header ----

  function Header(sec: i32, nanosec: u32, frame: seq<byte>): Message {
    [I32(sec), U32(nanosec), Str(frame)]
  }

  /** Time and an empty frame id, all zero: the first three fields of the plan `m`. */
  method WriteHeaderZero(w: CdrWriter, ghost m: Message)
    requires w.Valid() && |m| >= 3 && m[..3] == Header(0, 0, [])
    requires CanWriteAll(m, w.pos, w.Len())
    modifies w`pos, w`ideal, w`starts, w.buf
    ensures w.Valid() && Pending(m, 3, old(w.ideal), w.ideal, w.Len())
  {
    hide Encode, EncodeAll, CanWrite, CanWriteAll, Pending;
    ghost var start := w.ideal;
    PendingStart(m, w.ideal, w.Len());
    assert m[0] == I32(0) && m[1] == U32(0) && m[2] == Str([]) by {
      assert m[0] == m[..3][0] && m[1] == m[..3][1] && m[2] == m[..3][2];
    }
    Advance(m, 0, start, w.ideal, w.Len());
    w.I32Val(0);
    Advance(m, 1, start, w.ideal, w.Len());
    w.U32Val(0);
    Advance(m, 2, start, w.ideal, w.Len());
    w.StringVal([]);
  }

  lemma PendingStart(m: Message, start: seq<byte>, len: nat)
    requires CanWriteAll(m, |start|, len)
    ensures Pending(m, 0, start, start, len)
  {
    assert m[0..] == m;
  }

  lemma PendingEnd(m: Message, start: seq<byte>, ideal: seq<byte>, len: nat)
    requires Pending(m, |m|, start, ideal, len)
    ensures ideal == start + EncodeAll(m, |start|)
  {
    assert m[|m|..] == [];
  }

  /** The three header reads that open a deserializer for schema `s`. */
  method ReadHeader(r: CdrReader, ghost s: Schema) returns (h: Result<Message>)
    requires |s| >= 3 && s[..3] == [I32K, U32K, StrK]
    modifies r
    ensures h.Ok? ==> Reading(s, 3, r.buf, old(r.pos), h.value, r.pos)
    ensures h.Err? ==> h.error == Deserialization && DecodeAll(s, r.buf, old(r.pos)) == Short(r.pos)
  {
    hide DecodeAll, ReadU32, ReadString, After, Reading;
    ghost var start := r.pos;
    assert s[0] == I32K && s[1] == U32K && s[2] == StrK by {
      assert s[0] == s[..3][0] && s[1] == s[..3][1] && s[2] == s[..3][2];
    }
    ReadStart(s, r.buf, start);
    ReadNext(s, 0, r.buf, start, [], r.pos);
    var sec := r.I32Val();
    if sec.Err? { return Err(sec.error); }
    assert [] + [I32(sec.value)] == [I32(sec.value)];
    ReadNext(s, 1, r.buf, start, [I32(sec.value)], r.pos);
    var nanosec := r.U32Val();
    if nanosec.Err? { return Err(nanosec.error); }
    ReadNext(s, 2, r.buf, start, [I32(sec.value)] + [U32(nanosec.value)], r.pos);
    var frame := r.StringBytes();
    if frame.Err? { return Err(frame.error); }
    return Ok([I32(sec.value)] + [U32(nanosec.value)] + [Str(frame.value)]);
  }

  // ---- sensor_msgs/Range ----

  datatype Range = Range(
    radiationType: byte,
    fieldOfView: u32,
    minRange: u32,
    maxRange: u32,
    range: u32,
    variance: u32)

  const RANGE: Schema := [I32K, U32K, StrK, U8K, F32K, F32K, F32K, F32K, F32K]
  const RANGE_MAX_SERIALIZED_SIZE := 48

  function RangeBody(m: Range): Message {
    [U8(m.radiationType), F32(m.fieldOfView), F32(m.minRange), F32(m.maxRange), F32(m.range), F32(m.variance)]
  }

  function RangeFields(m: Range): Message {
    Header(0, 0, []) + RangeBody(m)
  }

  /** The header is read and dropped. */
  function RangeOf(m: Message): Range
    requires HasSchema(m, RANGE)
  {
    Range(m[3].b, m[4].bits32, m[5].bits32, m[6].bits32, m[7].bits32, m[8].bits32)
  }

  method SerializeRange(m: Range, w: CdrWriter)
    requires w.Valid() && CanWriteAll(RangeFields(m), w.pos, w.Len())
    modifies w`pos, w`ideal, w`starts, w.buf
    ensures w.Valid() && w.ideal == old(w.ideal) + EncodeAll(RangeFields(m), |old(w.ideal)|)
  {
    hide Encode, EncodeAll, CanWrite, CanWriteAll, Pending;
    ghost var fs := RangeFields(m);
    ghost var start := w.ideal;
    assert fs[..3] == Header(0, 0, []);
    WriteHeaderZero(w, fs);
    Advance(fs, 3, start, w.ideal, w.Len());
    w.U8Val(m.radiationType);
    Advance(fs, 4, start, w.ideal, w.Len());
    w.F32Val(m.fieldOfView);
    Advance(fs, 5, start, w.ideal, w.Len());
    w.F32Val(m.minRange);
    Advance(fs, 6, start, w.ideal, w.Len());
    w.F32Val(m.maxRange);
    Advance(fs, 7, start, w.ideal, w.Len());
    w.F32Val(m.range);
    Advance(fs, 8, start, w.ideal, w.Len());
    w.F32Val(m.variance);
    PendingEnd(fs, start, w.ideal, w.Len());
  }

  method DeserializeRange(r: CdrReader) returns (m: Result<Range>)
    modifies r
    ensures match DecodeAll(RANGE, r.buf, old(r.pos)) {
      case Got(fs, p) => HasSchema(fs, RANGE) && m == Ok(RangeOf(fs)) && r.pos == p
      case Short(p) => m == Err(Deserialization) && r.pos == p
    }
  {
    hide DecodeAll, ReadU32, ReadString, After, Reading;
    ghost var start := r.pos;
    var header := ReadHeader(r, RANGE);
    if header.Err? { return Err(header.error); }
    ghost var d3 := header.value;
    ReadNext(RANGE, 3, r.buf, start, d3, r.pos);
    var radiationType := r.U8Val();
    if radiationType.Err? { return Err(radiationType.error); }
    ghost var d4 := d3 + [U8(radiationType.value)];
    ReadNext(RANGE, 4, r.buf, start, d4, r.pos);
    var fieldOfView := r.U32Val();
    if fieldOfView.Err? { return Err(fieldOfView.error); }
    ghost var d5 := d4 + [F32(fieldOfView.value)];
    ReadNext(RANGE, 5, r.buf, start, d5, r.pos);
    var minRange := r.U32Val();
    if minRange.Err? { return Err(minRange.error); }
    ghost var d6 := d5 + [F32(minRange.value)];
    ReadNext(RANGE, 6, r.buf, start, d6, r.pos);
    var maxRange := r.U32Val();
    if maxRange.Err? { return Err(maxRange.error); }
    ghost var d7 := d6 + [F32(maxRange.value)];
    ReadNext(RANGE, 7, r.buf, start, d7, r.pos);
    var range := r.U32Val();
    if range.Err? { return Err(range.error); }
    ghost var d8 := d7 + [F32(range.value)];
    ReadNext(RANGE, 8, r.buf, start, d8, r.pos);
    var variance := r.U32Val();
    if variance.Err? { return Err(variance.error); }
    ghost var d9 := d8 + [F32(variance.value)];
    ReadEnd(RANGE, r.buf, start, d9, r.pos);
    return Ok(Range(radiationType.value, fieldOfView.value, minRange.value, maxRange.value, range.value, variance.value));
  }

  lemma ReadStart(s: Schema, buf: seq<byte>, start: nat)
    ensures Reading(s, 0, buf, start, [], start)
  {
    hide Decode;
    assert s[0..] == s;
    AfterNothing(DecodeAll(s, buf, start));
  }

  lemma ReadEnd(s: Schema, buf: seq<byte>, start: nat, done: Message, pos: nat)
    requires Reading(s, |s|, buf, start, done, pos)
    ensures DecodeAll(s, buf, start) == Got(done, pos)
    ensures HasSchema(done, s)
  {
    hide Decode;
    assert s[|s|..] == [];
    assert done + [] == done;
    DecodedHasSchema(s, buf, start);
  }

  /** The payload survives whatever header a publisher put in front of it. */
  lemma RangeRoundTrip(m: Range, sec: i32, nanosec: u32, frame: seq<byte>, pre: seq<byte>, suf: seq<byte>)
    requires |frame| < 0xFFFF_FFFF
    ensures
      var fs := Header(sec, nanosec, frame) + RangeBody(m);
      && HasSchema(fs, RANGE)
      && DecodeAll(RANGE, pre + EncodeAll(fs, |pre|) + suf, |pre|) == Got(fs, |pre| + |EncodeAll(fs, |pre|)|)
      && RangeOf(fs) == m
  {
    hide EncodeAll, DecodeAll;
    MessageRoundTrip(Header(sec, nanosec, frame) + RangeBody(m), RANGE, pre, suf);
  }

  // ---- sensor_msgs/Imu ----

  type F64x3 = s: seq<u64> | |s| == 3 witness [0, 0, 0]
  type F64x4 = s: seq<u64> | |s| == 4 witness [0, 0, 0, 0]
  type F64x9 = s: seq<u64> | |s| == 9 witness [0, 0, 0, 0, 0, 0, 0, 0, 0]

  datatype Imu = Imu(
    orientation: F64x4,
    orientationCovariance: F64x9,
    angularVelocity: F64x3,
    angularVelocityCovariance: F64x9,
    linearAcceleration: F64x3,
    linearAccelerationCovariance: F64x9)

  const IMU: Schema := [I32K, U32K, StrK, F64sK(4), F64sK(9), F64sK(3), F64sK(9), F64sK(3), F64sK(9)]
  const IMU_MAX_SERIALIZED_SIZE := 320

  function ImuBody(m: Imu): Message {
    [F64s(m.orientation), F64s(m.orientationCovariance), F64s(m.angularVelocity),
     F64s(m.angularVelocityCovariance), F64s(m.linearAcceleration), F64s(m.linearAccelerationCovariance)]
  }

  function ImuFields(m: Imu): Message {
    Header(0, 0, []) + ImuBody(m)
  }

  function ImuOf(m: Message): Imu
    requires HasSchema(m, IMU)
  {
    Imu(m[3].elems, m[4].elems, m[5].elems, m[6].elems, m[7].elems, m[8].elems)
  }

  method SerializeImu(m: Imu, w: CdrWriter)
    requires w.Valid() && CanWriteAll(ImuFields(m), w.pos, w.Len())
    modifies w`pos, w`ideal, w`starts, w.buf
    ensures w.Valid() && w.ideal == old(w.ideal) + EncodeAll(ImuFields(m), |old(w.ideal)|)
  {
    hide Encode, EncodeAll, CanWrite, CanWriteAll, Pending;
    ghost var fs := ImuFields(m);
    ghost var start := w.ideal;
    assert fs[..3] == Header(0, 0, []);
    WriteHeaderZero(w, fs);
    Advance(fs, 3, start, w.ideal, w.Len());
    w.F64Array(m.orientation);
    Advance(fs, 4, start, w.ideal, w.Len());
    w.F64Array(m.orientationCovariance);
    Advance(fs, 5, start, w.ideal, w.Len());
    w.F64Array(m.angularVelocity);
    Advance(fs, 6, start, w.ideal, w.Len());
    w.F64Array(m.angularVelocityCovariance);
    Advance(fs, 7, start, w.ideal, w.Len());
    w.F64Array(m.linearAcceleration);
    Advance(fs, 8, start, w.ideal, w.Len());
    w.F64Array(m.linearAccelerationCovariance);
    PendingEnd(fs, start, w.ideal, w.Len());
  }

  method DeserializeImu(r: CdrReader) returns (m: Result<Imu>)
    modifies r
    ensures match DecodeAll(IMU, r.buf, old(r.pos)) {
      case Got(fs, p) => HasSchema(fs, IMU) && m == Ok(ImuOf(fs)) && r.pos == p
      case Short(p) => m == Err(Deserialization) && r.pos == p
    }
  {
    hide DecodeAll, ReadU32, ReadString, ReadF64s, After, Reading;
    ghost var start := r.pos;
    var header := ReadHeader(r, IMU);
    if header.Err? { return Err(header.error); }
    ghost var d3 := header.value;
    ReadNext(IMU, 3, r.buf, start, d3, r.pos);
    var orientation := r.F64Array(4);
    if orientation.Err? { return Err(orientation.error); }
    ghost var d4 := d3 + [F64s(orientation.value)];
    ReadNext(IMU, 4, r.buf, start, d4, r.pos);
    var orientationCovariance := r.F64Array(9);
    if orientationCovariance.Err? { return Err(orientationCovariance.error); }
    ghost var d5 := d4 + [F64s(orientationCovariance.value)];
    ReadNext(IMU, 5, r.buf, start, d5, r.pos);
    var angularVelocity := r.F64Array(3);
    if angularVelocity.Err? { return Err(angularVelocity.error); }
    ghost var d6 := d5 + [F64s(angularVelocity.value)];
    ReadNext(IMU, 6, r.buf, start, d6, r.pos);
    var angularVelocityCovariance := r.F64Array(9);
    if angularVelocityCovariance.Err? { return Err(angularVelocityCovariance.error); }
    ghost var d7 := d6 + [F64s(angularVelocityCovariance.value)];
    ReadNext(IMU, 7, r.buf, start, d7, r.pos);
    var linearAcceleration := r.F64Array(3);
    if linearAcceleration.Err? { return Err(linearAcceleration.error); }
    ghost var d8 := d7 + [F64s(linearAcceleration.value)];
    ReadNext(IMU, 8, r.buf, start, d8, r.pos);
    var linearAccelerationCovariance := r.F64Array(9);
    if linearAccelerationCovariance.Err? { return Err(linearAccelerationCovariance.error); }
    ghost var d9 := d8 + [F64s(linearAccelerationCovariance.value)];
    ReadEnd(IMU, r.buf, start, d9, r.pos);
    return Ok(Imu(orientation.value, orientationCovariance.value, angularVelocity.value,
                  angularVelocityCovariance.value, linearAcceleration.value, linearAccelerationCovariance.value));
  }

  lemma ImuRoundTrip(m: Imu, sec: i32, nanosec: u32, frame: seq<byte>, pre: seq<byte>, suf: seq<byte>)
    requires |frame| < 0xFFFF_FFFF
    ensures
      var fs := Header(sec, nanosec, frame) + ImuBody(m);
      && HasSchema(fs, IMU)
      && DecodeAll(IMU, pre + EncodeAll(fs, |pre|) + suf, |pre|) == Got(fs, |pre| + |EncodeAll(fs, |pre|)|)
      && ImuOf(fs) == m
  {
    hide EncodeAll, DecodeAll;
    MessageRoundTrip(Header(sec, nanosec, frame) + ImuBody(m), IMU, pre, suf);
  }

  // ---- std_msgs/String, owned form with capacity `n` ----

  datatype StringOwned = StringOwned(data: seq<byte>)

  method SerializeString(m: StringOwned, w: CdrWriter)
    requires w.Valid() && CanWriteAll([Str(m.data)], w.pos, w.Len())
    modifies w`pos, w`ideal, w`starts, w.buf
    ensures w.Valid() && w.ideal == old(w.ideal) + EncodeAll([Str(m.data)], |old(w.ideal)|)
  {
    hide Encode, EncodeAll, CanWrite, CanWriteAll, Pending;
    ghost var fs := [Str(m.data)];
    ghost var start := w.ideal;
    PendingStart(fs, start, w.Len());
    Advance(fs, 0, start, w.ideal, w.Len());
    w.StringVal(m.data);
    PendingEnd(fs, start, w.ideal, w.Len());
  }

  method DeserializeString(r: CdrReader, n: nat) returns (m: Result<StringOwned>)
    modifies r
    ensures match DecodeAll([TextK(n)], r.buf, old(r.pos)) {
      case Got(fs, p) => m.Ok? && fs == [Str(m.value.data)] && Utf8(m.value.data) && |m.value.data| <= n && r.pos == p
      case Short(p) => m == Err(Deserialization) && r.pos == p
    }
  {
    hide DecodeAll, ReadString, After, Reading, Utf8;
    ghost var start := r.pos;
    ReadStart([TextK(n)], r.buf, start);
    ReadNext([TextK(n)], 0, r.buf, start, [], r.pos);
    var bytes := r.StringBytes();
    if bytes.Err? { return Err(bytes.error); }
    if !Utf8(bytes.value) { return Err(Deserialization); }
    if |bytes.value| > n { return Err(Deserialization); }
    assert [] + [Str(bytes.value)] == [Str(bytes.value)];
    ReadEnd([TextK(n)], r.buf, start, [Str(bytes.value)], r.pos);
    return Ok(StringOwned(bytes.value));
  }

  /** An owned string comes back exactly when it is UTF-8 and within the receiver's capacity. */
  lemma StringRoundTripExact(t: seq<byte>, n: nat, suf: seq<byte>)
    requires |t| < 0xFFFF_FFFF
    ensures DecodeAll([TextK(n)], EncodeAll([Str(t)], 0) + suf, 0).Got? <==> Utf8(t) && |t| <= n
    ensures Utf8(t) && |t| <= n ==>
      DecodeAll([TextK(n)], EncodeAll([Str(t)], 0) + suf, 0) == Got([Str(t)], 5 + |t|)
  {
    hide Utf8, ReadString, Encode, FieldLen;
    StringRoundTrip([], t, suf);
    FieldLength(Str(t), 0);
    assert FieldLen(Str(t), 0) == 5 + |t| by { StringLength(t); }
    var none: Schema := [];
    var empty: Message := [];
    assert [Str(t)][1..] == empty && [TextK(n)][1..] == none;
    assert EncodeAll([Str(t)], 0) == Encode(Str(t), 0);
    assert [] + Encode(Str(t), 0) + suf == EncodeAll([Str(t)], 0) + suf;
    assert [Str(t)] + empty == [Str(t)];
  }

  lemma StringLength(t: seq<byte>)
    ensures FieldLen(Str(t), 0) == 5 + |t|
  {
  }

  // ---- sizes ----

  /** Length of a field written at `pos`, padding included. */
  function FieldLen(v: Value, pos: nat): nat {
    match v
    case U8(_) => 1
    case Bool(_) => 1
    case I32(_) => Padding(pos, 4) + 4
    case U32(_) => Padding(pos, 4) + 4
    case F32(_) => Padding(pos, 4) + 4
    case F64(_) => Padding(pos, 8) + 8
    case Str(t) => Padding(pos, 4) + 4 + |t| + 1
    case F64s(ws) => Padding(pos, 8) + 8 * |ws|
  }

  lemma FieldLength(v: Value, pos: nat)
    ensures |Encode(v, pos)| == FieldLen(v, pos)
  {
    hide Zeros, Le, Words;
  }

  lemma MessageLength(m: Message, i: nat, pos: nat)
    requires i < |m|
    ensures |EncodeAll(m[i..], pos)| == FieldLen(m[i], pos) + |EncodeAll(m[i + 1..], pos + FieldLen(m[i], pos))|
  {
    hide Encode, FieldLen;
    FieldLength(m[i], pos);
    assert m[i..][1..] == m[i + 1..];
  }

  /** With the zero header every Range body is 36 bytes and every Imu body 312. */
  lemma SerializedSizes(r: Range, m: Imu, s: StringOwned, n: nat)
    ensures |EncodeAll(RangeFields(r), 0)| == 36 <= RANGE_MAX_SERIALIZED_SIZE
    ensures |EncodeAll(ImuFields(m), 0)| == 312 <= IMU_MAX_SERIALIZED_SIZE
    ensures |s.data| <= n ==> |EncodeAll([Str(s.data)], 0)| == 5 + |s.data| <= 4 + n + 1
  {
    RangeSize(r);
    ImuSize(m);
    assert [Str(s.data)][1..] == [];
  }

  lemma RangeSize(r: Range)
    ensures |EncodeAll(RangeFields(r), 0)| == 36
  {
    hide EncodeAll;
    var f := RangeFields(r);
    MessageLength(f, 0, 0);
    MessageLength(f, 1, 4);
    MessageLength(f, 2, 8);
    MessageLength(f, 3, 13);
    MessageLength(f, 4, 14);
    MessageLength(f, 5, 20);
    MessageLength(f, 6, 24);
    MessageLength(f, 7, 28);
    MessageLength(f, 8, 32);
    NothingToWrite(f, 36);
  }

  lemma ImuSize(m: Imu)
    ensures |EncodeAll(ImuFields(m), 0)| == 312
  {
    hide EncodeAll;
    var f := ImuFields(m);
    MessageLength(f, 0, 0);
    MessageLength(f, 1, 4);
    MessageLength(f, 2, 8);
    MessageLength(f, 3, 13);
    MessageLength(f, 4, 48);
    MessageLength(f, 5, 120);
    MessageLength(f, 6, 144);
    MessageLength(f, 7, 216);
    MessageLength(f, 8, 240);
    NothingToWrite(f, 312);
  }

  lemma NothingToWrite(m: Message, pos: nat)
    ensures EncodeAll(m[|m|..], pos) == []
    ensures m[0..] == m
  {
  }
}
