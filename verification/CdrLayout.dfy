/**
 * What the CDR layer puts on the wire and takes from it, in bytes: the layout of every field and
 * of the message types, the values that reads give, and UTF-8 as encoded scalar values.
 */
module CdrLayout {
  import opened Bytes
  import opened Layout
  import opened Cdr
  import opened Messages

  // ---- writing ----

  /** Where a field that is written at `pos` ends. */
  function FieldEnd(v: Value, pos: nat): (end: nat)
    ensures pos <= end
  {
    match v
    case U8(_) => pos + 1
    case Bool(_) => pos + 1
    case I32(_) => Next(pos, 4) + 4
    case U32(_) => Next(pos, 4) + 4
    case F32(_) => Next(pos, 4) + 4
    case F64(_) => Next(pos, 8) + 8
    case Str(t) => Next(pos, 4) + 4 + |t| + 1
    case F64s(ws) => Next(pos, 8) + 8 * |ws|
  }

  /** The stream `s` has the field `v` at `pos`: zero padding, then little-endian words of its own size. */
  ghost predicate FieldAt(s: seq<byte>, pos: nat, v: Value) {
    && FieldEnd(v, pos) <= |s|
    && match v {
      case U8(b) => s[pos] == b
      case Bool(t) => s[pos] == if t then 1 else 0
      case I32(i) => ZeroAt(s, pos, Next(pos, 4)) && U32At(s, Next(pos, 4), Pattern32(i))
      case U32(u) => ZeroAt(s, pos, Next(pos, 4)) && U32At(s, Next(pos, 4), u)
      case F32(w) => ZeroAt(s, pos, Next(pos, 4)) && U32At(s, Next(pos, 4), w)
      case F64(w) => ZeroAt(s, pos, Next(pos, 8)) && U64At(s, Next(pos, 8), w)
      case Str(t) =>
        var p := Next(pos, 4);
        && ZeroAt(s, pos, p) && U32At(s, p, (|t| + 1) % 0x1_0000_0000)
        && BytesAt(s, p + 4, t) && s[p + 4 + |t|] == 0
      case F64s(ws) =>
        && ZeroAt(s, pos, Next(pos, 8))
        && forall k :: 0 <= k < |ws| ==> U64At(s, Next(pos, 8) + 8 * k, ws[k])
    }
  }

  function MessageEnd(m: Message, pos: nat): nat
    decreases |m|
  {
    if m == [] then pos else MessageEnd(m[1..], FieldEnd(m[0], pos))
  }

  /** The fields of `m` one after the other. */
  ghost predicate MessageAt(s: seq<byte>, pos: nat, m: Message)
    decreases |m|
  {
    m == [] || (FieldAt(s, pos, m[0]) && MessageAt(s, FieldEnd(m[0], pos), m[1..]))
  }

  lemma WordShown(pre: seq<byte>, w: seq<byte>, suf: seq<byte>, v: nat)
    ensures U32At(w, 0, v) ==> U32At(pre + w + suf, |pre|, v)
    ensures U64At(w, 0, v) ==> U64At(pre + w + suf, |pre|, v)
  {
  }

  /** A padded word of four bytes. */
  lemma Word4Shown(pre: seq<byte>, v: u32, suf: seq<byte>)
    ensures
      var s := pre + (Pad(|pre|, 4) + Le(v, 4)) + suf;
      ZeroAt(s, |pre|, Next(|pre|, 4)) && U32At(s, Next(|pre|, 4), v)
  {
    hide Le, U32At, Next;
    NextIsAlignUp(|pre|, 4);
    Le4InBytes(v);
    WordShown(pre + Pad(|pre|, 4), Le(v, 4), suf, v);
    assert pre + (Pad(|pre|, 4) + Le(v, 4)) + suf == (pre + Pad(|pre|, 4)) + Le(v, 4) + suf;
  }

  lemma Word8Shown(pre: seq<byte>, v: u64, suf: seq<byte>)
    ensures
      var s := pre + (Pad(|pre|, 8) + Le(v, 8)) + suf;
      ZeroAt(s, |pre|, Next(|pre|, 8)) && U64At(s, Next(|pre|, 8), v)
  {
    hide Le, U64At, Next;
    NextIsAlignUp(|pre|, 8);
    Le8InBytes(v);
    WordShown(pre + Pad(|pre|, 8), Le(v, 8), suf, v);
    assert pre + (Pad(|pre|, 8) + Le(v, 8)) + suf == (pre + Pad(|pre|, 8)) + Le(v, 8) + suf;
  }

  lemma {:induction false} WordsShown(pre: seq<byte>, ws: seq<u64>, suf: seq<byte>)
    ensures forall k :: 0 <= k < |ws| ==> U64At(pre + Words(ws) + suf, |pre| + 8 * k, ws[k])
    decreases |ws|
  {
    hide Le, U64At;
    if ws != [] {
      var w := Le(ws[0], 8);
      var s := pre + Words(ws) + suf;
      assert s == (pre + w) + Words(ws[1..]) + suf;
      assert s == pre + w + (Words(ws[1..]) + suf);
      WordsShown(pre + w, ws[1..], suf);
      Le8InBytes(ws[0]);
      WordShown(pre, w, Words(ws[1..]) + suf, ws[0]);
      forall k | 0 <= k < |ws|
        ensures U64At(s, |pre| + 8 * k, ws[k])
      {
        if k > 0 {
          assert U64At(s, |pre + w| + 8 * (k - 1), ws[1..][k - 1]);
        }
      }
    }
  }

  lemma StringShown(pre: seq<byte>, t: seq<byte>, suf: seq<byte>)
    ensures FieldAt(pre + Encode(Str(t), |pre|) + suf, |pre|, Str(t))
    ensures |Encode(Str(t), |pre|)| == FieldEnd(Str(t), |pre|) - |pre|
  {
    hide Le, U32At, Next;
    NextIsAlignUp(|pre|, 4);
    var c: u32 := (|t| + 1) % 0x1_0000_0000;
    var s := pre + Encode(Str(t), |pre|) + suf;
    assert s == pre + (Pad(|pre|, 4) + Le(c, 4)) + (t + [0] + suf);
    Word4Shown(pre, c, t + [0] + suf);
    var p := Next(|pre|, 4);
    assert s[p + 4..p + 4 + |t|] == t;
    assert s[p + 4 + |t|] == 0;
  }

  /** Every field, written anywhere, has its layout there. */
  lemma FieldInBytes(pre: seq<byte>, v: Value, suf: seq<byte>)
    ensures FieldAt(pre + Encode(v, |pre|) + suf, |pre|, v)
    ensures |pre| + |Encode(v, |pre|)| == FieldEnd(v, |pre|)
  {
    hide Le, U32At, U64At, Words, Next;
    NextIsAlignUp(|pre|, 4);
    NextIsAlignUp(|pre|, 8);
    match v
    case U8(b) =>
    case Bool(t) =>
    case I32(i) =>
      PatternsAreBits(i, 0);
      Word4Shown(pre, Bits32(i), suf);
    case U32(u) => Word4Shown(pre, u, suf);
    case F32(w) => Word4Shown(pre, w, suf);
    case F64(w) => Word8Shown(pre, w, suf);
    case Str(t) => StringShown(pre, t, suf);
    case F64s(ws) => ArrayShown(pre, ws, suf);
  }

  lemma ArrayShown(pre: seq<byte>, ws: seq<u64>, suf: seq<byte>)
    ensures FieldAt(pre + Encode(F64s(ws), |pre|) + suf, |pre|, F64s(ws))
  {
    hide Le, U64At, Words, Next;
    NextIsAlignUp(|pre|, 8);
    WordsShown(pre + Pad(|pre|, 8), ws, suf);
    assert pre + Encode(F64s(ws), |pre|) + suf == (pre + Pad(|pre|, 8)) + Words(ws) + suf;
  }

  /** Every message, written anywhere, has its fields there in order, each with its layout. */
  lemma {:induction false} MessageInBytes(pre: seq<byte>, m: Message, suf: seq<byte>)
    ensures MessageAt(pre + EncodeAll(m, |pre|) + suf, |pre|, m)
    ensures |pre| + |EncodeAll(m, |pre|)| == MessageEnd(m, |pre|)
    decreases |m|
  {
    hide Encode, FieldAt, FieldEnd;
    if m != [] {
      var f := Encode(m[0], |pre|);
      var rest := EncodeAll(m[1..], |pre| + |f|);
      FieldInBytes(pre, m[0], rest + suf);
      MessageInBytes(pre + f, m[1..], suf);
      assert pre + EncodeAll(m, |pre|) + suf == pre + f + (rest + suf) == (pre + f) + rest + suf;
    }
  }

  // ---- the message types ----

  lemma NextField(s: seq<byte>, pos: nat, m: Message, i: nat)
    requires i < |m| && MessageAt(s, pos, m[i..])
    ensures FieldAt(s, pos, m[i]) && MessageAt(s, FieldEnd(m[i], pos), m[i + 1..])
  {
    hide FieldAt, FieldEnd;
    assert m[i..][1..] == m[i + 1..];
  }

  /** The stream of a message written from the start, with nothing behind it. */
  lemma WrittenMessage(m: Message)
    ensures MessageAt(EncodeAll(m, 0), 0, m[0..])
  {
    hide FieldAt, FieldEnd, Encode;
    MessageInBytes([], m, []);
    assert [] + EncodeAll(m, 0) + [] == EncodeAll(m, 0) && m[0..] == m;
  }

  /** Time and frame id as publishers write them: all zero but the count of one, for the terminator. */
  ghost predicate ZeroHeaderAt(s: seq<byte>) {
    |s| >= 13 && ZeroAt(s, 0, 8) && U32At(s, 8, 1) && s[12] == 0
  }

  /** The 13 bytes every stamped message starts with, and what follows them. */
  lemma ZeroHeaderInBytes(m: Message)
    requires |m| >= 3 && m[..3] == Header(0, 0, [])
    ensures ZeroHeaderAt(EncodeAll(m, 0)) && MessageAt(EncodeAll(m, 0), 13, m[3..])
  {
    hide EncodeAll, MessageAt, FieldAt, FieldEnd, ZeroHeaderAt;
    var s := EncodeAll(m, 0);
    HeaderEnds();
    assert m[0] == m[..3][0] && m[1] == m[..3][1] && m[2] == m[..3][2];
    WrittenMessage(m);
    NextField(s, 0, m, 0);
    NextField(s, 4, m, 1);
    NextField(s, 8, m, 2);
    ZeroFields(s);
  }

  lemma HeaderEnds()
    ensures FieldEnd(I32(0), 0) == 4 && FieldEnd(U32(0), 4) == 8 && FieldEnd(Str([]), 8) == 13
  {
    hide Next;
    AlignedAlready();
  }

  lemma AlignedAlready()
    ensures Next(0, 4) == 0 && Next(4, 4) == 4 && Next(8, 4) == 8
  {
  }

  lemma ZeroFields(s: seq<byte>)
    requires FieldAt(s, 0, I32(0)) && FieldAt(s, 4, U32(0)) && FieldAt(s, 8, Str([]))
    ensures ZeroHeaderAt(s)
  {
    hide U32At, ZeroAt, BytesAt, Next;
    AlignedAlready();
    ZeroWord(s, 0);
    ZeroWord(s, 4);
    ZeroJoin(s, 0, 4, 8);
  }

  lemma ZeroWord(s: seq<byte>, at: nat)
    requires U32At(s, at, 0)
    ensures ZeroAt(s, at, at + 4)
  {
  }

  lemma ZeroJoin(s: seq<byte>, from: nat, mid: nat, to: nat)
    requires ZeroAt(s, from, mid) && ZeroAt(s, mid, to)
    ensures ZeroAt(s, from, to)
  {
  }

  /** The 36 bytes of a Range. */
  lemma RangeInBytes(m: Range)
    ensures
      var s := EncodeAll(RangeFields(m), 0);
      && |s| == 36 && ZeroHeaderAt(s)
      && s[13] == m.radiationType && s[14] == 0 && s[15] == 0
      && U32At(s, 16, m.fieldOfView) && U32At(s, 20, m.minRange) && U32At(s, 24, m.maxRange)
      && U32At(s, 28, m.range) && U32At(s, 32, m.variance)
  {
    hide EncodeAll, MessageAt, U32At, ZeroHeaderAt;
    var f, s := RangeFields(m), EncodeAll(RangeFields(m), 0);
    RangeSize(m);
    assert f[..3] == Header(0, 0, []);
    ZeroHeaderInBytes(f);
    NextField(s, 13, f, 3);
    NextField(s, 14, f, 4);
    NextField(s, 20, f, 5);
    NextField(s, 24, f, 6);
    NextField(s, 28, f, 7);
    NextField(s, 32, f, 8);
  }

  /** The doubles of an array from `at` on, eight bytes each. */
  ghost predicate DoublesAt(s: seq<byte>, at: nat, ws: seq<u64>) {
    forall k :: 0 <= k < |ws| ==> U64At(s, at + 8 * k, ws[k])
  }

  lemma NextArray(s: seq<byte>, pos: nat, m: Message, i: nat)
    requires i < |m| && m[i].F64s? && MessageAt(s, pos, m[i..])
    ensures ZeroAt(s, pos, Next(pos, 8)) && DoublesAt(s, Next(pos, 8), m[i].elems)
    ensures MessageAt(s, Next(pos, 8) + 8 * |m[i].elems|, m[i + 1..])
  {
    hide MessageAt, U64At, Next;
    NextField(s, pos, m, i);
  }

  /** The 312 bytes of an Imu. */
  lemma ImuInBytes(m: Imu)
    ensures
      var s := EncodeAll(ImuFields(m), 0);
      && |s| == 312 && ZeroHeaderAt(s) && ZeroAt(s, 13, 16)
      && DoublesAt(s, 16, m.orientation) && DoublesAt(s, 48, m.orientationCovariance)
      && DoublesAt(s, 120, m.angularVelocity) && DoublesAt(s, 144, m.angularVelocityCovariance)
      && DoublesAt(s, 216, m.linearAcceleration) && DoublesAt(s, 240, m.linearAccelerationCovariance)
  {
    hide EncodeAll, MessageAt, DoublesAt, ZeroHeaderAt;
    var f, s := ImuFields(m), EncodeAll(ImuFields(m), 0);
    ImuSize(m);
    assert f[..3] == Header(0, 0, []);
    ZeroHeaderInBytes(f);
    NextArray(s, 13, f, 3);
    NextArray(s, 48, f, 4);
    NextArray(s, 120, f, 5);
    NextArray(s, 144, f, 6);
    NextArray(s, 216, f, 7);
    NextArray(s, 240, f, 8);
  }

  /** A string message: the count of its bytes and the terminator, the text, and the terminator. */
  lemma StringInBytes(t: seq<byte>)
    requires |t| < 0xFFFF_FFFF
    ensures
      var s := EncodeAll([Str(t)], 0);
      |s| == |t| + 5 && U32At(s, 0, |t| + 1) && s[4..4 + |t|] == t && s[4 + |t|] == 0
  {
    hide EncodeAll, MessageAt, U32At;
    WrittenMessage([Str(t)]);
    NextField(EncodeAll([Str(t)], 0), 0, [Str(t)], 0);
    MessageInBytes([], [Str(t)], []);
    assert [] + EncodeAll([Str(t)], 0) + [] == EncodeAll([Str(t)], 0);
    OneFieldEnds(t);
  }

  lemma OneFieldEnds(t: seq<byte>)
    ensures MessageEnd([Str(t)], 0) == |t| + 5
  {
    assert [Str(t)][1..] == [];
  }

  // ---- reading ----

  /** What a read of kind `k` at `pos` that ends at `end` has taken from the bytes. */
  ghost predicate ReadAt(s: seq<byte>, pos: nat, k: Kind, v: Value, end: nat) {
    && pos <= end <= |s|
    && match k {
      case U8K => end == pos + 1 && v == Value.U8(s[pos])
      case BoolK => end == pos + 1 && v == Value.Bool(s[pos] != 0)
      case I32K => v.I32? && end == Next(pos, 4) + 4 && U32At(s, Next(pos, 4), Pattern32(v.i))
      case U32K => v.U32? && end == Next(pos, 4) + 4 && U32At(s, Next(pos, 4), v.u)
      case F32K => v.F32? && end == Next(pos, 4) + 4 && U32At(s, Next(pos, 4), v.bits32)
      case F64K => v.F64? && end == Next(pos, 8) + 8 && U64At(s, Next(pos, 8), v.bits64)
      case StrK => v.Str? && StringAt(s, Next(pos, 4), v.text, end)
      case TextK(limit) => v.Str? && |v.text| <= limit && StringAt(s, Next(pos, 4), v.text, end)
      case F64sK(n) => v.F64s? && |v.elems| == n && end == Next(pos, 8) + 8 * n && DoublesAt(s, Next(pos, 8), v.elems)
    }
  }

  /** A count of 0 is the empty string and nothing more; otherwise text and terminator follow. */
  ghost predicate StringAt(s: seq<byte>, p: nat, t: seq<byte>, end: nat) {
    || (t == [] && U32At(s, p, 0) && end == p + 4)
    || (U32At(s, p, |t| + 1) && BytesAt(s, p + 4, t) && end == p + 4 + |t| + 1)
  }

  lemma ReadU32InBytes(s: seq<byte>, pos: nat)
    requires ReadU32(s, pos).Got?
    ensures ReadU32(s, pos).pos == Next(pos, 4) + 4 <= |s| && U32At(s, Next(pos, 4), ReadU32(s, pos).value)
  {
    hide FromLe, Next;
    NextIsAlignUp(pos, 4);
    var p := Next(pos, 4);
    FromLe4InBytes(s[p..p + 4]);
    assert s[p] == s[p..p + 4][0] && s[p + 1] == s[p..p + 4][1] && s[p + 2] == s[p..p + 4][2] && s[p + 3] == s[p..p + 4][3];
  }

  lemma ReadF64InBytes(s: seq<byte>, pos: nat)
    requires ReadF64(s, pos).Got?
    ensures ReadF64(s, pos).pos == Next(pos, 8) + 8 <= |s| && U64At(s, Next(pos, 8), ReadF64(s, pos).value)
  {
    hide FromLe, Next;
    NextIsAlignUp(pos, 8);
    var p := Next(pos, 8);
    FromLe8InBytes(s[p..p + 8]);
    var w := s[p..p + 8];
    assert forall i :: 0 <= i < 8 ==> w[i] == s[p + i];
  }

  lemma {:induction false} ReadF64sInBytes(s: seq<byte>, pos: nat, n: nat)
    requires pos % 8 == 0 && ReadF64s(s, pos, n).Got?
    ensures |ReadF64s(s, pos, n).value| == n && ReadF64s(s, pos, n).pos == pos + 8 * n
    ensures pos <= |s| ==> pos + 8 * n <= |s|
    ensures DoublesAt(s, pos, ReadF64s(s, pos, n).value)
    decreases n
  {
    hide ReadF64, U64At;
    if n > 0 {
      ReadF64InBytes(s, pos);
      assert Next(pos, 8) == pos;
      ReadF64sInBytes(s, pos + 8, n - 1);
      var ws, later := ReadF64s(s, pos, n).value, ReadF64s(s, pos + 8, n - 1).value;
      forall k | 0 <= k < n
        ensures U64At(s, pos + 8 * k, ws[k])
      {
        if k > 0 {
          assert ws[k] == later[k - 1] && U64At(s, pos + 8 + 8 * (k - 1), later[k - 1]);
        }
      }
    }
  }

  lemma ReadStringInBytes(s: seq<byte>, pos: nat)
    requires ReadString(s, pos).Got?
    ensures StringAt(s, Next(pos, 4), ReadString(s, pos).value, ReadString(s, pos).pos)
    ensures pos <= ReadString(s, pos).pos <= |s|
  {
    hide ReadU32, U32At, Next;
    ReadU32InBytes(s, pos);
  }

  /** Whatever a read gives is what the bytes say; when a read fails, `FieldReadExact` says. */
  lemma ReadInBytes(s: seq<byte>, pos: nat, k: Kind)
    requires Decode(k, s, pos).Got? && (k.F64sK? && k.count == 0 ==> AlignUp(pos, 8) <= |s|)
    ensures ReadAt(s, pos, k, Decode(k, s, pos).value, Decode(k, s, pos).pos)
  {
    hide ReadU32, ReadF64, ReadF64s, ReadString, U32At, U64At, StringAt, DoublesAt, Utf8, Next;
    match k
    case I32K =>
      ReadU32InBytes(s, pos);
      PatternsAreBits(FromBits32(ReadU32(s, pos).value), 0);
      assert Bits32(FromBits32(ReadU32(s, pos).value)) == ReadU32(s, pos).value;
    case U32K => ReadU32InBytes(s, pos);
    case F32K => ReadU32InBytes(s, pos);
    case F64K => ReadF64InBytes(s, pos);
    case StrK => ReadStringInBytes(s, pos);
    case TextK(_) => ReadStringInBytes(s, pos);
    case F64sK(n) =>
      NextIsAlignUp(pos, 8);
      AlignUpIsNextMultiple(pos, 8, pos);
      ReadF64sInBytes(s, AlignUp(pos, 8), n);
      assert AlignUp(pos, 8) <= |s| by { ArrayStartsInside(s, pos, n); }
    case _ =>
  }

  lemma ArrayStartsInside(s: seq<byte>, pos: nat, n: nat)
    requires ReadF64s(s, AlignUp(pos, 8), n).Got? && (n == 0 ==> AlignUp(pos, 8) <= |s|)
    ensures AlignUp(pos, 8) <= |s|
  {
    hide FromLe;
  }
}
