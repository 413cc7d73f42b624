/**
 * The CDR transfer syntax of message bodies as pure functions over byte sequences: what the
 * writer puts on the wire from a given position, and what the reader takes from it.
 *
 * Floating-point fields are their bit patterns. A message body is the list of its fields.
 */
module Cdr {
  import opened Bytes

  datatype Value =
    | U8(b: byte)
    | Bool(v: bool)
    | I32(i: i32)
    | U32(u: u32)
    | F32(bits32: u32)
    | F64(bits64: u64)
    | Str(text: seq<byte>)
    | F64s(elems: seq<u64>)

  /**
   * What a reader asks for. `StrK` is a raw string read; `TextK(limit)` is a string that must
   * also be well-formed UTF-8 and fit an owned string of `limit` bytes.
   */
  datatype Kind =
    | U8K
    | BoolK
    | I32K
    | U32K
    | F32K
    | F64K
    | StrK
    | TextK(limit: nat)
    | F64sK(count: nat)

  type Message = seq<Value>
  type Schema = seq<Kind>

  /** The value can be written so that a read of kind `k` gives it back. */
  predicate HasKind(v: Value, k: Kind) {
    match k
    case U8K => v.U8?
    case BoolK => v.Bool?
    case I32K => v.I32?
    case U32K => v.U32?
    case F32K => v.F32?
    case F64K => v.F64?
    case StrK => v.Str? && |v.text| < 0xFFFF_FFFF
    case TextK(limit) => v.Str? && |v.text| < 0xFFFF_FFFF && |v.text| <= limit && Utf8(v.text)
    case F64sK(count) => v.F64s? && |v.elems| == count
  }

  predicate HasSchema(m: Message, s: Schema) {
    |m| == |s| && forall i :: 0 <= i < |m| ==> HasKind(m[i], s[i])
  }

  // ---- UTF-8 well-formedness (Unicode Standard, table 3-7) ----

  predicate Cont(s: seq<byte>, i: nat, lo: byte, hi: byte) {
    i < |s| && lo <= s[i] <= hi
  }

  /** Length of the well-formed scalar at the front of `s`, 0 if there is none. */
  function ScalarLen(s: seq<byte>): (n: nat)
    ensures n <= |s|
  {
    if s == [] then 0
    else if s[0] <= 0x7F then 1
    else if 0xC2 <= s[0] <= 0xDF then
      if Cont(s, 1, 0x80, 0xBF) then 2 else 0
    else if 0xE0 <= s[0] <= 0xEF then
      var lo := if s[0] == 0xE0 then 0xA0 else 0x80;
      var hi := if s[0] == 0xED then 0x9F else 0xBF;
      if Cont(s, 1, lo, hi) && Cont(s, 2, 0x80, 0xBF) then 3 else 0
    else if 0xF0 <= s[0] <= 0xF4 then
      var lo := if s[0] == 0xF0 then 0x90 else 0x80;
      var hi := if s[0] == 0xF4 then 0x8F else 0xBF;
      if Cont(s, 1, lo, hi) && Cont(s, 2, 0x80, 0xBF) && Cont(s, 3, 0x80, 0xBF) then 4 else 0
    else 0
  }

  predicate Utf8(s: seq<byte>) {
    s == [] || (ScalarLen(s) > 0 && Utf8(s[ScalarLen(s)..]))
  }

  // ---- writing ----

  function Pad(pos: nat, n: nat): (z: seq<byte>)
    requires n > 0
    ensures |z| == Padding(pos, n)
  {
    Zeros(Padding(pos, n))
  }

  function Words(ws: seq<u64>): (s: seq<byte>)
    ensures |s| == 8 * |ws|
  {
    if ws == [] then [] else Le(ws[0], 8) + Words(ws[1..])
  }

  /** The string length field: `len as u32 + 1`, terminator included. */
  function StringCount(t: seq<byte>): u32 {
    (|t| + 1) % 0x1_0000_0000
  }

  /** The bytes that writing `v` appends when the writer stands at `pos`. */
  function Encode(v: Value, pos: nat): seq<byte> {
    match v
    case U8(b) => [b]
    case Bool(t) => [if t then 1 else 0]
    case I32(i) => Pad(pos, 4) + Le(Bits32(i), 4)
    case U32(u) => Pad(pos, 4) + Le(u, 4)
    case F32(w) => Pad(pos, 4) + Le(w, 4)
    case F64(w) => Pad(pos, 8) + Le(w, 8)
    case Str(t) => Pad(pos, 4) + Le(StringCount(t), 4) + t + [0]
    case F64s(ws) => Pad(pos, 8) + Words(ws)
  }

  function EncodeAll(m: Message, pos: nat): seq<byte> {
    if m == [] then []
    else
      var s := Encode(m[0], pos);
      s + EncodeAll(m[1..], pos + |s|)
  }

  // ---- reading ----

  /** A read leaves the reader at `pos` whether it succeeds or fails. */
  datatype Read<+T> = Got(value: T, pos: nat) | Short(pos: nat)

  function Take(buf: seq<byte>, pos: nat, n: nat): (r: Read<seq<byte>>)
    ensures r.Got? <==> pos + n <= |buf|
    ensures r.Got? ==> |r.value| == n
  {
    if pos + n > |buf| then Short(pos) else Got(buf[pos..pos + n], pos + n)
  }

  /** What `take` does where positions are 32-bit words: the sum of position and count wraps. */
  datatype Take32 = Taken(bytes: seq<byte>) | Refused | Panics

  function TakeWrapping(buf: seq<byte>, pos: u32, n: u32): Take32 {
    var end := (pos + n) % 0x1_0000_0000;
    if end > |buf| then Refused
    else if pos > end then Panics
    else Taken(buf[pos..end])
  }

  /**
   * With 32-bit positions a take fails to be `Take` exactly when the sum wraps to a point inside
   * the buffer, and then it slices backwards.
   */
  lemma TakeWrapsExactly(buf: seq<byte>, pos: u32, n: u32)
    ensures TakeWrapping(buf, pos, n).Panics? <==> 0x1_0000_0000 <= pos + n <= 0x1_0000_0000 + |buf|
    ensures !TakeWrapping(buf, pos, n).Panics? && |buf| < 0x1_0000_0000 ==>
      TakeWrapping(buf, pos, n) == match Take(buf, pos, n) { case Got(s, _) => Taken(s) case Short(_) => Refused }
  {
    if pos + n < 0x1_0000_0000 {
      assert (pos + n) % 0x1_0000_0000 == pos + n;
    } else {
      assert (pos + n) % 0x1_0000_0000 == pos + n - 0x1_0000_0000;
    }
  }

  function ReadWord(buf: seq<byte>, pos: nat, n: nat): (r: Read<nat>)
    requires n > 0
    ensures r.Got? ==> r.value < Pow256(n)
  {
    match Take(buf, AlignUp(pos, n), n)
    case Got(s, p) => Got(FromLe(s), p)
    case Short(p) => Short(p)
  }

  function ReadU32(buf: seq<byte>, pos: nat): Read<u32> {
    Widths();
    match ReadWord(buf, pos, 4)
    case Got(w, p) => Got(w, p)
    case Short(p) => Short(p)
  }

  function ReadF64(buf: seq<byte>, pos: nat): Read<u64> {
    Widths();
    match ReadWord(buf, pos, 8)
    case Got(w, p) => Got(w, p)
    case Short(p) => Short(p)
  }

  /** What remains of an array read once `done` has been read. */
  function After<T>(done: seq<T>, rest: Read<seq<T>>): Read<seq<T>> {
    match rest
    case Got(vs, p) => Got(done + vs, p)
    case Short(p) => Short(p)
  }

  /** `n` doubles, each aligned on its own. */
  function ReadF64s(buf: seq<byte>, pos: nat, n: nat): Read<seq<u64>>
    decreases n
  {
    if n == 0 then Got([], pos)
    else
      match ReadF64(buf, pos)
      case Got(w, p) => After([w], ReadF64s(buf, p, n - 1))
      case Short(p) => Short(p)
  }

  function ReadString(buf: seq<byte>, pos: nat): Read<seq<byte>> {
    match ReadU32(buf, pos)
    case Short(p) => Short(p)
    case Got(count, p) =>
      if count == 0 then Got([], p)
      else
        match Take(buf, p, count - 1)
        case Short(q) => Short(q)
        case Got(text, q) =>
          match Take(buf, q, 1)
          case Short(e) => Short(e)
          case Got(_, e) => Got(text, e)
  }

  /** What a string read does where positions are 32-bit words: count, text, terminator. */
  function ReadStringWrapping(buf: seq<byte>, pos: nat): Take32 {
    match ReadU32(buf, pos)
    case Short(_) => Refused
    case Got(count, p) =>
      if count == 0 then Taken([])
      else if p > 0xFFFF_FFFF then Refused
      else
        match TakeWrapping(buf, p, count - 1)
        case Taken(text) =>
          (match TakeWrapping(buf, (p + count - 1) % 0x1_0000_0000, 1)
           case Taken(_) => Taken(text)
           case other => other)
        case other => other
  }

  /**
   * In a body that a 32-bit target can hold, a string read panics exactly when its count word is
   * so large that the position behind the text, without terminator, wraps; otherwise it is
   * `ReadString`.
   */
  lemma StringReadWrapsExactly(buf: seq<byte>, pos: nat)
    requires |buf| < 0x8000_0000
    ensures
      var count := ReadU32(buf, pos);
      ReadStringWrapping(buf, pos).Panics? <==> count.Got? && count.value > 0 && count.pos + count.value - 1 >= 0x1_0000_0000
    ensures !ReadStringWrapping(buf, pos).Panics? ==>
      ReadStringWrapping(buf, pos) == match ReadString(buf, pos) { case Got(t, _) => Taken(t) case Short(_) => Refused }
  {
    var count := ReadU32(buf, pos);
    if count.Got? && count.value > 0 {
      assert count.pos <= |buf|;
      TakeWrapsExactly(buf, count.pos, count.value - 1);
      if count.pos + count.value - 1 <= |buf| {
        TakeWrapsExactly(buf, count.pos + count.value - 1, 1);
      }
    }
  }

  /** Such a body: a count word of all ones in front. */
  lemma LargestCountPanics(tail: seq<byte>)
    requires |tail| < 764
    ensures ReadStringWrapping([0xFF, 0xFF, 0xFF, 0xFF] + tail, 0).Panics?
  {
    var buf := [0xFF, 0xFF, 0xFF, 0xFF] + tail;
    assert buf[0..4] == [0xFF, 0xFF, 0xFF, 0xFF] && AlignUp(0, 4) == 0;
    LargestWord();
    StringReadWrapsExactly(buf, 0);
  }

  lemma LargestWord()
    ensures FromLe([0xFF, 0xFF, 0xFF, 0xFF]) == 0xFFFF_FFFF
  {
    assert [0xFF, 0xFF, 0xFF, 0xFF][1..] == [0xFF, 0xFF, 0xFF];
    assert [0xFF, 0xFF, 0xFF][1..] == [0xFF, 0xFF];
    assert [0xFF, 0xFF][1..] == [0xFF];
  }

  function Decode(k: Kind, buf: seq<byte>, pos: nat): Read<Value> {
    match k
    case U8K =>
      (match Take(buf, pos, 1) case Got(s, p) => Got(U8(s[0]), p) case Short(p) => Short(p))
    case BoolK =>
      (match Take(buf, pos, 1) case Got(s, p) => Got(Bool(s[0] != 0), p) case Short(p) => Short(p))
    case I32K =>
      (match ReadU32(buf, pos) case Got(w, p) => Got(I32(FromBits32(w)), p) case Short(p) => Short(p))
    case U32K =>
      (match ReadU32(buf, pos) case Got(w, p) => Got(U32(w), p) case Short(p) => Short(p))
    case F32K =>
      (match ReadU32(buf, pos) case Got(w, p) => Got(F32(w), p) case Short(p) => Short(p))
    case F64K =>
      (match ReadF64(buf, pos) case Got(w, p) => Got(F64(w), p) case Short(p) => Short(p))
    case StrK =>
      (match ReadString(buf, pos) case Got(t, p) => Got(Str(t), p) case Short(p) => Short(p))
    case TextK(limit) =>
      (match ReadString(buf, pos)
       case Got(t, p) => if Utf8(t) && |t| <= limit then Got(Str(t), p) else Short(p)
       case Short(p) => Short(p))
    case F64sK(n) =>
      (match ReadF64s(buf, AlignUp(pos, 8), n) case Got(ws, p) => Got(F64s(ws), p) case Short(p) => Short(p))
  }

  function DecodeAll(s: Schema, buf: seq<byte>, pos: nat): Read<Message> {
    if s == [] then Got([], pos)
    else
      match Decode(s[0], buf, pos)
      case Got(v, p) => After([v], DecodeAll(s[1..], buf, p))
      case Short(p) => Short(p)
  }

  // ---- round trip ----

  lemma WordRoundTrip(pre: seq<byte>, w: nat, n: nat, suf: seq<byte>)
    requires n > 0 && w < Pow256(n)
    ensures ReadWord(pre + Pad(|pre|, n) + Le(w, n) + suf, |pre|, n)
         == Got(w, |pre| + Padding(|pre|, n) + n)
  {
    var buf := pre + Pad(|pre|, n) + Le(w, n) + suf;
    var p := AlignUp(|pre|, n);
    assert buf[p..p + n] == Le(w, n);
    FromLeOfLe(w, n);
  }

  /** Once aligned, the reader's per-element alignment inserts nothing. */
  lemma {:induction false} WordsRoundTrip(pre: seq<byte>, ws: seq<u64>, suf: seq<byte>)
    requires |pre| % 8 == 0
    ensures ReadF64s(pre + Words(ws) + suf, |pre|, |ws|) == Got(ws, |pre| + 8 * |ws|)
    decreases |ws|
  {
    hide Le, FromLe, ReadWord, Zeros;
    var buf := pre + Words(ws) + suf;
    if ws != [] {
      var head := Le(ws[0], 8);
      Widths();
      WordRoundTrip(pre, ws[0], 8, Words(ws[1..]) + suf);
      assert buf == pre + Pad(|pre|, 8) + head + (Words(ws[1..]) + suf);
      WordsRoundTrip(pre + head, ws[1..], suf);
      assert buf == (pre + head) + Words(ws[1..]) + suf;
      assert [ws[0]] + ws[1..] == ws;
    }
  }

  /** A string read is a count, the text and one more byte. */
  lemma ReadStringIs(buf: seq<byte>, pos: nat, p: nat, text: seq<byte>, last: seq<byte>)
    requires |text| < 0xFFFF_FFFF
    requires ReadWord(buf, pos, 4) == Got(|text| + 1, p)
    requires Take(buf, p, |text|) == Got(text, p + |text|)
    requires Take(buf, p + |text|, 1) == Got(last, p + |text| + 1)
    ensures ReadString(buf, pos) == Got(text, p + |text| + 1)
  {
    hide ReadWord, Take, Pow256;
    Widths();
  }

  lemma EncodedString(t: seq<byte>, pos: nat)
    requires |t| < 0xFFFF_FFFF
    ensures Encode(Str(t), pos) == Pad(pos, 4) + Le(|t| + 1, 4) + t + [0]
  {
    hide Le, Pad, StringCount;
    assert StringCount(t) == |t| + 1 by { ExactCount(t); }
  }

  lemma ExactCount(t: seq<byte>)
    requires |t| < 0xFFFF_FFFF
    ensures StringCount(t) == |t| + 1
  {
  }

  lemma StringRoundTrip(pre: seq<byte>, t: seq<byte>, suf: seq<byte>)
    requires |t| < 0xFFFF_FFFF
    ensures ReadString(pre + Encode(Str(t), |pre|) + suf, |pre|)
         == Got(t, |pre| + |Encode(Str(t), |pre|)|)
  {
    hide Le, ReadWord, ReadString, Pad, Padding, AlignUp, Pow256, Encode, Take;
    var pad, count := Pad(|pre|, 4), Le(|t| + 1, 4);
    EncodedString(t, |pre|);
    Widths();
    var front := pre + pad + count;
    var buf := pre + (pad + count + t + [0]) + suf;
    StringParts(pre, pad, count, t, suf);
    WordRoundTrip(pre, |t| + 1, 4, t + [0] + suf);
    TextBehind(front, t, suf);
    ReadStringIs(buf, |pre|, |front|, t, [0]);
  }

  lemma StringParts(pre: seq<byte>, pad: seq<byte>, count: seq<byte>, t: seq<byte>, suf: seq<byte>)
    ensures pre + (pad + count + t + [0]) + suf == pre + pad + count + (t + [0] + suf)
  {
  }

  lemma TextBehind(front: seq<byte>, t: seq<byte>, suf: seq<byte>)
    ensures Take(front + (t + [0] + suf), |front|, |t|) == Got(t, |front| + |t|)
    ensures Take(front + (t + [0] + suf), |front| + |t|, 1) == Got([0], |front| + |t| + 1)
  {
    var buf := front + (t + [0] + suf);
    assert buf[|front|..|front| + |t|] == t;
    assert buf[|front| + |t|..|front| + |t| + 1] == [0];
  }

  lemma Regroup(a: seq<byte>, b: seq<byte>, c: seq<byte>, d: seq<byte>)
    ensures a + (b + c) + d == a + b + c + d
  {
  }

  lemma U32RoundTrip(pre: seq<byte>, w: u32, suf: seq<byte>)
    ensures ReadU32(pre + (Pad(|pre|, 4) + Le(w, 4)) + suf, |pre|)
         == Got(w, |pre| + |Pad(|pre|, 4) + Le(w, 4)|)
  {
    hide Le, ReadWord, Pad, Padding, Pow256;
    Widths();
    WordRoundTrip(pre, w, 4, suf);
    Regroup(pre, Pad(|pre|, 4), Le(w, 4), suf);
  }

  lemma F64RoundTrip(pre: seq<byte>, w: u64, suf: seq<byte>)
    ensures ReadF64(pre + (Pad(|pre|, 8) + Le(w, 8)) + suf, |pre|)
         == Got(w, |pre| + |Pad(|pre|, 8) + Le(w, 8)|)
  {
    hide Le, ReadWord, Pad, Padding, Pow256;
    Widths();
    WordRoundTrip(pre, w, 8, suf);
    Regroup(pre, Pad(|pre|, 8), Le(w, 8), suf);
  }

  /** The writer aligns an array once, the reader once and then before every element. */
  lemma ArrayRoundTrip(pre: seq<byte>, ws: seq<u64>, suf: seq<byte>)
    ensures ReadF64s(pre + (Pad(|pre|, 8) + Words(ws)) + suf, AlignUp(|pre|, 8), |ws|)
         == Got(ws, |pre| + |Pad(|pre|, 8) + Words(ws)|)
  {
    hide ReadF64s, Words, Zeros;
    var aligned := pre + Pad(|pre|, 8);
    WordsRoundTrip(aligned, ws, suf);
    assert pre + (Pad(|pre|, 8) + Words(ws)) + suf == aligned + Words(ws) + suf;
  }

  /**
   * A field written at any position is read back from that position, whatever surrounds it,
   * and the reader ends where the writer ended.
   */
  lemma FieldRoundTrip(v: Value, k: Kind, pre: seq<byte>, suf: seq<byte>)
    requires HasKind(v, k)
    ensures Decode(k, pre + Encode(v, |pre|) + suf, |pre|) == Got(v, |pre| + |Encode(v, |pre|)|)
  {
    hide ReadU32, ReadF64, ReadF64s, ReadString, Le, Words, Utf8, Pad, StringCount;
    match v
    case U8(b) =>
    case Bool(t) =>
    case I32(i) => U32RoundTrip(pre, Bits32(i), suf);
    case U32(u) => U32RoundTrip(pre, u, suf);
    case F32(w) => U32RoundTrip(pre, w, suf);
    case F64(w) => F64RoundTrip(pre, w, suf);
    case Str(t) => StringRoundTrip(pre, t, suf);
    case F64s(ws) => ArrayRoundTrip(pre, ws, suf);
  }

  /** Any message, from any starting position, with any bytes before and after it. */
  lemma {:induction false} MessageRoundTrip(m: Message, s: Schema, pre: seq<byte>, suf: seq<byte>)
    requires HasSchema(m, s)
    ensures DecodeAll(s, pre + EncodeAll(m, |pre|) + suf, |pre|) == Got(m, |pre| + |EncodeAll(m, |pre|)|)
  {
    hide Encode, Decode;
    if m != [] {
      var head := Encode(m[0], |pre|);
      var rest := EncodeAll(m[1..], |pre + head|);
      var buf := pre + EncodeAll(m, |pre|) + suf;
      FieldRoundTrip(m[0], s[0], pre, rest + suf);
      assert buf == pre + head + (rest + suf);
      MessageRoundTrip(m[1..], s[1..], pre + head, suf);
      assert buf == (pre + head) + rest + suf;
      assert [m[0]] + m[1..] == m;
    }
  }

  /** The encoding is uniquely decodable: no message's bytes begin another's of the same type. */
  lemma UniquelyDecodable(m: Message, n: Message, s: Schema, a: seq<byte>, b: seq<byte>)
    requires HasSchema(m, s) && HasSchema(n, s)
    requires EncodeAll(m, 0) + a == EncodeAll(n, 0) + b
    ensures m == n && a == b
  {
    hide EncodeAll, DecodeAll;
    MessageRoundTrip(m, s, [], a);
    MessageRoundTrip(n, s, [], b);
    assert [] + EncodeAll(m, 0) + a == EncodeAll(m, 0) + a;
    assert [] + EncodeAll(n, 0) + b == EncodeAll(n, 0) + b;
    assert a == (EncodeAll(m, 0) + a)[|EncodeAll(m, 0)|..];
    assert b == (EncodeAll(n, 0) + b)[|EncodeAll(n, 0)|..];
  }

  // ---- when a read fails ----

  /**
   * How many bytes the buffer must hold for a read of kind `k` at `pos`, going by the layout
   * alone: for a string, by the length word found in the buffer. An empty array needs none.
   */
  function Extent(k: Kind, buf: seq<byte>, pos: nat): nat {
    match k
    case U8K => pos + 1
    case BoolK => pos + 1
    case I32K => AlignUp(pos, 4) + 4
    case U32K => AlignUp(pos, 4) + 4
    case F32K => AlignUp(pos, 4) + 4
    case F64K => AlignUp(pos, 8) + 8
    case StrK => StringExtent(buf, pos)
    case TextK(_) => StringExtent(buf, pos)
    case F64sK(n) => if n == 0 then 0 else AlignUp(pos, 8) + 8 * n
  }

  function StringExtent(buf: seq<byte>, pos: nat): nat {
    var p := AlignUp(pos, 4) + 4;
    if p > |buf| then p else p + FromLe(buf[p - 4..p])
  }

  lemma F64Extent(buf: seq<byte>, pos: nat)
    requires pos % 8 == 0
    ensures ReadF64(buf, pos).Got? <==> pos + 8 <= |buf|
    ensures ReadF64(buf, pos).Got? ==> ReadF64(buf, pos).pos == pos + 8
    ensures ReadF64(buf, pos).Short? ==> ReadF64(buf, pos).pos == pos
  {
    hide FromLe;
  }

  lemma {:induction false} WordsExtent(buf: seq<byte>, pos: nat, n: nat)
    requires pos % 8 == 0
    ensures ReadF64s(buf, pos, n).Got? <==> n == 0 || pos + 8 * n <= |buf|
    ensures ReadF64s(buf, pos, n).Got? ==> ReadF64s(buf, pos, n).pos == pos + 8 * n
    ensures ReadF64s(buf, pos, n).Got? ==> |ReadF64s(buf, pos, n).value| == n
    ensures pos <= ReadF64s(buf, pos, n).pos
    decreases n
  {
    hide ReadF64;
    F64Extent(buf, pos);
    if n > 0 && pos + 8 <= |buf| {
      WordsExtent(buf, pos + 8, n - 1);
    }
  }

  /**
   * A read fails exactly when the layout runs past the end of the buffer or, for text, when the
   * bytes are not UTF-8 or exceed the limit. The position never moves back, and a successful
   * read that needs bytes ends exactly at its extent.
   */
  lemma FieldReadExact(k: Kind, buf: seq<byte>, pos: nat)
    ensures !k.TextK? ==> (Decode(k, buf, pos).Got? <==> Extent(k, buf, pos) <= |buf|)
    ensures k.TextK? ==>
      (Decode(k, buf, pos).Got? <==>
        Extent(k, buf, pos) <= |buf| && Utf8(ReadString(buf, pos).value) && |ReadString(buf, pos).value| <= k.limit)
    ensures pos <= Decode(k, buf, pos).pos
    ensures Decode(k, buf, pos).Got? && Extent(k, buf, pos) > 0 ==> Decode(k, buf, pos).pos == Extent(k, buf, pos)
  {
    hide FromLe, Utf8;
    match k
    case F64sK(n) => WordsExtent(buf, AlignUp(pos, 8), n);
    case _ =>
  }

  // ---- truncated messages ----

  lemma TakeStable(buf: seq<byte>, n: nat, pos: nat, c: nat)
    requires n <= |buf|
    ensures Take(buf[..n], pos, c).Got? ==> Take(buf, pos, c) == Take(buf[..n], pos, c)
  {
    if pos + c <= n {
      assert buf[..n][pos..pos + c] == buf[pos..pos + c];
    }
  }

  lemma WordReadStable(buf: seq<byte>, n: nat, pos: nat, w: nat)
    requires n <= |buf| && w > 0
    ensures ReadWord(buf[..n], pos, w).Got? ==> ReadWord(buf, pos, w) == ReadWord(buf[..n], pos, w)
  {
    hide FromLe;
    TakeStable(buf, n, AlignUp(pos, w), w);
  }

  lemma StringReadStable(buf: seq<byte>, n: nat, pos: nat)
    requires n <= |buf|
    ensures ReadString(buf[..n], pos).Got? ==> ReadString(buf, pos) == ReadString(buf[..n], pos)
  {
    hide ReadWord, Take;
    WordReadStable(buf, n, pos, 4);
    match ReadU32(buf[..n], pos)
    case Short(_) =>
    case Got(count, p) =>
      if count > 0 {
        TakeStable(buf, n, p, count - 1);
        match Take(buf[..n], p, count - 1)
        case Short(_) =>
        case Got(_, q) => TakeStable(buf, n, q, 1);
      }
  }

  /** A successful read of a prefix is unchanged by the bytes that follow. */
  lemma FieldReadStable(k: Kind, buf: seq<byte>, n: nat, pos: nat)
    requires n <= |buf|
    ensures Decode(k, buf[..n], pos).Got? ==> Decode(k, buf, pos) == Decode(k, buf[..n], pos)
  {
    hide Utf8, ReadF64s, ReadString, ReadWord, Take;
    match k
    case F64sK(c) => WordsReadStable(buf, n, AlignUp(pos, 8), c);
    case StrK => StringReadStable(buf, n, pos);
    case TextK(_) => StringReadStable(buf, n, pos);
    case F64K => WordReadStable(buf, n, pos, 8);
    case U8K => TakeStable(buf, n, pos, 1);
    case BoolK => TakeStable(buf, n, pos, 1);
    case _ => WordReadStable(buf, n, pos, 4);
  }

  lemma {:induction false} WordsReadStable(buf: seq<byte>, n: nat, pos: nat, c: nat)
    requires n <= |buf|
    ensures ReadF64s(buf[..n], pos, c).Got? ==> ReadF64s(buf, pos, c) == ReadF64s(buf[..n], pos, c)
    decreases c
  {
    hide ReadWord;
    WordReadStable(buf, n, pos, 8);
    match ReadF64(buf[..n], pos)
    case Short(_) =>
    case Got(_, p) => if c > 0 { WordsReadStable(buf, n, p, c - 1); }
  }

  lemma {:induction false} MessageReadStable(s: Schema, buf: seq<byte>, n: nat, pos: nat)
    requires n <= |buf|
    ensures DecodeAll(s, buf[..n], pos).Got? ==> DecodeAll(s, buf, pos) == DecodeAll(s, buf[..n], pos)
    ensures DecodeAll(s, buf[..n], pos).Got? && s != [] && s[|s| - 1] != F64sK(0) ==> DecodeAll(s, buf[..n], pos).pos <= n
    decreases |s|
  {
    hide Decode, Extent;
    if s != [] {
      FieldReadStable(s[0], buf, n, pos);
      FieldReadExact(s[0], buf[..n], pos);
      match Decode(s[0], buf[..n], pos)
      case Short(_) =>
      case Got(_, p) =>
        MessageReadStable(s[1..], buf, n, p);
        if |s| == 1 && s[0] != F64sK(0) {
          ExtentPositive(s[0], buf[..n], pos);
        }
    }
  }

  lemma ExtentPositive(k: Kind, buf: seq<byte>, pos: nat)
    requires k != F64sK(0)
    ensures Extent(k, buf, pos) > 0
  {
  }

  /**
   * Any proper prefix of a message's encoding is refused, whichever byte it is cut at, unless
   * the message ends in an empty array (whose encoding is padding alone).
   */
  lemma TruncationDetected(m: Message, s: Schema, n: nat)
    requires HasSchema(m, s) && m != [] && s[|s| - 1] != F64sK(0)
    requires n < |EncodeAll(m, 0)|
    ensures DecodeAll(s, EncodeAll(m, 0)[..n], 0).Short?
  {
    hide EncodeAll, DecodeAll, HasKind;
    MessageReadStable(s, EncodeAll(m, 0), n, 0);
    MessageRoundTrip(m, s, [], []);
    assert [] + EncodeAll(m, 0) + [] == EncodeAll(m, 0);
  }

  /** Whatever the bytes, a successful read yields a message of the schema that was asked for. */
  lemma {:induction false} DecodedHasSchema(s: Schema, buf: seq<byte>, pos: nat)
    ensures DecodeAll(s, buf, pos).Got? ==> HasSchema(DecodeAll(s, buf, pos).value, s)
    decreases |s|
  {
    if s != [] {
      FieldHasKind(s[0], buf, pos);
      hide Decode, HasKind;
      match Decode(s[0], buf, pos)
      case Short(_) =>
      case Got(_, p) => DecodedHasSchema(s[1..], buf, p);
    }
  }

  lemma FieldHasKind(k: Kind, buf: seq<byte>, pos: nat)
    ensures Decode(k, buf, pos).Got? ==> HasKind(Decode(k, buf, pos).value, k)
  {
    hide Utf8, FromLe;
    match k
    case F64sK(n) => WordsExtent(buf, AlignUp(pos, 8), n);
    case _ =>
  }
}
