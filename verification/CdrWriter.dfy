/**
 * The CDR serializer: a cursor over the slice `buf[lo..]` that keeps counting past its end.
 * The ghost field `ideal` is the byte stream an unbounded buffer would hold.
 */
module CdrWriting {
  import opened Bytes
  import opened Cdr

  // ---- which writes are safe ----

  /** Where the raw writes behind one field start. */
  function Starts(v: Value, pos: nat): seq<int> {
    match v
    case U8(_) => [pos]
    case Bool(_) => [pos]
    case I32(_) => [AlignUp(pos, 4)]
    case U32(_) => [AlignUp(pos, 4)]
    case F32(_) => [AlignUp(pos, 4)]
    case F64(_) => [AlignUp(pos, 8)]
    case Str(t) => [AlignUp(pos, 4), AlignUp(pos, 4) + 4, AlignUp(pos, 4) + 4 + |t|]
    case F64s(ws) => seq(|ws|, i requires 0 <= i < |ws| => AlignUp(pos, 8) + 8 * i)
  }

  /** The same for the fields of a message in order. */
  function StartsAll(m: Message, pos: nat): seq<int> {
    if m == [] then [] else Starts(m[0], pos) + StartsAll(m[1..], pos + |Encode(m[0], pos)|)
  }

  /**
   * Writing `v` at `pos` into `len` bytes never slices the buffer from a point past its end.
   * A field may run over the end; it may not start a raw write beyond it.
   */
  predicate CanWrite(v: Value, pos: nat, len: nat) {
    match v
    case U8(_) => pos <= len
    case Bool(_) => pos <= len
    case I32(_) => AlignUp(pos, 4) <= len
    case U32(_) => AlignUp(pos, 4) <= len
    case F32(_) => AlignUp(pos, 4) <= len
    case F64(_) => AlignUp(pos, 8) <= len
    case Str(t) => AlignUp(pos, 4) + 4 + |t| <= len
    case F64s(ws) => ws == [] || AlignUp(pos, 8) + 8 * (|ws| - 1) <= len
  }

  predicate CanWriteAll(m: Message, pos: nat, len: nat) {
    m == [] || (CanWrite(m[0], pos, len) && CanWriteAll(m[1..], pos + |Encode(m[0], pos)|, len))
  }

  /** Every one of these points is in a slice of `len` bytes or at its end. */
  ghost predicate Within(starts: seq<int>, len: nat) {
    forall i :: 0 <= i < |starts| ==> starts[i] <= len
  }

  /** The guard is exact: it holds when, and only when, every raw write starts in the buffer. */
  lemma CanWriteExact(v: Value, pos: nat, len: nat)
    ensures CanWrite(v, pos, len) <==> Within(Starts(v, pos), len)
  {
    hide Encode;
    var starts := Starts(v, pos);
    if v.F64s? && v.elems != [] {
      assert starts[|starts| - 1] == AlignUp(pos, 8) + 8 * (|v.elems| - 1);
    } else if v.Str? {
      assert starts[2] == AlignUp(pos, 4) + 4 + |v.text|;
    } else if !v.F64s? {
      assert Within(starts, len) <==> starts[0] <= len;
    }
  }

  lemma {:induction false} CanWriteAllExact(m: Message, pos: nat, len: nat)
    ensures CanWriteAll(m, pos, len) <==> Within(StartsAll(m, pos), len)
  {
    hide Encode, CanWrite, Starts, Within;
    if m == [] {
      assert Within([], len) by { WithinTogether([], [], len); }
    } else {
      CanWriteExact(m[0], pos, len);
      CanWriteAllExact(m[1..], pos + |Encode(m[0], pos)|, len);
      WithinTogether(Starts(m[0], pos), StartsAll(m[1..], pos + |Encode(m[0], pos)|), len);
    }
  }

  lemma WithinTogether(a: seq<int>, b: seq<int>, len: nat)
    ensures Within(a + b, len) <==> Within(a, len) && Within(b, len)
    ensures Within([], len)
  {
    assert forall i :: 0 <= i < |a| ==> a[i] == (a + b)[i];
    assert forall i :: 0 <= i < |b| ==> b[i] == (a + b)[|a| + i];
  }

  /** A field that fits is safe to write. */
  lemma FittingFieldIsSafe(v: Value, pos: nat, len: nat)
    requires pos + |Encode(v, pos)| <= len
    ensures CanWrite(v, pos, len)
  {
    hide Zeros, Le, Words;
  }

  lemma {:induction false} FittingMessageIsSafe(m: Message, pos: nat, len: nat)
    requires pos + |EncodeAll(m, pos)| <= len
    ensures CanWriteAll(m, pos, len)
  {
    hide Encode, CanWrite;
    if m != [] {
      FittingFieldIsSafe(m[0], pos, len);
      FittingMessageIsSafe(m[1..], pos + |Encode(m[0], pos)|, len);
    }
  }

  /**
   * A lone string is written without a panic and yet does not fit for exactly one length: the
   * terminator alone is lost.
   */
  lemma SilentStringTruncation(t: seq<byte>, len: nat)
    ensures CanWriteAll([Str(t)], 0, len) && |EncodeAll([Str(t)], 0)| > len <==> |t| + 4 == len
    ensures |t| + 4 == len ==> EncodeAll([Str(t)], 0)[..len] == Le(StringCount(t), 4) + t
  {
    hide Le, StringCount;
    var m := [Str(t)];
    assert m[1..] == [];
    assert Pad(0, 4) == [];
    assert EncodeAll(m, 0) == Le(StringCount(t), 4) + t + [0];
  }

  // ---- writing a message field by field ----

  /** The fields from `i` on are still to be written, and what is written so far is right. */
  ghost predicate Pending(m: Message, i: nat, start: seq<byte>, ideal: seq<byte>, len: nat) {
    && i <= |m|
    && CanWriteAll(m[i..], |ideal|, len)
    && start + EncodeAll(m, |start|) == ideal + EncodeAll(m[i..], |ideal|)
  }

  lemma Advance(m: Message, i: nat, start: seq<byte>, ideal: seq<byte>, len: nat)
    requires i < |m| && Pending(m, i, start, ideal, len)
    ensures CanWrite(m[i], |ideal|, len)
    ensures Pending(m, i + 1, start, ideal + Encode(m[i], |ideal|), len)
  {
    hide Encode, CanWrite;
    assert m[i..][1..] == m[i + 1..];
  }

  ghost predicate WordsLeft(ws: seq<u64>, i: nat, start: seq<byte>, ideal: seq<byte>) {
    i <= |ws| && start + Words(ws) == ideal + Words(ws[i..])
  }

  lemma NextWord(ws: seq<u64>, i: nat, start: seq<byte>, ideal: seq<byte>)
    requires i < |ws| && WordsLeft(ws, i, start, ideal)
    ensures WordsLeft(ws, i + 1, start, ideal + Le(ws[i], 8))
  {
    hide Le;
    assert ws[i..][1..] == ws[i + 1..];
  }

  lemma NoWordsLeft(ws: seq<u64>, start: seq<byte>, ideal: seq<byte>)
    requires WordsLeft(ws, |ws|, start, ideal)
    ensures ideal == start + Words(ws)
  {
    assert ws[|ws|..] == [];
  }

  class CdrWriter {
    const buf: array<byte>
    const lo: nat
    var pos: nat
    ghost const base: seq<byte>
    ghost var ideal: seq<byte>
    ghost var starts: seq<int> // where the raw writes so far began

    /**
     * The buffer shows the ideal stream as far as the slice reaches, and is otherwise what it
     * was when the writer was made.
     */
    ghost predicate Valid()
      reads this, buf
    {
      && lo <= buf.Length == |base|
      && pos == |ideal|
      && buf[..] == Overlay(base, lo, buf.Length, ideal)
    }

    function Len(): nat
      requires lo <= buf.Length
    {
      buf.Length - lo
    }

    constructor (buf: array<byte>, lo: nat)
      requires lo <= buf.Length
      ensures this.buf == buf && this.lo == lo && Valid() && ideal == [] && starts == [] && base == buf[..]
    {
      this.buf, this.lo, pos := buf, lo, 0;
      base, ideal, starts := buf[..], [], [];
    }

    /** A raw write that starts in the slice; the part past the end is counted and dropped. */
    method Raw(bytes: seq<byte>)
      requires Valid() && pos <= Len()
      modifies `pos, `ideal, `starts, buf
      ensures Valid() && ideal == old(ideal) + bytes && starts == old(starts) + [old(pos)]
    {
      var n := Min(|bytes|, Len() - pos);
      forall i | 0 <= i < n {
        buf[lo + pos + i] := bytes[i];
      }
      starts := starts + [pos];
      pos := pos + |bytes|;
      ideal := ideal + bytes;
    }

    /** Padding is dropped past the end instead of failing. */
    method Align(n: nat)
      requires Valid() && n > 0
      modifies `pos, `ideal, buf
      ensures Valid() && ideal == old(ideal) + Pad(old(pos), n)
    {
      var rem := pos % n;
      if rem != 0 {
        var pad := n - rem;
        for k := 0 to pad
          invariant Valid() && ideal == old(ideal) + Zeros(k)
        {
          if pos < Len() {
            buf[lo + pos] := 0;
          }
          pos := pos + 1;
          ideal := ideal + [0];
        }
      }
    }

    method U8Val(v: byte)
      requires Valid() && CanWrite(U8(v), pos, Len())
      modifies `pos, `ideal, `starts, buf
      ensures Valid() && ideal == old(ideal) + Encode(U8(v), |old(ideal)|)
      ensures starts == old(starts) + Starts(U8(v), |old(ideal)|)
    {
      Raw([v]);
    }

    method BoolVal(v: bool)
      requires Valid() && CanWrite(Bool(v), pos, Len())
      modifies `pos, `ideal, `starts, buf
      ensures Valid() && ideal == old(ideal) + Encode(Bool(v), |old(ideal)|)
      ensures starts == old(starts) + Starts(Bool(v), |old(ideal)|)
    {
      Raw([if v then 1 else 0]);
    }

    method U32Val(v: u32)
      requires Valid() && CanWrite(U32(v), pos, Len())
      modifies `pos, `ideal, `starts, buf
      ensures Valid() && ideal == old(ideal) + Encode(U32(v), |old(ideal)|)
      ensures starts == old(starts) + Starts(U32(v), |old(ideal)|)
    {
      hide Le, Pad, Overlay, Padding;
      Align(4);
      Raw(Le(v, 4));
    }

    method I32Val(v: i32)
      requires Valid() && CanWrite(I32(v), pos, Len())
      modifies `pos, `ideal, `starts, buf
      ensures Valid() && ideal == old(ideal) + Encode(I32(v), |old(ideal)|)
      ensures starts == old(starts) + Starts(I32(v), |old(ideal)|)
    {
      hide Le, Pad, Overlay, Padding;
      Align(4);
      Raw(Le(Bits32(v), 4));
    }

    method F32Val(v: u32)
      requires Valid() && CanWrite(F32(v), pos, Len())
      modifies `pos, `ideal, `starts, buf
      ensures Valid() && ideal == old(ideal) + Encode(F32(v), |old(ideal)|)
      ensures starts == old(starts) + Starts(F32(v), |old(ideal)|)
    {
      hide Le, Pad, Overlay, Padding;
      Align(4);
      Raw(Le(v, 4));
    }

    method F64Val(v: u64)
      requires Valid() && CanWrite(F64(v), pos, Len())
      modifies `pos, `ideal, `starts, buf
      ensures Valid() && ideal == old(ideal) + Encode(F64(v), |old(ideal)|)
      ensures starts == old(starts) + Starts(F64(v), |old(ideal)|)
    {
      hide Le, Pad, Overlay, Padding;
      Align(8);
      Raw(Le(v, 8));
    }

    method StringVal(s: seq<byte>)
      requires Valid() && CanWrite(Str(s), pos, Len())
      modifies `pos, `ideal, `starts, buf
      ensures Valid() && ideal == old(ideal) + Encode(Str(s), |old(ideal)|)
      ensures starts == old(starts) + Starts(Str(s), |old(ideal)|)
    {
      hide Le;
      Align(4);
      Raw(Le(StringCount(s), 4));
      Raw(s);
      Raw([0]);
    }

    /** `f64_array` and `f64_slice`: one alignment, then the elements back to back. */
    method F64Array(ws: seq<u64>)
      requires Valid() && CanWrite(F64s(ws), pos, Len())
      modifies `pos, `ideal, `starts, buf
      ensures Valid() && ideal == old(ideal) + Encode(F64s(ws), |old(ideal)|)
      ensures starts == old(starts) + Starts(F64s(ws), |old(ideal)|)
    {
      hide Words, Zeros, Overlay;
      Align(8);
      ghost var start := ideal;
      assert ws[0..] == ws;
      for i := 0 to |ws|
        invariant Valid() && pos == |start| + 8 * i
        invariant WordsLeft(ws, i, start, ideal)
        invariant starts == old(starts) + Starts(F64s(ws), |old(ideal)|)[..i]
      {
        NextWord(ws, i, start, ideal);
        Raw(Le(ws[i], 8));
      }
      NoWordsLeft(ws, start, ideal);
      assert start + Words(ws) == old(ideal) + (Pad(old(pos), 8) + Words(ws));
    }

    method Write(v: Value)
      requires Valid() && CanWrite(v, pos, Len())
      modifies `pos, `ideal, `starts, buf
      ensures Valid() && ideal == old(ideal) + Encode(v, |old(ideal)|)
      ensures starts == old(starts) + Starts(v, |old(ideal)|)
    {
      hide Encode, CanWrite, Starts;
      match v
      case U8(b) => U8Val(b);
      case Bool(t) => BoolVal(t);
      case I32(i) => I32Val(i);
      case U32(u) => U32Val(u);
      case F32(w) => F32Val(w);
      case F64(w) => F64Val(w);
      case Str(t) => StringVal(t);
      case F64s(ws) => F64Array(ws);
    }

    /** Serializing a message is writing its fields in order. */
    method WriteAll(m: Message)
      requires Valid() && CanWriteAll(m, pos, Len())
      modifies `pos, `ideal, `starts, buf
      ensures Valid() && ideal == old(ideal) + EncodeAll(m, |old(ideal)|)
      ensures starts == old(starts) + StartsAll(m, |old(ideal)|)
    {
      hide Encode, CanWrite, Starts;
      assert m[0..] == m;
      for i := 0 to |m|
        invariant Valid() && Pending(m, i, old(ideal), ideal, Len())
        invariant old(starts) + StartsAll(m, |old(ideal)|) == starts + StartsAll(m[i..], |ideal|)
      {
        assert m[i..][1..] == m[i + 1..];
        Advance(m, i, old(ideal), ideal, Len());
        Write(m[i]);
      }
    }

    /** How much of the ideal stream the slice holds: never more than the slice, whatever was written. */
    function BytesWritten(): (n: nat)
      requires Valid()
      reads this, buf
      ensures n <= |ideal| && n <= Len() && (n == |ideal| || n == Len())
      ensures buf[lo..lo + n] == ideal[..n]
    {
      OverlayShows(base, lo, buf.Length, ideal);
      assert buf[lo..lo + Min(pos, Len())] == buf[..][lo..lo + Min(pos, Len())];
      Min(pos, Len())
    }

    /** The bytes handed back are the ideal stream, cut at the slice's end. */
    method Finish() returns (out: seq<byte>)
      requires Valid()
      ensures out == ideal[..Min(|ideal|, Len())]
    {
      var end := Min(pos, Len());
      out := buf[lo..lo + end];
    }
  }
}
