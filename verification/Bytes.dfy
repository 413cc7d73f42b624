/** Bytes, fixed-width words and the two small result types shared by every layer. */
module Bytes {
  type byte = x: int | 0 <= x < 0x100
  type u16 = x: int | 0 <= x < 0x1_0000
  type u32 = x: int | 0 <= x < 0x1_0000_0000
  type u64 = x: int | 0 <= x < 0x1_0000_0000_0000_0000
  type i16 = x: int | -0x8000 <= x < 0x8000
  type i32 = x: int | -0x8000_0000 <= x < 0x8000_0000

  datatype Option<+T> = None | Some(value: T)

  /** The crate's error type. */
  datatype Error =
    | Io
    | Disconnected
    | BufferTooSmall
    | AgentRejected(status: byte)
    | UnexpectedReply
    | StatusReqMismatch
    | Deserialization
    | SubscriptionOverflow
    | TooManySubscriptions

  datatype Result<+T> = Ok(value: T) | Err(error: Error)

  function Min(a: nat, b: nat): nat {
    if a <= b then a else b
  }

  function Zeros(n: nat): (z: seq<byte>)
    ensures |z| == n
    ensures forall i :: 0 <= i < n ==> z[i] == 0
  {
    if n == 0 then [] else Zeros(n - 1) + [0]
  }

  /** Bytes missing between `pos` and the next multiple of `n`. */
  function Padding(pos: nat, n: nat): (p: nat)
    requires n > 0
    ensures p < n
  {
    if pos % n == 0 then 0 else n - pos % n
  }

  function AlignUp(pos: nat, n: nat): nat
    requires n > 0
  {
    pos + Padding(pos, n)
  }

  /** `AlignUp(pos, n)` is the least multiple of `n` that is not below `pos`. */
  lemma AlignUpIsNextMultiple(pos: nat, n: nat, m: nat)
    requires n > 0
    ensures AlignUp(pos, n) % n == 0 && pos <= AlignUp(pos, n)
    ensures pos <= m && m % n == 0 ==> AlignUp(pos, n) <= m
  {
    var q, r := pos / n, pos % n;
    assert pos == n * q + r;
    if r != 0 {
      assert AlignUp(pos, n) == n * (q + 1);
      ModOfMultiple(n, q + 1);
      if pos <= m && m % n == 0 {
        var k := m / n;
        assert m == n * k;
        if k <= q {
          MulMonotone(n, k, q);
        } else {
          MulMonotone(n, q + 1, k);
        }
      }
    }
  }

  lemma ModOfMultiple(n: nat, q: nat)
    requires n > 0
    ensures (n * q) % n == 0
  {
    var d, r := n * q / n, n * q % n;
    assert n * q == n * d + r;
    assert n * (d + 1) == n * d + n;
    if q > d {
      MulMonotone(n, d + 1, q);
    } else {
      MulMonotone(n, q, d);
    }
  }

  lemma MulMonotone(n: nat, a: nat, b: nat)
    requires a <= b
    ensures n * a <= n * b
  {
  }

  // ---- little and big endian ----

  function Pow256(n: nat): (p: nat)
    ensures p > 0
  {
    if n == 0 then 1 else 0x100 * Pow256(n - 1)
  }

  /** The `n` low-order bytes of `v`, least significant first. */
  function Le(v: nat, n: nat): (s: seq<byte>)
    ensures |s| == n
  {
    if n == 0 then [] else [v % 0x100] + Le(v / 0x100, n - 1)
  }

  function FromLe(s: seq<byte>): (v: nat)
    ensures v < Pow256(|s|)
  {
    if s == [] then 0 else s[0] + 0x100 * FromLe(s[1..])
  }

  lemma {:induction false} FromLeOfLe(v: nat, n: nat)
    requires v < Pow256(n)
    ensures FromLe(Le(v, n)) == v
  {
    if n > 0 {
      assert Le(v, n)[1..] == Le(v / 0x100, n - 1);
      FromLeOfLe(v / 0x100, n - 1);
    }
  }

  lemma Widths()
    ensures Pow256(2) == 0x1_0000
    ensures Pow256(4) == 0x1_0000_0000
    ensures Pow256(8) == 0x1_0000_0000_0000_0000
  {
    assert Pow256(1) == 0x100 * Pow256(0);
    assert Pow256(2) == 0x100 * Pow256(1);
    assert Pow256(3) == 0x100 * Pow256(2);
    assert Pow256(4) == 0x100 * Pow256(3);
    assert Pow256(5) == 0x100 * Pow256(4);
    assert Pow256(6) == 0x100 * Pow256(5);
    assert Pow256(7) == 0x100 * Pow256(6);
    assert Pow256(8) == 0x100 * Pow256(7);
  }

  function Le16(v: u16): (s: seq<byte>)
    ensures |s| == 2
  {
    [v % 0x100, v / 0x100]
  }

  function FromLe16(lo: byte, hi: byte): u16 {
    lo + 0x100 * hi
  }

  function Be16(v: u16): (s: seq<byte>)
    ensures |s| == 2
  {
    [v / 0x100, v % 0x100]
  }

  function FromBe16(hi: byte, lo: byte): u16 {
    0x100 * hi + lo
  }

  /** Two's complement bit pattern of a signed word. */
  function Bits16(v: i16): u16 {
    if v < 0 then v + 0x1_0000 else v
  }

  function FromBits16(b: u16): i16 {
    if b < 0x8000 then b else b - 0x1_0000
  }

  function Bits32(v: i32): u32 {
    if v < 0 then v + 0x1_0000_0000 else v
  }

  function FromBits32(b: u32): i32 {
    if b < 0x8000_0000 then b else b - 0x1_0000_0000
  }

  // ---- a byte stream laid over part of a buffer ----

  /**
   * `base` with the stream `s` written over the slice `base[lo..hi]`, as far as the slice
   * reaches. Everything outside the slice, and the tail of the slice that the stream does not
   * reach, is as in `base`.
   */
  function Overlay(base: seq<byte>, lo: nat, hi: nat, s: seq<byte>): (r: seq<byte>)
    requires lo <= hi <= |base|
    ensures |r| == |base|
    ensures forall i :: 0 <= i < |base| ==>
      r[i] == if lo <= i < hi && i - lo < |s| then s[i - lo] else base[i]
  {
    var m := Min(|s|, hi - lo);
    base[..lo] + s[..m] + base[lo + m..]
  }

  /** An overlay whose stream fits shows the whole stream. */
  lemma OverlayFits(base: seq<byte>, lo: nat, hi: nat, s: seq<byte>)
    requires lo <= hi <= |base|
    requires |s| <= hi - lo
    ensures Overlay(base, lo, hi, s)[lo..lo + |s|] == s
    ensures Overlay(base, lo, hi, s)[..lo] == base[..lo]
    ensures Overlay(base, lo, hi, s)[lo + |s|..] == base[lo + |s|..]
  {
  }

  /** The slice shows the stream as far as it reaches. */
  lemma OverlayShows(base: seq<byte>, lo: nat, hi: nat, s: seq<byte>)
    requires lo <= hi <= |base|
    ensures Overlay(base, lo, hi, s)[lo..lo + Min(|s|, hi - lo)] == s[..Min(|s|, hi - lo)]
  {
  }

  /** What the stream does not reach is as before. */
  lemma OverlayKeeps(base: seq<byte>, lo: nat, hi: nat, s: seq<byte>)
    requires lo <= hi <= |base|
    ensures Overlay(base, lo, hi, s)[lo + Min(|s|, hi - lo)..] == base[lo + Min(|s|, hi - lo)..]
  {
  }
}
