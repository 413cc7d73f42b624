/**
 * Byte layouts in plain numbers: words given by division, padding by remainders, constants by
 * value. Nothing here goes through the encoding functions, so a lemma that one of them has such
 * a layout says what is on the wire.
 */
module Layout {
  import opened Bytes

  // ---- words in a byte stream ----

  /** The 16-bit word at `at`, low byte first. */
  predicate U16At(s: seq<byte>, at: nat, v: nat) {
    at + 2 <= |s| && s[at] == v % 0x100 && s[at + 1] == v / 0x100
  }

  /** The 16-bit word at `at`, high byte first. */
  predicate U16BeAt(s: seq<byte>, at: nat, v: nat) {
    at + 2 <= |s| && s[at] == v / 0x100 && s[at + 1] == v % 0x100
  }

  /** A word of two bytes, low one first. */
  function LowFirst(lo: int, hi: int): int {
    lo + 0x100 * hi
  }

  function HighFirst(hi: int, lo: int): int {
    0x100 * hi + lo
  }

  predicate U32At(s: seq<byte>, at: nat, v: nat) {
    && at + 4 <= |s|
    && s[at] == v % 0x100 && s[at + 1] == v / 0x100 % 0x100
    && s[at + 2] == v / 0x1_0000 % 0x100 && s[at + 3] == v / 0x100_0000
  }

  predicate U64At(s: seq<byte>, at: nat, v: nat) {
    && at + 8 <= |s|
    && s[at] == v % 0x100 && s[at + 1] == v / 0x100 % 0x100
    && s[at + 2] == v / 0x1_0000 % 0x100 && s[at + 3] == v / 0x100_0000 % 0x100
    && s[at + 4] == v / 0x1_0000_0000 % 0x100 && s[at + 5] == v / 0x100_0000_0000 % 0x100
    && s[at + 6] == v / 0x1_0000_0000_0000 % 0x100 && s[at + 7] == v / 0x100_0000_0000_0000
  }

  predicate ZeroAt(s: seq<byte>, from: nat, to: nat) {
    from <= to <= |s| && forall i :: from <= i < to ==> s[i] == 0
  }

  predicate BytesAt(s: seq<byte>, at: nat, b: seq<byte>) {
    at + |b| <= |s| && s[at..at + |b|] == b
  }

  /** The next multiple of `n` from `pos` on. */
  function Next(pos: nat, n: nat): (p: nat)
    requires n > 0
    ensures pos <= p
  {
    if pos % n == 0 then pos else pos + n - pos % n
  }

  lemma NextIsAlignUp(pos: nat, n: nat)
    requires n > 0
    ensures Next(pos, n) == AlignUp(pos, n)
  {
  }

  /** A pattern of a signed 32-bit word. */
  function Pattern32(v: i32): nat {
    if v >= 0 then v else 0x1_0000_0000 + v
  }

  function Pattern16(v: i16): nat {
    if v >= 0 then v else 0x1_0000 + v
  }

  // ---- words as the codecs form them ----

  lemma DivTwice(v: nat, d: nat)
    requires d > 0
    ensures v / 0x100 / d == v / (0x100 * d)
  {
    var q, r := v / 0x100, v % 0x100;
    var a, b := q / d, q % d;
    assert q == d * a + b;
    assert v == 0x100 * q + r == (0x100 * d) * a + (0x100 * b + r);
    assert 0x100 * b + r < 0x100 * d;
    Quotient(v, 0x100 * d, a, 0x100 * b + r);
  }

  lemma Quotient(v: nat, d: nat, a: nat, r: nat)
    requires v == d * a + r && r < d
    ensures v / d == a
  {
    var q, s := v / d, v % d;
    assert v == d * q + s;
    assert d * (q + 1) == d * q + d && d * (a + 1) == d * a + d;
    if q < a {
      MulMonotone(d, q + 1, a);
    } else if a < q {
      MulMonotone(d, a + 1, q);
    }
  }

  /** Byte `i` of a word is its digit to the base 256. */
  lemma {:induction false} LeAt(v: nat, n: nat, i: nat)
    requires i < n
    ensures Le(v, n)[i] == v / Pow256(i) % 0x100
    decreases n
  {
    if i > 0 {
      LeAt(v / 0x100, n - 1, i - 1);
      DivTwice(v, Pow256(i - 1));
    } else {
      assert Pow256(0) == 1;
    }
  }

  /** And byte `i` of what is read is the digit of the value. */
  lemma {:induction false} FromLeAt(s: seq<byte>, i: nat)
    requires i < |s|
    ensures FromLe(s) / Pow256(i) % 0x100 == s[i]
    decreases |s|
  {
    hide FromLe;
    LowDigit(s);
    if i > 0 {
      FromLeAt(s[1..], i - 1);
      DivTwice(FromLe(s), Pow256(i - 1));
    } else {
      assert Pow256(0) == 1;
    }
  }

  lemma LowDigit(s: seq<byte>)
    requires s != []
    ensures FromLe(s) / 0x100 == FromLe(s[1..]) && FromLe(s) % 0x100 == s[0]
  {
    hide Pow256;
  }

  lemma Digits()
    ensures Pow256(0) == 1 && Pow256(1) == 0x100 && Pow256(2) == 0x1_0000 && Pow256(3) == 0x100_0000
    ensures Pow256(4) == 0x1_0000_0000 && Pow256(5) == 0x100_0000_0000 && Pow256(6) == 0x1_0000_0000_0000
    ensures Pow256(7) == 0x100_0000_0000_0000
  {
    assert Pow256(1) == 0x100 * Pow256(0);
    assert Pow256(2) == 0x100 * Pow256(1);
    assert Pow256(3) == 0x100 * Pow256(2);
    assert Pow256(4) == 0x100 * Pow256(3);
    assert Pow256(5) == 0x100 * Pow256(4);
    assert Pow256(6) == 0x100 * Pow256(5);
    assert Pow256(7) == 0x100 * Pow256(6);
  }

  lemma Le4InBytes(v: u32)
    ensures U32At(Le(v, 4), 0, v)
  {
    hide Le, Pow256;
    Digits();
    LeAt(v, 4, 0);
    LeAt(v, 4, 1);
    LeAt(v, 4, 2);
    LeAt(v, 4, 3);
  }

  lemma Le8InBytes(v: u64)
    ensures U64At(Le(v, 8), 0, v)
  {
    hide Le, Pow256;
    Digits();
    LeAt(v, 8, 0);
    LeAt(v, 8, 1);
    LeAt(v, 8, 2);
    LeAt(v, 8, 3);
    LeAt(v, 8, 4);
    LeAt(v, 8, 5);
    LeAt(v, 8, 6);
    LeAt(v, 8, 7);
  }

  lemma FromLe4InBytes(s: seq<byte>)
    requires |s| == 4
    ensures FromLe(s) < 0x1_0000_0000 && U32At(s, 0, FromLe(s))
  {
    hide FromLe, Pow256;
    Digits();
    FromLeAt(s, 0);
    FromLeAt(s, 1);
    FromLeAt(s, 2);
    FromLeAt(s, 3);
  }

  lemma FromLe8InBytes(s: seq<byte>)
    requires |s| == 8
    ensures FromLe(s) < 0x1_0000_0000_0000_0000 && U64At(s, 0, FromLe(s))
  {
    hide FromLe, Pow256;
    Digits();
    Widths();
    FromLeAt(s, 0);
    FromLeAt(s, 1);
    FromLeAt(s, 2);
    FromLeAt(s, 3);
    FromLeAt(s, 4);
    FromLeAt(s, 5);
    FromLeAt(s, 6);
    FromLeAt(s, 7);
  }

  lemma Word16InBytes(v: u16)
    ensures U16At(Le16(v), 0, v) && U16BeAt(Be16(v), 0, v)
  {
  }

  lemma PatternsAreBits(v: i32, w: i16)
    ensures Bits32(v) == Pattern32(v) && Bits16(w) == Pattern16(w)
    ensures FromBits32(Bits32(v)) == v && FromBits16(Bits16(w)) == w
  {
  }
}
