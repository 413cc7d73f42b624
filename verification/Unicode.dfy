/** Well-formed UTF-8 is what encoding Unicode scalar values one after the other gives. */
module Unicode {
  import opened Bytes
  import opened Cdr

  type Scalar = c: int | 0 <= c < 0xD800 || 0xE000 <= c < 0x11_0000

  /** The encoding of one scalar value: six bits in each byte but the first. */
  function Encoded8(c: Scalar): seq<byte> {
    if c < 0x80 then [c]
    else if c < 0x800 then [0xC0 + c / 0x40, 0x80 + c % 0x40]
    else if c < 0x1_0000 then [0xE0 + c / 0x1000, 0x80 + c / 0x40 % 0x40, 0x80 + c % 0x40]
    else [0xF0 + c / 0x4_0000, 0x80 + c / 0x1000 % 0x40, 0x80 + c / 0x40 % 0x40, 0x80 + c % 0x40]
  }

  function Text8(cs: seq<Scalar>): seq<byte> {
    if cs == [] then [] else Encoded8(cs[0]) + Text8(cs[1..])
  }

  /** A scalar value in front is recognised, whatever follows. */
  lemma EncodedIsScalar(c: Scalar, rest: seq<byte>)
    ensures ScalarLen(Encoded8(c) + rest) == |Encoded8(c)|
  {
    var s := Encoded8(c) + rest;
    assert s[0] == Encoded8(c)[0];
    if c >= 0x80 {
      assert s[1] == Encoded8(c)[1];
    }
    if c >= 0x800 {
      assert s[2] == Encoded8(c)[2];
    }
    if c >= 0x1_0000 {
      assert s[3] == Encoded8(c)[3];
    }
  }

  /** Six more bits behind those of `high`. */
  function More(high: int, low: int): int {
    high * 0x40 + low
  }

  lemma SixBits(high: nat, low: nat)
    requires low < 0x40
    ensures More(high, low) / 0x40 == high && More(high, low) % 0x40 == low
  {
  }

  lemma TwoBytes(a: byte, b: byte) returns (c: Scalar)
    requires 0xC2 <= a <= 0xDF && 0x80 <= b <= 0xBF
    ensures Encoded8(c) == [a, b]
  {
    c := More(a - 0xC0, b - 0x80);
    SixBits(a - 0xC0, b - 0x80);
  }

  lemma ThreeBytes(a: byte, b: byte, d: byte) returns (c: Scalar)
    requires 0xE0 <= a <= 0xEF && 0x80 <= b <= 0xBF && 0x80 <= d <= 0xBF
    requires (a == 0xE0 ==> b >= 0xA0) && (a == 0xED ==> b <= 0x9F)
    ensures Encoded8(c) == [a, b, d]
  {
    var high := More(a - 0xE0, b - 0x80);
    c := More(high, d - 0x80);
    SixBits(a - 0xE0, b - 0x80);
    SixBits(high, d - 0x80);
    assert c / 0x1000 == high / 0x40;
  }

  lemma FourBytes(a: byte, b: byte, d: byte, e: byte) returns (c: Scalar)
    requires 0xF0 <= a <= 0xF4 && 0x80 <= b <= 0xBF && 0x80 <= d <= 0xBF && 0x80 <= e <= 0xBF
    requires (a == 0xF0 ==> b >= 0x90) && (a == 0xF4 ==> b <= 0x8F)
    ensures Encoded8(c) == [a, b, d, e]
  {
    var high := More(a - 0xF0, b - 0x80);
    var mid := More(high, d - 0x80);
    c := More(mid, e - 0x80);
    SixBits(a - 0xF0, b - 0x80);
    SixBits(high, d - 0x80);
    SixBits(mid, e - 0x80);
    assert c / 0x1000 == mid / 0x40 && c / 0x4_0000 == high / 0x40;
  }

  /** And what is recognised is a scalar value. */
  lemma ScalarIsEncoded(s: seq<byte>) returns (c: Scalar)
    requires ScalarLen(s) > 0
    ensures s[..ScalarLen(s)] == Encoded8(c)
  {
    hide Encoded8;
    if ScalarLen(s) == 1 {
      c := s[0];
      OneByte(s[0]);
    } else if ScalarLen(s) == 2 {
      c := TwoBytes(s[0], s[1]);
    } else if ScalarLen(s) == 3 {
      c := ThreeBytes(s[0], s[1], s[2]);
    } else {
      c := FourBytes(s[0], s[1], s[2], s[3]);
    }
  }

  lemma OneByte(a: byte)
    requires a < 0x80
    ensures Encoded8(a) == [a]
  {
  }

  lemma {:induction false} TextIsUtf8(cs: seq<Scalar>)
    ensures Utf8(Text8(cs))
  {
    hide ScalarLen, Encoded8;
    if cs != [] {
      EncodedIsScalar(cs[0], Text8(cs[1..]));
      EncodedNotEmpty(cs[0]);
      TextIsUtf8(cs[1..]);
      assert Text8(cs)[|Encoded8(cs[0])|..] == Text8(cs[1..]);
    }
  }

  lemma EncodedNotEmpty(c: Scalar)
    ensures Encoded8(c) != []
  {
  }

  lemma {:induction false} Utf8IsText(s: seq<byte>) returns (cs: seq<Scalar>)
    requires Utf8(s)
    ensures Text8(cs) == s
    decreases |s|
  {
    hide ScalarLen, Encoded8;
    cs := [];
    if s != [] {
      var n := ScalarLen(s);
      var c := ScalarIsEncoded(s);
      var later := Utf8IsText(s[n..]);
      cs := [c] + later;
      assert cs[1..] == later && s == s[..n] + s[n..];
    }
  }

  /** A byte string is UTF-8 exactly when it is the encoding of some scalar values. */
  lemma Utf8Exactly(s: seq<byte>)
    ensures Utf8(s) <==> exists cs :: Text8(cs) == s
  {
    hide Text8, Utf8;
    if Utf8(s) {
      var cs := Utf8IsText(s);
      assert Text8(cs) == s;
    }
    forall cs | Text8(cs) == s
      ensures Utf8(s)
    {
      TextIsUtf8(cs);
    }
  }
}
