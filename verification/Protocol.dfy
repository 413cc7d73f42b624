/** XRCE-DDS wire constants and identifiers, as eProsima's agent speaks them. */
module Protocol {
  import opened Bytes

  const SUBMSG_CREATE_CLIENT: byte := 0
  const SUBMSG_CREATE: byte := 1
  const SUBMSG_STATUS_AGENT: byte := 4
  const SUBMSG_STATUS: byte := 5
  const SUBMSG_WRITE_DATA: byte := 7
  const SUBMSG_READ_DATA: byte := 8
  const SUBMSG_DATA: byte := 9

  const FLAG_LE: byte := 0x01
  const FLAGS_CREATE: byte := 0x07 // endianness, reuse and replace
  const FORMAT_DATA: byte := 0x00

  const SESSION_ID_WITHOUT_CLIENT_KEY: byte := 0x80
  const STREAM_NONE: byte := 0x00
  const STREAM_BEST_EFFORT: byte := 0x01

  const ENTITY_PARTICIPANT: byte := 0x01
  const ENTITY_TOPIC: byte := 0x02
  const ENTITY_PUBLISHER: byte := 0x03
  const ENTITY_SUBSCRIBER: byte := 0x04
  const ENTITY_DATAWRITER: byte := 0x05
  const ENTITY_DATAREADER: byte := 0x06

  const REPR_AS_XML: byte := 0x02

  const STATUS_OK: byte := 0x00
  const STATUS_OK_MATCHED: byte := 0x01

  const XRCE_COOKIE: seq<byte> := [0x58, 0x52, 0x43, 0x45]
  const XRCE_VERSION: seq<byte> := [0x01, 0x00]
  const VENDOR_ID_EPROSIMA: seq<byte> := [0x01, 0x0F]

  /** A client key is four bytes. */
  type Key = k: seq<byte> | |k| == 4 witness [0, 0, 0, 0]

  // ---- object ids ----

  /** `(idx << 4) | (kind & 0x0F)` in 16 bits: the top four bits of the index are lost. */
  function ObjectId(idx: u16, kind: byte): u16 {
    (idx % 0x1000) * 0x10 + kind % 0x10
  }

  /** Bitwise operations on words, bit by bit. */
  function And(a: nat, b: nat): nat {
    if a == 0 || b == 0 then 0
    else 2 * And(a / 2, b / 2) + if a % 2 == 1 && b % 2 == 1 then 1 else 0
  }

  function Or(a: nat, b: nat): nat
    decreases a + b
  {
    if a == 0 && b == 0 then 0
    else 2 * Or(a / 2, b / 2) + if a % 2 == 1 || b % 2 == 1 then 1 else 0
  }

  /** `x << 4` in 16 bits. */
  function ShiftLeft4(x: u16): u16 {
    x * 0x10 % 0x1_0000
  }

  lemma {:induction false} OrNothing(a: nat)
    ensures Or(a, 0) == a
  {
    if a > 0 {
      OrNothing(a / 2);
    }
  }

  /** Below a number whose low `n` bits are clear there is room for `n` bits. */
  lemma {:induction false} OrDisjoint(a: nat, b: nat, n: nat)
    requires a % Pow2(n) == 0 && b < Pow2(n)
    ensures Or(a, b) == a + b
    decreases n
  {
    if n == 0 {
      OrNothing(a);
    } else if a > 0 || b > 0 {
      HalfOfMultiple(a, Pow2(n - 1));
      OrDisjoint(a / 2, b / 2, n - 1);
    }
  }

  function Pow2(n: nat): (p: nat)
    ensures p > 0
  {
    if n == 0 then 1 else 2 * Pow2(n - 1)
  }

  lemma HalfOfMultiple(a: nat, m: nat)
    requires m > 0 && a % (2 * m) == 0
    ensures a % 2 == 0 && (a / 2) % m == 0
  {
    var q := a / (2 * m);
    assert a == 2 * (m * q);
    assert a / 2 == m * q;
    ModOfMultiple(m, q);
  }

  lemma LowNibble(k: nat)
    ensures And(k, 0x0F) == k % 0x10
  {
    assert And(k, 0x0F) == (if k == 0 then 0 else 2 * And(k / 2, 7) + k % 2);
    assert And(k / 2, 7) == (if k / 2 == 0 then 0 else 2 * And(k / 2 / 2, 3) + k / 2 % 2);
    assert And(k / 2 / 2, 3) == (if k / 2 / 2 == 0 then 0 else 2 * And(k / 2 / 2 / 2, 1) + k / 2 / 2 % 2);
    assert And(k / 2 / 2 / 2, 1) == k / 2 / 2 / 2 % 2;
  }

  /** The code's shift, mask and or give the id in its arithmetic form. */
  lemma ObjectIdIsShiftAndMask(idx: u16, kind: byte)
    ensures Or(ShiftLeft4(idx), And(kind, 0x0F)) == ObjectId(idx, kind)
  {
    hide Or, And;
    LowNibble(kind);
    assert Pow2(1) == 2 && Pow2(2) == 4 && Pow2(3) == 8 && Pow2(4) == 0x10;
    assert ShiftLeft4(idx) == (idx % 0x1000) * 0x10;
    OrDisjoint(ShiftLeft4(idx), kind % 0x10, 4);
  }

  /** Two ids agree exactly when the kinds do and the indices agree modulo 4096. */
  lemma ObjectIdCollision(i: u16, j: u16, k: byte, l: byte)
    requires k < 0x10 && l < 0x10
    ensures ObjectId(i, k) == ObjectId(j, l) <==> k == l && i % 0x1000 == j % 0x1000
  {
    assert ObjectId(i, k) % 0x10 == k && ObjectId(j, l) % 0x10 == l;
    assert ObjectId(i, k) / 0x10 == i % 0x1000 && ObjectId(j, l) / 0x10 == j % 0x1000;
  }

  function KindOf(oid: u16): byte {
    oid % 0x10
  }

  lemma ObjectIdParts(idx: u16, kind: byte)
    requires 1 <= kind < 0x10
    ensures KindOf(ObjectId(idx, kind)) == kind && ObjectId(idx, kind) != 0
    ensures idx < 0x1000 ==> ObjectId(idx, kind) == idx * 0x10 + kind
  {
    assert kind % 0x10 == kind;
  }

  // ---- counters ----

  /** The `k`-th request id drawn from a new session. */
  function ReqAt(k: nat): (r: u16)
    ensures r != 0
  {
    1 + k % 0xFFFF
  }

  /** `wrapping_add(1).max(1)`. */
  function NextReq(r: u16): u16 {
    var n := (r + 1) % 0x1_0000;
    if n < 1 then 1 else n
  }

  /** Stepping the counter walks the ids 1, 2, ..., 65535, 1, ... and never yields 0. */
  lemma NextReqIsReqAt(k: nat)
    ensures NextReq(ReqAt(k)) == ReqAt(k + 1)
  {
    var m := k % 0xFFFF;
    if m + 1 < 0xFFFF {
      assert (k + 1) % 0xFFFF == m + 1;
    } else {
      assert (k + 1) % 0xFFFF == 0;
    }
  }

  /** Ids repeat with period 65535 and no sooner. */
  lemma RequestIdsAgree(j: nat, k: nat)
    requires j <= k
    ensures ReqAt(j) == ReqAt(k) <==> (k - j) % 0xFFFF == 0
  {
    if (k - j) % 0xFFFF == 0 {
      var d := (k - j) / 0xFFFF;
      assert k == j + 0xFFFF * d;
    }
  }
}
