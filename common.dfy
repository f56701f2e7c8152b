/** Fixed-width integers, the wire constants of the codec, and the big-endian
    byte helpers every encoder in the model is built from. */
module Common {

  datatype Option<T> = None | Some(value: T)

  type u8 = x: int | 0 <= x < 0x100
  type u16 = x: int | 0 <= x < 0x1_0000
  type u32 = x: int | 0 <= x < 0x1_0000_0000

  /** Record type A and class IN (`RecordType::A` and `ClassCode::IN` of
      src/common.rs); src/resourserecord.rs takes them from `FlagRecordType::A`
      and `FlagClassCode::IN`, which are taken to have the same values. */
  const TYPE_A: u16 := 1
  const CLASS_IN: u16 := 1

  /** Rust's `x as u8`: keeps the low eight bits. */
  function Truncate8(x: nat): u8 {
    x % 0x100
  }

  /** The value of a big-endian byte pair. */
  function BE16(hi: u8, lo: u8): u16 {
    hi as int * 0x100 + lo
  }

  /** The value of four big-endian bytes. */
  function BE32(b: seq<u8>): u32
    requires |b| == 4
  {
    b[0] as int * 0x100_0000 + b[1] as int * 0x1_0000 + b[2] as int * 0x100 + b[3]
  }

  /** `(x >> 8) as u8, x as u8`: high byte, then low byte. */
  function U16Bytes(x: u16): (r: seq<u8>)
    ensures |r| == 2 && BE16(r[0], r[1]) == x
  {
    [Truncate8(x / 0x100), Truncate8(x)]
  }

  /** `(x >> 24) as u8, (x >> 16) as u8, (x >> 8) as u8, x as u8`. */
  function U32Bytes(x: u32): (r: seq<u8>)
    ensures |r| == 4 && BE32(r) == x
  {
    var r := [Truncate8(x / 0x100_0000), Truncate8(x / 0x1_0000), Truncate8(x / 0x100), Truncate8(x)];
    U32Split(x);
    r
  }

  /** Splitting a 32-bit value into its four bytes and putting them back is the identity. */
  lemma U32Split(x: u32)
    ensures (x / 0x100_0000) % 0x100 * 0x100_0000 + (x / 0x1_0000) % 0x100 * 0x1_0000
            + (x / 0x100) % 0x100 * 0x100 + x % 0x100 == x
  {
    var q1 := x / 0x100;
    var q2 := q1 / 0x100;
    var q3 := q2 / 0x100;
    assert x == q1 * 0x100 + x % 0x100;
    assert q1 == q2 * 0x100 + q1 % 0x100;
    assert q2 == q3 * 0x100 + q2 % 0x100;
    assert q3 < 0x100;
    assert x / 0x1_0000 == q2;
    assert x / 0x100_0000 == q3;
  }

  /** Two big-endian byte pairs with the same value are the same bytes. */
  lemma BE16Injective(a: u8, b: u8, c: u8, d: u8)
    requires BE16(a, b) == BE16(c, d)
    ensures a == c && b == d
  {
  }

  /** Concatenation is associative. */
  lemma AppendAssoc(a: seq<u8>, b: seq<u8>, c: seq<u8>)
    ensures (a + b) + c == a + (b + c)
  {
  }

  /** Dropping a prefix of a concatenation leaves the rest. */
  lemma DropPrefix(a: seq<u8>, c: seq<u8>)
    ensures (a + c)[|a|..] == c
  {
  }
}
