/** The 12-byte message header (RFC 1035 section 4.1.1) and the bit layout of
    its flags word (src/header.rs). */
module Headers {
  import opened Common

  datatype Header = Header(id: u16, flags: u16, nQuestion: u16, nAnswer: u16, nAuthRes: u16, nAddiRrs: u16)

  // ---------------------------------------------------------------------------
  // The flag constants of `Flags`

  const QR_Q: u16 := 0x0000
  const QR_R: u16 := 0x8000

  const OPCODE_QUERY: u16 := 0x0000
  const OPCODE_IQUERY: u16 := 0x0800
  const OPCODE_STATUS: u16 := 0x1000

  const AA_FALSE: u16 := 0x0000
  const AA_TRUE: u16 := 0x0400

  const TC_FALSE: u16 := 0x0000
  const TC_TRUE: u16 := 0x0200

  const RD_FALSE: u16 := 0x0000
  const RD_TRUE: u16 := 0x0100

  const RA_FALSE: u16 := 0x0000
  const RA_TRUE: u16 := 0x0080

  const RCODE_NOERROR: u16 := 0x0000
  const RCODE_FORMERR: u16 := 0x0001
  const RCODE_SERVFAIL: u16 := 0x0002
  const RCODE_NXDOMAIN: u16 := 0x0003

  /** The sub-fields of the flags word. */
  datatype FlagField = QR | Opcode | AA | TC | RD | RA | RCode

  /** The lowest bit of each field. */
  function Shift(f: FlagField): nat {
    match f
    case QR => 15
    case Opcode => 11
    case AA => 10
    case TC => 9
    case RD => 8
    case RA => 7
    case RCode => 0
  }

  /** The number of bits of each field. */
  function Width(f: FlagField): nat {
    match f
    case Opcode => 4
    case RCode => 4
    case _ => 1
  }

  /** 2 to the power n. */
  function Pow2(n: nat): nat {
    if n == 0 then 1 else 2 * Pow2(n - 1)
  }

  /** The value of the lowest bit of each field; FieldRangesDisjoint proves it is
      2 to the power Shift(f). */
  function Unit(f: FlagField): nat {
    match f
    case QR => 0x8000
    case Opcode => 0x0800
    case AA => 0x0400
    case TC => 0x0200
    case RD => 0x0100
    case RA => 0x0080
    case RCode => 0x0001
  }

  /** The number of values the field can hold; FieldRangesDisjoint proves it is
      2 to the power Width(f). */
  function Size(f: FlagField): nat {
    if Width(f) == 4 then 16 else 2
  }

  /** The value stored in field f of a flags word. */
  function FieldOf(flags: u16, f: FlagField): nat {
    (flags / Unit(f)) % Size(f)
  }

  /** The value constants of each field, listed so that the i-th has value i. */
  function Values(f: FlagField): seq<u16> {
    match f
    case QR => [QR_Q, QR_R]
    case Opcode => [OPCODE_QUERY, OPCODE_IQUERY, OPCODE_STATUS]
    case AA => [AA_FALSE, AA_TRUE]
    case TC => [TC_FALSE, TC_TRUE]
    case RD => [RD_FALSE, RD_TRUE]
    case RA => [RA_FALSE, RA_TRUE]
    case RCode => [RCODE_NOERROR, RCODE_FORMERR, RCODE_SERVFAIL, RCODE_NXDOMAIN]
  }

  /** The fields occupy pairwise-disjoint bit ranges inside the 16-bit word:
      field f is bits Shift(f) to Shift(f) + Width(f) - 1, that is the values
      from Unit(f) up to, but not including, Unit(f) * Size(f). */
  lemma FieldRangesDisjoint()
    ensures forall f :: Unit(f) == Pow2(Shift(f)) && Size(f) == Pow2(Width(f))
    ensures forall f :: Shift(f) + Width(f) <= 16 && Unit(f) * Size(f) <= 0x1_0000
    ensures forall f, g :: f != g ==> Shift(f) + Width(f) <= Shift(g) || Shift(g) + Width(g) <= Shift(f)
    ensures forall f, g :: f != g ==> Unit(f) * Size(f) <= Unit(g) || Unit(g) * Size(g) <= Unit(f)
  {
    forall f ensures Unit(f) == Pow2(Shift(f)) && Size(f) == Pow2(Width(f)) {
      match f
      case QR => assert Pow2(15) == 0x8000;
      case Opcode => assert Pow2(11) == 0x0800 && Pow2(4) == 16;
      case AA => assert Pow2(10) == 0x0400;
      case TC => assert Pow2(9) == 0x0200;
      case RD => assert Pow2(8) == 0x0100;
      case RA => assert Pow2(7) == 0x0080;
      case RCode => assert Pow2(0) == 1 && Pow2(4) == 16;
    }
  }

  /** Every value constant has no bit outside its own field, and the i-th
      constant of a field stores the value i there. */
  lemma FlagConstantsInField()
    ensures forall f, i :: 0 <= i < |Values(f)| ==>
      Values(f)[i] % Unit(f) == 0 && Values(f)[i] < Unit(f) * Size(f) && FieldOf(Values(f)[i], f) == i
  {
  }

  /** Bitwise or of two 16-bit values, as `|` on `u16`. */
  function Or16(a: u16, b: u16): u16 {
    ((a as bv16) | (b as bv16)) as int
  }

  // ---------------------------------------------------------------------------
  // Header operations

  /** `Header::new_reply`: a constant reply header. */
  function NewReply(): (h: Header)
    ensures h.id == 1212
    ensures h.nQuestion == 0 && h.nAnswer == 0 && h.nAuthRes == 0 && h.nAddiRrs == 0
    ensures h.flags == 0x9000
    ensures FieldOf(h.flags, QR) == 1 && FieldOf(h.flags, Opcode) == 2 && FieldOf(h.flags, RCode) == 0
    ensures FieldOf(h.flags, AA) == 0 && FieldOf(h.flags, TC) == 0
    ensures FieldOf(h.flags, RD) == 0 && FieldOf(h.flags, RA) == 0
  {
    var flags := Or16(Or16(QR_R, OPCODE_STATUS), RCODE_NOERROR);
    Header(1212, flags, 0, 0, 0, 0)
  }

  /** The six fields in wire order. */
  function Fields(h: Header): seq<u16> {
    [h.id, h.flags, h.nQuestion, h.nAnswer, h.nAuthRes, h.nAddiRrs]
  }

  /** `Header::to_vec`: twelve bytes, the fields in order, each big-endian. */
  function HeaderBytes(h: Header): (r: seq<u8>)
    ensures |r| == 12
    ensures forall i :: 0 <= i < 6 ==> BE16(r[2 * i], r[2 * i + 1]) == Fields(h)[i]
  {
    U16Bytes(h.id) + U16Bytes(h.flags) + U16Bytes(h.nQuestion)
    + U16Bytes(h.nAnswer) + U16Bytes(h.nAuthRes) + U16Bytes(h.nAddiRrs)
  }

  /** Decodes a header from the first twelve bytes of a buffer (a reference
      reader, not part of the source). */
  function ReadHeader(b: seq<u8>): Option<Header> {
    if |b| < 12 then None
    else Some(Header(BE16(b[0], b[1]), BE16(b[2], b[3]), BE16(b[4], b[5]),
                     BE16(b[6], b[7]), BE16(b[8], b[9]), BE16(b[10], b[11])))
  }

  /** Reading the encoding of a header, whatever follows it, gives back the header. */
  lemma ReadHeaderBytes(h: Header, rest: seq<u8>)
    ensures ReadHeader(HeaderBytes(h) + rest) == Some(h)
  {
    var r := HeaderBytes(h);
    var b := r + rest;
    assert forall i :: 0 <= i < 12 ==> b[i] == r[i];
    assert BE16(r[2 * 0], r[2 * 0 + 1]) == Fields(h)[0];
    assert BE16(r[2 * 1], r[2 * 1 + 1]) == Fields(h)[1];
    assert BE16(r[2 * 2], r[2 * 2 + 1]) == Fields(h)[2];
    assert BE16(r[2 * 3], r[2 * 3 + 1]) == Fields(h)[3];
    assert BE16(r[2 * 4], r[2 * 4 + 1]) == Fields(h)[4];
    assert BE16(r[2 * 5], r[2 * 5 + 1]) == Fields(h)[5];
  }

  /** Distinct headers have distinct encodings. */
  lemma HeaderBytesInjective(h1: Header, h2: Header)
    requires HeaderBytes(h1) == HeaderBytes(h2)
    ensures h1 == h2
  {
    ReadHeaderBytes(h1, []);
    ReadHeaderBytes(h2, []);
    assert HeaderBytes(h1) + [] == HeaderBytes(h2) + [];
  }
}
