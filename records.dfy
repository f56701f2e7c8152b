/** A resource record (RFC 1035 section 4.1.3) as src/resourserecord.rs builds and
    encodes it: the only rdata it knows is an IPv4 address. */
module Records {
  import opened Common
  import opened Labels

  datatype Ipv4Addr = Ipv4Addr(a: u8, b: u8, c: u8, d: u8)

  /** `Ipv4Addr::octets`. */
  function Octets(ip: Ipv4Addr): seq<u8> {
    [ip.a, ip.b, ip.c, ip.d]
  }

  datatype ResourceData = A(ip: Ipv4Addr)

  datatype ResourceRecord = ResourceRecord(
    name: LabelSeq,
    recordType: u16,
    classCode: u16,
    ttl: u32,
    length: u16,
    data: ResourceData)

  /** `ResourceRecord::new`: the name split on '.', an A record of class IN,
      ttl 111, rdlength 4, address 1.1.1.1. */
  function NewRecord(rawName: seq<u8>): (r: ResourceRecord)
    ensures |r.name| >= 1 && Join(r.name) == rawName && NoDots(r.name)
    ensures r.recordType == TYPE_A && r.classCode == CLASS_IN
    ensures r.ttl == 111 && r.length == 4
    ensures r.data == A(Ipv4Addr(1, 1, 1, 1))
    ensures r.length == |DataBytes(r.data)|
  {
    JoinSplit(rawName);
    SplitNoDots(rawName);
    ResourceRecord(Split(rawName), TYPE_A, CLASS_IN, 111, 4, A(Ipv4Addr(1, 1, 1, 1)))
  }

  /** The rdata bytes: the four octets of the address in order. */
  function DataBytes(d: ResourceData): seq<u8> {
    match d
    case A(ip) => Octets(ip)
  }

  /** The fixed part `to_vec` appends after the labels: the name's 0
      terminator, type, class, ttl and rdlength. */
  function FixedBytes(r: ResourceRecord): seq<u8> {
    [0] + U16Bytes(r.recordType) + U16Bytes(r.classCode) + U32Bytes(r.ttl) + U16Bytes(r.length)
  }

  /** The bytes `ResourceRecord::to_vec` produces. */
  function RecordBytes(r: ResourceRecord): seq<u8> {
    LabelsBytes(r.name) + FixedBytes(r) + DataBytes(r.data)
  }

  /** `ResourceRecord::to_vec`. */
  method EncodeRecord(r: ResourceRecord) returns (res: seq<u8>)
    ensures res == RecordBytes(r)
  {
    res := EncodeLabels(r.name);
    var rest := [0,
      Truncate8(r.recordType / 0x100), Truncate8(r.recordType),
      Truncate8(r.classCode / 0x100), Truncate8(r.classCode),
      Truncate8(r.ttl / 0x100_0000), Truncate8(r.ttl / 0x1_0000),
      Truncate8(r.ttl / 0x100), Truncate8(r.ttl),
      Truncate8(r.length / 0x100), Truncate8(r.length)];
    res := res + rest;
    match r.data {
      case A(ip) =>
        var octets := Octets(ip);
        res := res + octets;
    }
  }

  /** The encoding is the name exactly as a question writes it, then ten bytes
      of type, class, ttl and rdlength, then the address; its length is the
      labels' size plus fifteen. */
  lemma RecordLayout(r: ResourceRecord)
    ensures |RecordBytes(r)| == LabelsSize(r.name) + 15
    ensures RecordBytes(r)[..|NameBytes(r.name)|] == NameBytes(r.name)
    ensures var b, n := RecordBytes(r), |NameBytes(r.name)|;
      BE16(b[n], b[n + 1]) == r.recordType && BE16(b[n + 2], b[n + 3]) == r.classCode
      && BE32(b[n + 4..n + 8]) == r.ttl && BE16(b[n + 8], b[n + 9]) == r.length
      && b[n + 10..] == DataBytes(r.data)
  {
    LabelsBytesLength(r.name);
    var b, n := RecordBytes(r), |NameBytes(r.name)|;
    var ttl := U32Bytes(r.ttl);
    assert b == NameBytes(r.name) + U16Bytes(r.recordType) + U16Bytes(r.classCode) + ttl
                + U16Bytes(r.length) + DataBytes(r.data);
    assert b[n + 4..n + 8] == ttl;
  }

  /** Decodes a record and returns it with the number of bytes consumed (a
      reference reader, not part of the source). */
  function ReadRecord(b: seq<u8>): (r: Option<(ResourceRecord, nat)>)
    ensures r.Some? ==> 0 < r.value.1 <= |b|
  {
    match ReadName(b)
    case None => None
    case Some((ls, n)) =>
      match ReadRecordFields(ls, b[n..])
      case None => None
      case Some((r, k)) => Some((r, n + k))
  }

  /** Decodes type, class, ttl, rdlength and rdata of a record named ls from
      the start of t; since the only rdata is an IPv4 address, an rdlength other
      than 4 is rejected. */
  function ReadRecordFields(ls: LabelSeq, t: seq<u8>): (r: Option<(ResourceRecord, nat)>)
    ensures r.Some? ==> r.value.1 <= |t|
  {
    if |t| < 10 then None
    else
      var len := BE16(t[8], t[9]);
      if len != 4 || |t| < 10 + len then None
      else
        var ip := Ipv4Addr(t[10], t[11], t[12], t[13]);
        Some((ResourceRecord(ls, BE16(t[0], t[1]), BE16(t[2], t[3]), BE32(t[4..8]), len, A(ip)), 14))
  }

  /** Labels a reader accepts, and an rdlength that matches the rdata written. */
  predicate WellFormed(r: ResourceRecord) {
    WireLabels(r.name) && r.length == |DataBytes(r.data)|
  }

  /** The fields after the name, without the terminator. */
  function FieldBytes(r: ResourceRecord): seq<u8> {
    U16Bytes(r.recordType) + U16Bytes(r.classCode) + U32Bytes(r.ttl) + U16Bytes(r.length) + DataBytes(r.data)
  }

  lemma ReadRecordFieldsBytes(r: ResourceRecord, rest: seq<u8>)
    requires r.length == |DataBytes(r.data)|
    ensures ReadRecordFields(r.name, FieldBytes(r) + rest) == Some((r, 14))
  {
    var ty, cl, ttl, len := U16Bytes(r.recordType), U16Bytes(r.classCode), U32Bytes(r.ttl), U16Bytes(r.length);
    var data := DataBytes(r.data);
    var t := FieldBytes(r) + rest;
    assert t == ty + cl + ttl + len + data + rest;
    assert t[0] == ty[0] && t[1] == ty[1] && t[2] == cl[0] && t[3] == cl[1];
    assert t[4..8] == ttl;
    assert t[8] == len[0] && t[9] == len[1];
    assert t[10..14] == data;
  }

  /** The encoding is the name followed by the 14 bytes after it. */
  lemma RecordBytesSplit(r: ResourceRecord)
    ensures RecordBytes(r) == NameBytes(r.name) + FieldBytes(r)
    ensures |FieldBytes(r)| == 14
  {
  }

  /** ReadRecord succeeds once the name and the fields after it read. */
  lemma ReadRecordParts(b: seq<u8>, ls: LabelSeq, n: nat, r: ResourceRecord, k: nat)
    requires ReadName(b) == Some((ls, n)) && ReadRecordFields(ls, b[n..]) == Some((r, k))
    ensures ReadRecord(b) == Some((r, n + k))
  {
  }

  /** Reading the encoding of a well-formed record, whatever follows it, gives
      back the record and consumes exactly its bytes. */
  lemma ReadRecordBytes(r: ResourceRecord, rest: seq<u8>)
    requires WellFormed(r)
    ensures ReadRecord(RecordBytes(r) + rest) == Some((r, |RecordBytes(r)|))
  {
    var name := NameBytes(r.name);
    var tail := FieldBytes(r) + rest;
    var b := RecordBytes(r) + rest;
    RecordBytesSplit(r);
    AppendAssoc(name, FieldBytes(r), rest);
    ReadNameBytes(r.name, tail);
    DropPrefix(name, tail);
    ReadRecordFieldsBytes(r, rest);
    ReadRecordParts(b, r.name, |name|, r, 14);
  }

  /** Every record `ResourceRecord::new` builds from a name with non-empty
      labels of at most 63 bytes reads back from its own encoding. */
  lemma NewRecordRoundTrip(rawName: seq<u8>, rest: seq<u8>)
    requires WireLabels(Split(rawName))
    ensures ReadRecord(RecordBytes(NewRecord(rawName)) + rest)
            == Some((NewRecord(rawName), |RecordBytes(NewRecord(rawName))|))
  {
    ReadRecordBytes(NewRecord(rawName), rest);
  }
}
