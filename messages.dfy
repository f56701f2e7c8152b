/** The message object of src/message.rs: a header, a question list and a
    list of resource records, with the header counts kept in step by the
    `add_*` methods, and its serialisation (RFC 1035 section 4.1). */
module Messages {
  import opened Common
  import opened Labels
  import opened Headers
  import opened Questions
  import opened Records

  /** The encodings of the entries, concatenated in order. */
  function Concat<T>(enc: T -> seq<u8>, xs: seq<T>): seq<u8> {
    if xs == [] then [] else enc(xs[0]) + Concat(enc, xs[1..])
  }

  /** The bytes `DNSMessage::to_vec` produces: the header, every question,
      every record. */
  function MessageBytes(h: Header, qs: seq<Question>, rs: seq<ResourceRecord>): seq<u8> {
    HeaderBytes(h) + Concat(QuestionBytes, qs) + Concat(RecordBytes, rs)
  }

  lemma {:induction false} ConcatSnoc<T>(enc: T -> seq<u8>, xs: seq<T>, x: T)
    ensures Concat(enc, xs + [x]) == Concat(enc, xs) + enc(x)
  {
    if xs == [] {
      assert xs + [x] == [x];
    } else {
      assert (xs + [x])[1..] == xs[1..] + [x];
      ConcatSnoc(enc, xs[1..], x);
    }
  }

  /** One more entry of the prefix adds its encoding at the end. */
  lemma ConcatPrefix<T>(enc: T -> seq<u8>, xs: seq<T>, i: nat)
    requires i < |xs|
    ensures Concat(enc, xs[..i + 1]) == Concat(enc, xs[..i]) + enc(xs[i])
  {
    assert xs[..i + 1] == xs[..i] + [xs[i]];
    ConcatSnoc(enc, xs[..i], xs[i]);
  }

  /** Appending the next entry's encoding to a buffer that ends with the
      encodings of the entries before it. */
  lemma AppendStep<T>(enc: T -> seq<u8>, xs: seq<T>, i: nat, pre: seq<u8>, res: seq<u8>, v: seq<u8>)
    requires i < |xs| && res == pre + Concat(enc, xs[..i]) && v == enc(xs[i])
    ensures res + v == pre + Concat(enc, xs[..i + 1])
  {
    ConcatPrefix(enc, xs, i);
  }

  /** The whole list is its longest prefix. */
  lemma ConcatAll<T>(enc: T -> seq<u8>, xs: seq<T>)
    ensures Concat(enc, xs[..|xs|]) == Concat(enc, xs)
  {
    assert xs[..|xs|] == xs;
  }

  // ---------------------------------------------------------------------------
  // Sizes

  /** The sum over the questions of their labels' size plus five. */
  function QuestionsSize(qs: seq<Question>): nat {
    if qs == [] then 0 else LabelsSize(qs[0].name) + 5 + QuestionsSize(qs[1..])
  }

  /** The sum over the records of their labels' size plus fifteen. */
  function RecordsSize(rs: seq<ResourceRecord>): nat {
    if rs == [] then 0 else LabelsSize(rs[0].name) + 15 + RecordsSize(rs[1..])
  }

  lemma {:induction false} QuestionsBytesLength(qs: seq<Question>)
    ensures |Concat(QuestionBytes, qs)| == QuestionsSize(qs)
  {
    if qs != [] {
      QuestionLayout(qs[0]);
      QuestionsBytesLength(qs[1..]);
    }
  }

  lemma {:induction false} RecordsBytesLength(rs: seq<ResourceRecord>)
    ensures |Concat(RecordBytes, rs)| == RecordsSize(rs)
  {
    if rs != [] {
      RecordLayout(rs[0]);
      RecordsBytesLength(rs[1..]);
    }
  }

  /** A message takes 12 header bytes plus its questions' and records' sizes. */
  lemma MessageBytesLength(h: Header, qs: seq<Question>, rs: seq<ResourceRecord>)
    ensures |MessageBytes(h, qs, rs)| == 12 + QuestionsSize(qs) + RecordsSize(rs)
  {
    QuestionsBytesLength(qs);
    RecordsBytesLength(rs);
  }

  // ---------------------------------------------------------------------------
  // Reading a message back (a reference reader, not part of the source)

  /** Reads n entries in a row with read and returns them with the number of
      bytes consumed. */
  function ReadSeq<T>(read: seq<u8> -> Option<(T, nat)>, b: seq<u8>, n: nat): (r: Option<(seq<T>, nat)>)
    ensures r.Some? ==> r.value.1 <= |b| && |r.value.0| == n
  {
    if n == 0 then Some(([], 0))
    else
      var first := read(b);
      if first.None? || first.value.1 > |b| then None
      else
        var rest := ReadSeq(read, b[first.value.1..], n - 1);
        if rest.None? then None
        else Some(([first.value.0] + rest.value.0, first.value.1 + rest.value.1))
  }

  /** Reads a header, as many questions as it announces and then as many
      records as its answer, authority and additional counts add up to; the
      buffer must hold nothing else. */
  function ReadMessage(b: seq<u8>): Option<(Header, seq<Question>, seq<ResourceRecord>)> {
    match ReadHeader(b)
    case None => None
    case Some(h) =>
      match ReadSeq(ReadQuestion, b[12..], h.nQuestion)
      case None => None
      case Some((qs, k)) =>
        match ReadSeq(ReadRecord, b[12 + k..], h.nAnswer + h.nAuthRes + h.nAddiRrs)
        case None => None
        case Some((rs, m)) => if 12 + k + m == |b| then Some((h, qs, rs)) else None
  }

  /** If read recovers every entry from its encoding, whatever follows it, then
      it recovers the whole list from the concatenated encodings. */
  lemma {:induction false} ReadSeqConcat<T>(read: seq<u8> -> Option<(T, nat)>, enc: T -> seq<u8>, xs: seq<T>, rest: seq<u8>)
    requires forall i, t :: 0 <= i < |xs| ==> read(enc(xs[i]) + t) == Some((xs[i], |enc(xs[i])|))
    ensures ReadSeq(read, Concat(enc, xs) + rest, |xs|) == Some((xs, |Concat(enc, xs)|))
  {
    if xs != [] {
      var tail := Concat(enc, xs[1..]) + rest;
      var b := Concat(enc, xs) + rest;
      var k := |enc(xs[0])|;
      assert b == enc(xs[0]) + tail;
      assert read(b) == Some((xs[0], k));
      assert b[k..] == tail;
      forall i, t | 0 <= i < |xs[1..]|
        ensures read(enc(xs[1..][i]) + t) == Some((xs[1..][i], |enc(xs[1..][i])|))
      {
        assert xs[1..][i] == xs[i + 1];
      }
      ReadSeqConcat(read, enc, xs[1..], rest);
      assert [xs[0]] + xs[1..] == xs;
    }
  }

  predicate QuestionsReadable(qs: seq<Question>) {
    forall i :: 0 <= i < |qs| ==> WireLabels(qs[i].name)
  }

  predicate RecordsReadable(rs: seq<ResourceRecord>) {
    forall i :: 0 <= i < |rs| ==> WellFormed(rs[i])
  }

  /** Each question a reader accepts reads back from its encoding. */
  lemma QuestionsRead(qs: seq<Question>)
    requires QuestionsReadable(qs)
    ensures var read, enc := ReadQuestion, QuestionBytes;
      forall i, t :: 0 <= i < |qs| ==> read(enc(qs[i]) + t) == Some((qs[i], |enc(qs[i])| as nat))
  {
    forall i, t | 0 <= i < |qs|
      ensures ReadQuestion(QuestionBytes(qs[i]) + t) == Some((qs[i], |QuestionBytes(qs[i])| as nat))
    {
      ReadQuestionBytes(qs[i], t);
    }
  }

  /** Each well-formed record reads back from its encoding. */
  lemma RecordsRead(rs: seq<ResourceRecord>)
    requires RecordsReadable(rs)
    ensures var read, enc := ReadRecord, RecordBytes;
      forall i, t :: 0 <= i < |rs| ==> read(enc(rs[i]) + t) == Some((rs[i], |enc(rs[i])| as nat))
  {
    forall i, t | 0 <= i < |rs|
      ensures ReadRecord(RecordBytes(rs[i]) + t) == Some((rs[i], |RecordBytes(rs[i])| as nat))
    {
      ReadRecordBytes(rs[i], t);
    }
  }

  /** The questions, encoded one after the other, read back. */
  lemma ReadQuestionsBytes(qs: seq<Question>, rest: seq<u8>)
    requires QuestionsReadable(qs)
    ensures ReadSeq(ReadQuestion, Concat(QuestionBytes, qs) + rest, |qs|) == Some((qs, |Concat(QuestionBytes, qs)|))
  {
    QuestionsRead(qs);
    ReadSeqConcat(ReadQuestion, QuestionBytes, qs, rest);
  }

  /** The records, encoded one after the other, read back. */
  lemma ReadRecordsBytes(rs: seq<ResourceRecord>, rest: seq<u8>)
    requires RecordsReadable(rs)
    ensures ReadSeq(ReadRecord, Concat(RecordBytes, rs) + rest, |rs|) == Some((rs, |Concat(RecordBytes, rs)|))
  {
    RecordsRead(rs);
    ReadSeqConcat(ReadRecord, RecordBytes, rs, rest);
  }

  /** ReadMessage succeeds once its three parts do and use up the buffer. */
  lemma ReadMessageParts(b: seq<u8>, h: Header, qs: seq<Question>, k: nat, rs: seq<ResourceRecord>, m: nat)
    requires ReadHeader(b) == Some(h)
    requires ReadSeq(ReadQuestion, b[12..], h.nQuestion) == Some((qs, k))
    requires 12 + k <= |b|
    requires ReadSeq(ReadRecord, b[12 + k..], h.nAnswer + h.nAuthRes + h.nAddiRrs) == Some((rs, m))
    requires 12 + k + m == |b|
    ensures ReadMessage(b) == Some((h, qs, rs))
  {
  }

  /** A message whose header counts match its lists and whose entries are
      readable reads back from its encoding. */
  lemma MessageRoundTrip(h: Header, qs: seq<Question>, rs: seq<ResourceRecord>)
    requires h.nQuestion == |qs| && h.nAnswer + h.nAuthRes + h.nAddiRrs == |rs|
    requires QuestionsReadable(qs) && RecordsReadable(rs)
    ensures ReadMessage(MessageBytes(h, qs, rs)) == Some((h, qs, rs))
  {
    var qb, rb := Concat(QuestionBytes, qs), Concat(RecordBytes, rs);
    var b := MessageBytes(h, qs, rs);
    AppendAssoc(HeaderBytes(h), qb, rb);
    ReadHeaderBytes(h, qb + rb);
    DropPrefix(HeaderBytes(h), qb + rb);
    ReadQuestionsBytes(qs, rb);
    DropPrefix(HeaderBytes(h) + qb, rb);
    assert rb + [] == rb;
    ReadRecordsBytes(rs, []);
    ReadMessageParts(b, h, qs, |qb|, rs, |rb|);
  }

  // ---------------------------------------------------------------------------
  // The message object

  class DNSMessage {
    var header: Header
    var questions: seq<Question>
    var resources: seq<ResourceRecord>

    /** Every header count is the number of entries written in its section:
        the questions, no answers, the records as the authority section, and no
        additional records. */
    ghost predicate Valid()
      reads this
    {
      header.nQuestion == |questions| && header.nAnswer == 0
      && header.nAuthRes == |resources| && header.nAddiRrs == 0
    }

    /** `DNSMessage::new`. header.rs does not define `Header::new`, which
        src/message.rs:16 calls: its id and
        flags are parameters here, and its counts are zero. */
    constructor New(id: u16, flags: u16)
      ensures Valid()
      ensures header == Header(id, flags, 0, 0, 0, 0)
      ensures questions == [] && resources == []
    {
      header := Header(id, flags, 0, 0, 0, 0);
      questions := [];
      resources := [];
    }

    /** `DNSMessage::reply_to`. header.rs does not define `Header::reply_to`,
        which src/message.rs:26 calls:
        it is the parameter replyHeader, which sets every count to zero. */
    constructor ReplyTo(request: DNSMessage, replyHeader: Header -> Header)
      requires var h := replyHeader(request.header);
        h.nQuestion == 0 && h.nAnswer == 0 && h.nAuthRes == 0 && h.nAddiRrs == 0
      ensures Valid()
      ensures header == replyHeader(request.header)
      ensures questions == [] && resources == []
    {
      header := replyHeader(request.header);
      questions := [];
      resources := [];
    }

    /** `add_question`: appends the question and counts it. The model requires
        the counter below its maximum, where `+= 1` on a `u16` would overflow. */
    method AddQuestion(question: Question)
      requires header.nQuestion < 0xFFFF
      modifies this
      ensures questions == old(questions) + [question]
      ensures header == old(header).(nQuestion := old(header.nQuestion) + 1)
      ensures resources == old(resources)
      ensures old(Valid()) ==> Valid()
    {
      questions := questions + [question];
      header := header.(nQuestion := header.nQuestion + 1);
    }

    /** `add_resource`: appends the record and counts it in the authority
        count, not the answer count. The model requires the counter below its
        maximum, where `+= 1` on a `u16` would overflow. */
    method AddResource(resource: ResourceRecord)
      requires header.nAuthRes < 0xFFFF
      modifies this
      ensures resources == old(resources) + [resource]
      ensures header == old(header).(nAuthRes := old(header.nAuthRes) + 1)
      ensures questions == old(questions)
      ensures old(Valid()) ==> Valid()
    {
      resources := resources + [resource];
      header := header.(nAuthRes := header.nAuthRes + 1);
    }

    /** `DNSMessage::to_vec`: the header bytes, then every question, then every
        record; ValidMessageRoundTrip reads a valid message back from these bytes. */
    method ToBytes() returns (res: seq<u8>)
      ensures res == MessageBytes(header, questions, resources)
      ensures |res| == 12 + QuestionsSize(questions) + RecordsSize(resources)
    {
      var h, qs, rs := header, questions, resources;
      res := HeaderBytes(h);
      ghost var hb := res;
      for i := 0 to |qs|
        invariant res == hb + Concat(QuestionBytes, qs[..i])
      {
        var v := EncodeQuestion(qs[i]);
        AppendStep(QuestionBytes, qs, i, hb, res, v);
        res := res + v;
      }
      ConcatAll(QuestionBytes, qs);
      ghost var qb := res;
      for i := 0 to |rs|
        invariant res == qb + Concat(RecordBytes, rs[..i])
      {
        var v := EncodeRecord(rs[i]);
        AppendStep(RecordBytes, rs, i, qb, res, v);
        res := res + v;
      }
      ConcatAll(RecordBytes, rs);
      MessageBytesLength(h, qs, rs);
    }
  }

  /** A message whose counts match its sections (Valid) and whose entries are
      readable reads back from its encoding as its own header, questions and
      records: the count invariant is what makes `to_vec`'s output decodable. */
  lemma ValidMessageRoundTrip(m: DNSMessage)
    requires m.Valid() && QuestionsReadable(m.questions) && RecordsReadable(m.resources)
    ensures ReadMessage(MessageBytes(m.header, m.questions, m.resources)) == Some((m.header, m.questions, m.resources))
  {
    MessageRoundTrip(m.header, m.questions, m.resources);
  }

  /** The reply `handle_request` sends reads back as its header and the one
      record `ResourceRecord::new` built, when the name's labels are non-empty
      and at most 63 bytes. */
  lemma ReplyRoundTrip(h: Header, rawName: seq<u8>)
    requires h.nQuestion == 0 && h.nAnswer == 0 && h.nAuthRes == 1 && h.nAddiRrs == 0
    requires WireLabels(Split(rawName))
    ensures ReadMessage(MessageBytes(h, [], [NewRecord(rawName)])) == Some((h, [], [NewRecord(rawName)]))
  {
    var r := NewRecord(rawName);
    assert WellFormed(r);
    assert RecordsReadable([r]);
    MessageRoundTrip(h, [], [r]);
  }

  /** The reply `handle_request` builds and sends: `reply_to`, one record
      from `ResourceRecord::new`, then `to_vec`; the header then counts one
      authority record, and ReplyRoundTrip reads the bytes back. */
  method BuildReply(request: DNSMessage, replyHeader: Header -> Header, rawName: seq<u8>)
    returns (reply: DNSMessage, bytes: seq<u8>)
    requires var h := replyHeader(request.header);
      h.nQuestion == 0 && h.nAnswer == 0 && h.nAuthRes == 0 && h.nAddiRrs == 0
    ensures fresh(reply) && reply.Valid()
    ensures reply.questions == [] && reply.resources == [NewRecord(rawName)]
    ensures reply.header == old(replyHeader(request.header)).(nAuthRes := 1)
    ensures bytes == MessageBytes(reply.header, reply.questions, reply.resources)
  {
    ghost var h := replyHeader(request.header);
    reply := new DNSMessage.ReplyTo(request, replyHeader);
    assert reply.header == h && reply.header.nAuthRes == 0;
    reply.AddResource(NewRecord(rawName));
    assert reply.header == h.(nAuthRes := 1);
    bytes := reply.ToBytes();
    assert reply.header == h.(nAuthRes := 1);
  }
}
