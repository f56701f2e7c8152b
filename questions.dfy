/** A question entry (RFC 1035 section 4.1.2): name, type, class (src/question.rs). */
module Questions {
  import opened Common
  import opened Labels

  datatype Question = Question(name: LabelSeq, recordType: u16, classCode: u16)

  /** `Question::new`: the name split on '.', the given type, class IN. */
  function NewQuestion(rawName: seq<u8>, recordType: u16): (q: Question)
    ensures |q.name| >= 1 && Join(q.name) == rawName
    ensures NoDots(q.name)
    ensures |q.name| == multiset(rawName)[DOT] + 1
    ensures q.recordType == recordType && q.classCode == CLASS_IN
  {
    JoinSplit(rawName);
    SplitNoDots(rawName);
    SplitCount(rawName);
    Question(Split(rawName), recordType, CLASS_IN)
  }

  /** The bytes `Question::to_vec` produces: the name, its 0 terminator, then
      type and class, big-endian. */
  function QuestionBytes(q: Question): seq<u8> {
    NameBytes(q.name) + U16Bytes(q.recordType) + U16Bytes(q.classCode)
  }

  /** `Question::to_vec`. */
  method EncodeQuestion(q: Question) returns (res: seq<u8>)
    ensures res == QuestionBytes(q)
  {
    res := EncodeLabels(q.name);
    res := res + [0];
    res := res + [Truncate8(q.recordType / 0x100)];
    res := res + [Truncate8(q.recordType)];
    res := res + [Truncate8(q.classCode / 0x100)];
    res := res + [Truncate8(q.classCode)];
  }

  /** The encoding is the name, then four bytes holding type and class;
      its length is the labels' size plus five. */
  lemma QuestionLayout(q: Question)
    ensures |QuestionBytes(q)| == LabelsSize(q.name) + 5
    ensures QuestionBytes(q)[..|NameBytes(q.name)|] == NameBytes(q.name)
    ensures QuestionBytes(q)[|NameBytes(q.name)| - 1] == 0
    ensures var b := QuestionBytes(q); var n := |b|;
      BE16(b[n - 4], b[n - 3]) == q.recordType && BE16(b[n - 2], b[n - 1]) == q.classCode
  {
    LabelsBytesLength(q.name);
    var b := QuestionBytes(q);
    var n := |b|;
    assert b[n - 4..] == U16Bytes(q.recordType) + U16Bytes(q.classCode);
  }

  /** Decodes a question and returns it with the number of bytes consumed (a
      reference reader, not part of the source). */
  function ReadQuestion(b: seq<u8>): (r: Option<(Question, nat)>)
    ensures r.Some? ==> 0 < r.value.1 <= |b|
  {
    match ReadName(b)
    case None => None
    case Some((ls, n)) =>
      if |b| < n + 4 then None
      else Some((Question(ls, BE16(b[n], b[n + 1]), BE16(b[n + 2], b[n + 3])), n + 4))
  }

  /** Reading an encoded question, whatever follows it, recovers the question
      and consumes exactly its bytes. */
  lemma ReadQuestionBytes(q: Question, rest: seq<u8>)
    requires WireLabels(q.name)
    ensures ReadQuestion(QuestionBytes(q) + rest) == Some((q, |QuestionBytes(q)|))
  {
    var name := NameBytes(q.name);
    var tail := U16Bytes(q.recordType) + U16Bytes(q.classCode) + rest;
    var b := QuestionBytes(q) + rest;
    assert b == name + tail;
    ReadNameBytes(q.name, tail);
    var n := |name|;
    assert b[n..n + 4] == U16Bytes(q.recordType) + U16Bytes(q.classCode);
  }

  /** `Question::new` on a name whose labels are non-empty and at most 63
      bytes gives a question that reads back from its own encoding. */
  lemma NewQuestionRoundTrip(rawName: seq<u8>, recordType: u16, rest: seq<u8>)
    requires WireLabels(Split(rawName))
    ensures var q := NewQuestion(rawName, recordType);
      ReadQuestion(QuestionBytes(q) + rest) == Some((q, |QuestionBytes(q)|))
      && Join(q.name) == rawName
  {
    ReadQuestionBytes(NewQuestion(rawName, recordType), rest);
  }
}
