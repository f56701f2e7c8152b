/** Domain names as label sequences: the dotted-string split done by
    `Question::new` and `ResourceRecord::new`, and the label loop that both
    `to_vec` methods run (RFC 1035 section 3.1). Names are kept as their UTF-8
    bytes; splitting those bytes on 0x2E is the same as splitting the string on
    '.', because that byte never occurs inside a multi-byte UTF-8 sequence. */
module Labels {
  import opened Common

  type Label = seq<u8>
  type LabelSeq = seq<Label>

  const DOT: u8 := 0x2E

  /** RFC 1035 section 2.3.4: a label is at most 63 octets. */
  const MAX_LABEL: nat := 63

  // ---------------------------------------------------------------------------
  // Splitting a dotted name

  /** `raw_name.split('.')`: the pieces between the dots, empty pieces included,
      so there is always at least one. */
  function Split(s: seq<u8>): (r: LabelSeq)
    ensures |r| >= 1
  {
    if s == [] then [[]]
    else
      var tail := Split(s[1..]);
      if s[0] == DOT then [[]] + tail
      else [[s[0]] + tail[0]] + tail[1..]
  }

  /** The labels written back with '.' between them. */
  function Join(ls: LabelSeq): seq<u8>
    requires |ls| >= 1
  {
    if |ls| == 1 then ls[0] else ls[0] + [DOT] + Join(ls[1..])
  }

  predicate NoDots(ls: LabelSeq) {
    forall i :: 0 <= i < |ls| ==> DOT !in ls[i]
  }

  lemma {:induction false} JoinConsHead(c: u8, t: LabelSeq)
    requires |t| >= 1
    ensures Join([[c] + t[0]] + t[1..]) == [c] + Join(t)
  {
    var u := [[c] + t[0]] + t[1..];
    assert u[1..] == t[1..];
  }

  /** Joining the pieces of a split gives back the dotted name. */
  lemma {:induction false} JoinSplit(s: seq<u8>)
    ensures Join(Split(s)) == s
  {
    if s != [] {
      var tail := Split(s[1..]);
      JoinSplit(s[1..]);
      if s[0] == DOT {
        var r := [[]] + tail;
        assert r[1..] == tail;
        assert Join(r) == [] + [DOT] + Join(tail);
      } else {
        JoinConsHead(s[0], tail);
      }
      assert s == [s[0]] + s[1..];
    }
  }

  /** No piece of a split contains a dot. */
  lemma {:induction false} SplitNoDots(s: seq<u8>)
    ensures NoDots(Split(s))
  {
    if s != [] {
      var tail := Split(s[1..]);
      SplitNoDots(s[1..]);
      if s[0] != DOT {
        var r := Split(s);
        assert r[0] == [s[0]] + tail[0];
        forall i | 0 <= i < |r| ensures DOT !in r[i] {
          if i > 0 { assert r[i] == tail[i]; }
        }
      }
    }
  }

  /** A split has one more piece than the name has dots. */
  lemma {:induction false} SplitCount(s: seq<u8>)
    ensures |Split(s)| == multiset(s)[DOT] + 1
  {
    if s != [] {
      SplitCount(s[1..]);
      assert s == [s[0]] + s[1..];
      assert multiset(s) == multiset{s[0]} + multiset(s[1..]);
    }
  }

  lemma {:induction false} SplitDotFree(l: seq<u8>)
    requires DOT !in l
    ensures Split(l) == [l]
  {
    if l != [] {
      SplitDotFree(l[1..]);
      assert l == [l[0]] + l[1..];
    }
  }

  lemma {:induction false} SplitAtDot(l: seq<u8>, rest: seq<u8>)
    requires DOT !in l
    ensures Split(l + [DOT] + rest) == [l] + Split(rest)
  {
    if l == [] {
      assert l + [DOT] + rest == [DOT] + rest;
      assert ([DOT] + rest)[1..] == rest;
    } else {
      var s := l + [DOT] + rest;
      assert s[1..] == l[1..] + [DOT] + rest;
      SplitAtDot(l[1..], rest);
      assert l == [l[0]] + l[1..];
    }
  }

  /** Splitting a join of dot-free labels gives back the labels. */
  lemma {:induction false} SplitJoin(ls: LabelSeq)
    requires |ls| >= 1 && NoDots(ls)
    ensures Split(Join(ls)) == ls
  {
    if |ls| == 1 {
      SplitDotFree(ls[0]);
    } else {
      assert NoDots(ls[1..]) by {
        forall i | 0 <= i < |ls[1..]| ensures DOT !in ls[1..][i] {
          assert ls[1..][i] == ls[i + 1];
        }
      }
      SplitJoin(ls[1..]);
      assert DOT !in ls[0];
      SplitAtDot(ls[0], Join(ls[1..]));
    }
  }

  // ---------------------------------------------------------------------------
  // Encoding a label sequence

  /** `bytes.len() as u8`: a label of 256 bytes or more gets a wrapped length byte. */
  function LengthByte(l: Label): u8 {
    Truncate8(|l|)
  }

  /** One label on the wire: its length byte, then its bytes. */
  function LabelBytes(l: Label): seq<u8> {
    [LengthByte(l)] + l
  }

  /** The labels in order, without the terminating 0 byte. */
  function LabelsBytes(ls: LabelSeq): seq<u8> {
    if ls == [] then [] else LabelBytes(ls[0]) + LabelsBytes(ls[1..])
  }

  /** A complete name: the labels, then the 0 byte that ends it. */
  function NameBytes(ls: LabelSeq): seq<u8> {
    LabelsBytes(ls) + [0]
  }

  /** The sum over the labels of one length byte plus the label's bytes. */
  function LabelsSize(ls: LabelSeq): nat {
    if ls == [] then 0 else 1 + |ls[0]| + LabelsSize(ls[1..])
  }

  lemma {:induction false} LabelsBytesConcat(a: LabelSeq, b: LabelSeq)
    ensures LabelsBytes(a + b) == LabelsBytes(a) + LabelsBytes(b)
  {
    if a != [] {
      assert (a + b)[1..] == a[1..] + b;
      LabelsBytesConcat(a[1..], b);
    } else {
      assert a + b == b;
    }
  }

  /** The encoded labels take one byte more than their text per label,
      whatever the labels' lengths. */
  lemma {:induction false} LabelsBytesLength(ls: LabelSeq)
    ensures |LabelsBytes(ls)| == LabelsSize(ls)
  {
    if ls != [] {
      LabelsBytesLength(ls[1..]);
    }
  }

  lemma {:induction false} LabelsSizeConcat(a: LabelSeq, b: LabelSeq)
    ensures LabelsSize(a + b) == LabelsSize(a) + LabelsSize(b)
  {
    if a != [] {
      assert (a + b)[1..] == a[1..] + b;
      LabelsSizeConcat(a[1..], b);
    } else {
      assert a + b == b;
    }
  }

  /** Label i sits, as its length byte and then its bytes, right after the
      encodings of the labels before it. */
  lemma LabelsBytesAt(ls: LabelSeq, i: nat)
    requires i < |ls|
    ensures LabelsSize(ls[..i]) + 1 + |ls[i]| <= |LabelsBytes(ls)|
    ensures LabelsBytes(ls)[LabelsSize(ls[..i])] == LengthByte(ls[i])
    ensures LabelsBytes(ls)[LabelsSize(ls[..i]) + 1 .. LabelsSize(ls[..i]) + 1 + |ls[i]|] == ls[i]
  {
    var pre, post := ls[..i], ls[i + 1..];
    assert ls == pre + ([ls[i]] + post);
    LabelsBytesConcat(pre, [ls[i]] + post);
    assert ([ls[i]] + post)[1..] == post;
    LabelsBytesLength(pre);
    var off := LabelsSize(pre);
    var b := LabelsBytes(ls);
    assert b == LabelsBytes(pre) + ([LengthByte(ls[i])] + ls[i]) + LabelsBytes(post);
  }

  /** The label loop of `Question::to_vec` and `ResourceRecord::to_vec`: for each
      label, push its length byte, then extend with its bytes. */
  method EncodeLabels(name: LabelSeq) returns (res: seq<u8>)
    ensures res == LabelsBytes(name)
  {
    res := [];
    for i := 0 to |name|
      invariant res == LabelsBytes(name[..i])
    {
      var bytes := name[i];
      var len := Truncate8(|bytes|);
      res := res + [len];
      res := res + bytes;
      assert name[..i + 1] == name[..i] + [name[i]];
      LabelsBytesConcat(name[..i], [name[i]]);
    }
    assert name[..|name|] == name;
  }

  // ---------------------------------------------------------------------------
  // Reading a name back (a reference reader, without compression pointers)

  /** Every label is non-empty and at most 63 bytes long. */
  predicate WireLabels(ls: LabelSeq) {
    forall i :: 0 <= i < |ls| ==> 0 < |ls[i]| <= MAX_LABEL
  }

  /** Reads length-prefixed labels up to a 0 byte and returns them with the
      number of bytes consumed; a length byte above 63 or a name running past
      the end of the buffer is rejected. */
  function ReadName(b: seq<u8>): (r: Option<(LabelSeq, nat)>)
    ensures r.Some? ==> 0 < r.value.1 <= |b|
    decreases |b|
  {
    if b == [] then None
    else if b[0] == 0 then Some(([], 1))
    else if b[0] > MAX_LABEL || |b| < 1 + b[0] then None
    else
      match ReadName(b[1 + b[0]..])
      case None => None
      case Some((ls, n)) => Some(([b[1..1 + b[0]]] + ls, 1 + b[0] + n))
  }

  /** A label a reader accepts, in front of a readable name, reads as one more
      label. */
  lemma ReadNameCons(l: Label, tail: seq<u8>)
    requires 0 < |l| <= MAX_LABEL && ReadName(tail).Some?
    ensures ReadName(LabelBytes(l) + tail)
            == Some(([l] + ReadName(tail).value.0, 1 + |l| + ReadName(tail).value.1))
  {
    var b := LabelBytes(l) + tail;
    assert b[0] == |l|;
    assert b[1 + |l|..] == tail;
    assert b[1..1 + |l|] == l;
  }

  /** A name with at least one label starts with the first label's bytes. */
  lemma NameBytesCons(ls: LabelSeq, rest: seq<u8>)
    requires ls != []
    ensures NameBytes(ls) + rest == LabelBytes(ls[0]) + (NameBytes(ls[1..]) + rest)
    ensures |NameBytes(ls)| == 1 + |ls[0]| + |NameBytes(ls[1..])|
  {
  }

  lemma WireLabelsTail(ls: LabelSeq)
    requires ls != [] && WireLabels(ls)
    ensures WireLabels(ls[1..])
  {
    forall i | 0 <= i < |ls[1..]| ensures 0 < |ls[1..][i]| <= MAX_LABEL {
      assert ls[1..][i] == ls[i + 1];
    }
  }

  /** Reading an encoded name, whatever follows it, recovers the labels and
      consumes exactly the name's bytes. */
  lemma {:induction false} ReadNameBytes(ls: LabelSeq, rest: seq<u8>)
    requires WireLabels(ls)
    ensures ReadName(NameBytes(ls) + rest) == Some((ls, |NameBytes(ls)|))
  {
    if ls == [] {
      assert NameBytes(ls) + rest == [0] + rest;
    } else {
      WireLabelsTail(ls);
      var tail := NameBytes(ls[1..]) + rest;
      ReadNameBytes(ls[1..], rest);
      NameBytesCons(ls, rest);
      ReadNameCons(ls[0], tail);
      assert [ls[0]] + ls[1..] == ls;
      assert ReadName(LabelBytes(ls[0]) + tail) == Some((ls, |NameBytes(ls)|));
    }
  }

  /** `split` of an empty name gives one empty label, and an empty label is
      written as a 0 length byte, which a reader takes for the end of the name. */
  lemma EmptyLabelReadsAsTerminator()
    ensures Split([]) == [[]]
    ensures NameBytes([[]]) == [0, 0]
    ensures ReadName(NameBytes([[]])) == Some(([], 1))
  {
  }

  /** More generally, an empty label anywhere in a name is written as a 0
      length byte, so a reader stops there: only the labels before it come
      back, and the bytes after it are left unread (`"a."` is written as
      1, 'a', 0, 0 and reads back as the single label "a"). */
  lemma EmptyLabelCutsName(pre: LabelSeq, post: LabelSeq)
    requires WireLabels(pre)
    ensures NameBytes(pre + [[]] + post) == NameBytes(pre) + NameBytes(post)
    ensures ReadName(NameBytes(pre + [[]] + post)) == Some((pre, |NameBytes(pre)|))
  {
    var tail: LabelSeq := [[]] + post;
    assert pre + [[]] + post == pre + tail;
    assert tail[1..] == post;
    assert LabelBytes(tail[0]) == [0];
    var lp, lt := LabelsBytes(pre), LabelsBytes(tail);
    assert lt == [0] + LabelsBytes(post);
    LabelsBytesConcat(pre, tail);
    calc {
      NameBytes(pre + tail);
      lp + lt + [0];
      lp + ([0] + (LabelsBytes(post) + [0]));
      { AppendAssoc(lp, [0], LabelsBytes(post) + [0]); }
      (lp + [0]) + NameBytes(post);
    }
    ReadNameBytes(pre, NameBytes(post));
  }

  /** A label of 256 bytes gets the length byte 0, since the cast keeps only
      the low eight bits. */
  lemma LongLabelLengthWraps(l: Label)
    requires |l| == 0x100
    ensures LabelBytes(l)[0] == 0
  {
  }
}
