# dinosaurust: a verified model of the DNS wire encoder and the referral step

dinosaurust is a small DNS server and iterative resolver written in Rust. This
project models two parts of it in Dafny:

- The **wire encoder** (RFC 1035 section 4.1). `Header::to_vec` writes the
  12-byte header. `Question::to_vec` and `ResourceRecord::to_vec` write
  length-prefixed labels, a zero byte, and big-endian fixed fields.
  `DNSMessage` appends questions and records, keeps its header counts, and
  serialises the whole message. The `Flags` constants fix the bit layout of
  the flags word.
- The **resolver step** of `src/forwarder.rs`. `extract_answer` sorts a
  reply's records into answers for the queried name and a map of delegated
  name servers, then merges in glue from the additional section.
  `forward_iterative` follows referrals from a root server, at most
  `MAX_ITER_FORWARD` = 10 times.

Module layout:

| module | file | models |
|---|---|---|
| `Common` | common.dfy | `u8`/`u16`/`u32`, the record type and class constants, big-endian byte helpers |
| `Labels` | labels.dfy | `split('.')` on a name, the label loop both `to_vec`s share, a reference name reader |
| `Headers` | headers.dfy | `Header`, `Flags`, `new_reply`, `Header::to_vec` |
| `Questions` | questions.dfy | `Question::new`, `Question::to_vec` |
| `Records` | records.dfy | `ResourceRecord::new`, `ResourceRecord::to_vec` |
| `Messages` | messages.dfy | class `DNSMessage` and the reply that `handle_request` builds |
| `Forwarder` | forwarder.dfy | `extract_answer`, `Answer`, `forward_iterative` |

Names are byte strings. Splitting a Rust `&str` on `'.'` is the same as
splitting its UTF-8 bytes on 0x2E.

Every encoder has a partner: a reference reader (`ReadName`, `ReadHeader`,
`ReadQuestion`, `ReadRecord`, `ReadMessage`). Each reader decodes what the
encoder writes, and a round-trip lemma connects the two. The readers are
specification devices, not the source's `parse`. They take no compression
pointers, and they reject a length byte above 63 (section 2.3.4 of RFC 1035).

Three facts about `src/forwarder.rs` that the model keeps as the code has them:

- **Delegation order.** The NS candidates are kept in a `HashMap` and
  returned through `values()` (src/forwarder.rs:107, 145), so server order is
  unspecified. `ExtractAnswer` leaves it open.
- **NS records and resources.** An NS record never becomes a resource, even
  when its owner is the queried name: only the non-NS arm appends to
  `resources` (src/forwarder.rs:113-129).
- **Glue-less candidates.** A picked server with no glue address is used as it
  is (src/forwarder.rs:84-89); nothing resolves its address first, so the
  model has no nested resolution.

## Model

| member | source | states |
|---|---|---|
| Common.U16Bytes | src/header.rs:54-55 | `(x >> 8) as u8, x as u8` is two bytes whose big-endian value is x |
| Common.U32Bytes | src/resourserecord.rs:51-54 | the four shifted-and-cast bytes of the ttl are four bytes whose big-endian value is the ttl |
| Common.BE16Injective | src/header.rs:53-66 | two byte pairs with the same big-endian value are the same bytes |
| Headers.FieldRangesDisjoint | src/header.rs:14-36 | QR (bit 15), Opcode (11-14), AA (10), TC (9), RD (8), RA (7) and RCode (0-3) fit in 16 bits and their bit ranges are pairwise disjoint; each field's unit is 2 to the power of its lowest bit and its size 2 to the power of its width, so the value ranges the constants are checked against are disjoint too |
| Headers.FlagConstantsInField | src/header.rs:14-36 | every flag constant has no bit outside its own field, and the i-th constant of a field stores value i in it |
| Headers.NewReply | src/header.rs:40-50 | the reply header has id 1212 and all four counts 0; its flags are 0x9000, with QR = 1, Opcode = 2 (STATUS), RCode = 0, and AA, TC, RD, RA clear |
| Headers.HeaderBytes | src/header.rs:52-67 | the encoding is exactly 12 bytes; byte pair 2i, 2i+1 read big-endian is the i-th field in the order id, flags, n_question, n_answer, n_auth_res, n_addi_rrs |
| Headers.ReadHeaderBytes | src/header.rs:52-67 | decoding the first twelve bytes of an encoded header, whatever follows, gives the header back |
| Headers.HeaderBytesInjective | src/header.rs:53-66 | distinct headers have distinct encodings |
| Labels.Split | src/question.rs:11 | splitting always yields at least one label |
| Labels.JoinSplit | src/question.rs:11 | joining the labels of a split with '.' gives back the raw name |
| Labels.SplitNoDots | src/question.rs:11 | no label of a split contains '.' |
| Labels.SplitCount | src/question.rs:11 | a split has one more label than the name has dots |
| Labels.SplitJoin | src/question.rs:11 | splitting the join of dot-free labels gives back those labels |
| Labels.LabelsBytesLength | src/question.rs:21-26 | the encoded labels take one length byte plus their bytes per label, whatever their lengths |
| Labels.LabelsBytesAt | src/question.rs:21-26 | label i is written as its length byte and then its bytes, right after the encodings of the labels before it |
| Labels.EncodeLabels | src/question.rs:20-26 | the label loop pushes each label's `len as u8` and its bytes, in order |
| Labels.ReadNameBytes | src/question.rs:21-27 | when every label is non-empty and at most 63 bytes, reading an encoded name (labels and terminator) back gives the labels and consumes exactly the name's bytes |
| Labels.EmptyLabelReadsAsTerminator | src/question.rs:21-27 | `split` of an empty name gives one empty label; it is written as `0, 0`, which reads back as the end of an empty name |
| Labels.EmptyLabelCutsName | src/question.rs:21-27 | an empty label anywhere in a name is written as a 0 byte, so the name reads back as only the labels before it |
| Labels.LongLabelLengthWraps | src/question.rs:23 | a 256-byte label gets length byte 0, because the cast keeps only the low eight bits |
| Questions.NewQuestion | src/question.rs:10-17 | the labels join back to the raw name, hold no dot and number the dots plus one; the record type is kept and the class is IN = 1 |
| Questions.EncodeQuestion | src/question.rs:19-33 | `to_vec` gives the name's labels, a 0 byte, then type and class big-endian |
| Questions.QuestionLayout | src/question.rs:19-33 | the encoding starts with the name and its 0 terminator, ends with type then class big-endian, and is the labels' size plus 5 long |
| Questions.ReadQuestionBytes | src/question.rs:19-33 | for non-empty labels of at most 63 bytes, the encoding reads back as the same question and consumes exactly its bytes |
| Questions.NewQuestionRoundTrip | src/question.rs:10-33 | a question built by `new` from a name with readable labels reads back from its encoding, and its labels join to the raw name |
| Records.NewRecord | src/resourserecord.rs:23-34 | the labels join back to the raw name and hold no dot; type A = 1, class IN = 1, ttl 111, length 4, data A(1.1.1.1); the declared length equals the rdata bytes written |
| Records.EncodeRecord | src/resourserecord.rs:36-68 | `to_vec` gives the labels, then the 0 terminator with type, class, ttl and rdlength, then the address octets |
| Records.RecordLayout | src/resourserecord.rs:36-68 | the name comes first, written as a question writes it; 10 fixed bytes follow the terminator (type, class, ttl, length, each big-endian), then the rdata; total length is the labels' size plus 15 |
| Records.ReadRecordBytes | src/resourserecord.rs:36-68 | for a well-formed record, the encoding reads back as the same record and consumes exactly its bytes |
| Records.NewRecordRoundTrip | src/resourserecord.rs:23-68 | a record built by `new` from a name with readable labels reads back from its encoding |
| Messages.QuestionsBytesLength | src/message.rs:44-47 | the question encodings together are as long as the sum of their sizes |
| Messages.RecordsBytesLength | src/message.rs:48-51 | the record encodings together are as long as the sum of their sizes |
| Messages.MessageBytesLength | src/message.rs:42-53 | a message encoding is 12 bytes plus the question and record sizes |
| Messages.ValidMessageRoundTrip | src/message.rs:30-53 | a message object whose counts match its sections, as `new`, `reply_to` and the adds keep them, with readable entries, reads back from its `to_vec` bytes as its own header, questions and records |
| Messages.MessageRoundTrip | src/message.rs:42-53 | when the header counts match the sections and every entry is readable, the encoding reads back as the same header, questions and records |
| Messages.DNSMessage.New | src/message.rs:14-20 | a new message has empty questions and resources, zero counts, and keeps the count invariant |
| Messages.DNSMessage.ReplyTo | src/message.rs:22-28 | the reply takes its header from the request's header and has no questions or resources |
| Messages.DNSMessage.AddQuestion | src/message.rs:30-34 | the question is appended at the end; only n_question changes, by one; resources are unchanged; the count invariant is kept |
| Messages.DNSMessage.AddResource | src/message.rs:36-40 | the record is appended at the end; n_auth_res (not n_answer) grows by one and nothing else in the header changes; questions are unchanged; the count invariant is kept |
| Messages.DNSMessage.ToBytes | src/message.rs:42-53 | the bytes are the header, then every question in order, then every record in order; the length is 12 plus the sizes |
| Messages.ReplyRoundTrip | src/lib.rs:99-101 | the reply `handle_request` sends, with one authority record from `ResourceRecord::new`, reads back as its header and that record |
| Messages.BuildReply | src/lib.rs:99-105 | `reply_to`, then `add_resource` of `ResourceRecord::new`, then `to_vec`: the reply keeps its invariant and holds just that record; its header is the request's reply header with n_auth_res = 1; the bytes are its encoding |
| Forwarder.CandidatesSpec | src/forwarder.rs:112-122 | the candidate names are exactly the NS targets of the answer and authority records, each an unresolved server on port 53 |
| Forwarder.MatchingSpec | src/forwarder.rs:110-131 | a record is a resource exactly when it is in the answer or authority section, is not NS, and has the queried owner name |
| Forwarder.MatchingConcat | src/forwarder.rs:110 | the resources of answer followed by authority are those of the answer section followed by those of the authority section |
| Forwarder.GlueSpec | src/forwarder.rs:133-142 | the glue pass keeps the candidate names; each candidate takes the last A and last AAAA address given for its name, keeping its own where there is none |
| Forwarder.GlueIgnoresUnmatched | src/forwarder.rs:133-134 | an additional record whose name is no candidate changes nothing |
| Forwarder.DelegationsSpec | src/forwarder.rs:106-148 | the delegations are keyed by the NS targets; each is a port-53 server with the last matching glue addresses and None otherwise |
| Forwarder.MapValues | src/forwarder.rs:145 | `values().collect()` yields one value per key, each the map's value at a distinct key, covering every key |
| Forwarder.ExtractAnswer | src/forwarder.rs:106-148 | resources are the matching non-NS answer/authority records in order; servers correspond one-to-one with the distinct NS targets, each equal to its delegation |
| Forwarder.PickedServerRefers | src/forwarder.rs:79-87 | a server picked from an answer without resources is one the reply delegates to |
| Forwarder.ForwardIterative | src/forwarder.rs:59-96 | fails with no root exactly when there are no roots; asks at most 11 servers, the first a root and each next one delegated to by the previous reply; resolves only with a reply that has a matching resource; a transport failure means the last request got no reply, no-server means the last reply had neither a resource nor an NS target, and the cap means 11 servers were asked and the last reply still only referred onward |

## Left out

- `DNSMessage::parse` (src/message.rs:55-70) is not modelled: it calls `Header::parse` and the flag getters, which header.rs does not define, and then prints. The reference readers stand in for the decoding side and take no compression pointers.
- header.rs does not define `Header::new` or `Header::reply_to`, though src/message.rs:16 and :26 call them. `DNSMessage.New` takes the id and flags as parameters with zero counts, and `DNSMessage.ReplyTo` takes the reply header function as a parameter that must zero the counts.
- Messages.DNSMessage.AddQuestion: requires n_question below 65535, because `+= 1` on a `u16` panics (debug build) or wraps (release build) there, and that case is not modelled.
- Messages.DNSMessage.AddResource: requires n_auth_res below 65535, for the same reason.
- ReadRecordFields accepts only rdlength 4, because A is the only rdata `resourserecord.rs` defines.
- Networking (`send_message_to`, `send_question_to`, UDP sockets) is the oracle parameter `send` of `ForwardIterative`. A failed request is `None`: it stands for the four `unwrap`s of `send_message_to` on bind, send, receive and parse (src/forwarder.rs:30, 31, 35, 38), which panic; the `expect` at src/forwarder.rs:78 itself can never fire, since `send_message_to` only returns `Ok`.
- `forward_recursive` (src/forwarder.rs:15-17) is a separate entry point that sends one question to the configured forwarder; `forward_iterative` does not call it, and it is left out as network I/O.
- Forwarder.ForwardIterative: the model always terminates, but the source can hang: `socket.recv` (src/forwarder.rs:35) has no timeout, and the oracle `send` always returns, so a server that never replies is not modelled.
- src/common.rs does not define `ROOT_SERVERS`, so the root servers are the parameter `roots`. `ForwardContext` (src/forwarder.rs:44-57) is left out: `forward_iterative` ignores its `_context` argument and its cache.
- The random server choices are arbitrary picks: nothing is claimed about their distribution.
- Forwarder.ExtractAnswer: server order is left unspecified, because `HashMap::values()` order is unspecified.
- `forwarder.rs` uses a `Message`, an NS/AAAA-capable `ResourceData`, `DNSServer` and `LabelSeq` that src/message.rs, src/resourserecord.rs and src/common.rs do not define. `Forwarder` declares the fields it uses: three record sections, NS/A/AAAA/other rdata, and servers with optional addresses and a port.
- The panics on `forward_iterative`'s path are returned as `Failed` outcomes: `NoRootServer` and `NoServer` for the two `expect`s on `choose` (src/forwarder.rs:70, 87), `TransportError` for the `unwrap`s in `send_message_to`, and `MaxIterReached` for the `panic!` (src/forwarder.rs:94).
- src/resourserecord.rs:28-29 take the record type and class from `FlagRecordType::A.bits()` and `FlagClassCode::IN.bits()`, which src/common.rs does not define (it defines `RecordType::A` = 1 and `ClassCode::IN` = 1). The model assumes both are 1, and Records.NewRecord's contract relies on that.
- `src/lib.rs` outside the reply construction in `handle_request`, `src/main.rs`, `src/bin/`, `src/config.rs` and `src/utils.rs` are left out: sockets, channels, task spawning, signal handling and argument parsing are I/O and concurrency.
- Logging (`debug!`, `info!`, `println!`) is left out.
