/** apptraffic/src/proto.c: DNS responses as a server writes them, and what the parser makes of them. */
module DnsMessages {
  import opened Bytes
  import opened Dns

  // ---- the wire format: section 4.1 of RFC 1035 ----

  /** A name spelled out, or a pointer to the name of the first question. */
  datatype Name = Inline(labels: seq<Label>) | OfQuestion

  datatype Question = Question(labels: seq<Label>, typeAndClass: seq<byte>)

  datatype Record = Record(name: Name, typ: nat, classAndTtl: seq<byte>, rdata: seq<byte>)

  datatype Message = Message(id: seq<byte>, flags: seq<byte>, more: seq<byte>, questions: seq<Question>,
                             records: seq<Record>, rest: seq<byte>)

  /** A name of one to `most` labels, without NUL, of at most 255 characters. */
  ghost predicate ValidLabels(labels: seq<Label>, most: nat) {
    && 0 < |labels| <= most
    && (forall i :: 0 <= i < |labels| ==> 0 < |labels[i]| < 64)
    && |Dotted(labels)| < 256 && 0 !in Dotted(labels)
  }

  function EncodeLabels(labels: seq<Label>): (b: seq<byte>)
    requires forall i :: 0 <= i < |labels| ==> 0 < |labels[i]| < 64
    ensures |b| > 0
  {
    if labels == [] then [0] else [|labels[0]| as byte] + labels[0] + EncodeLabels(labels[1..])
  }

  ghost predicate ValidQuestion(q: Question) { ValidLabels(q.labels, 8) && |q.typeAndClass| == 4 }

  ghost function EncodeQuestion(q: Question): seq<byte>
    requires ValidQuestion(q)
  {
    EncodeLabels(q.labels) + q.typeAndClass
  }

  ghost predicate ValidRecord(r: Record) {
    && (r.name.Inline? ==> ValidLabels(r.name.labels, 9))
    && r.typ < 0x10000 && |r.classAndTtl| == 6 && |r.rdata| < 0x10000
  }

  ghost function EncodeName(n: Name): seq<byte>
    requires n.Inline? ==> ValidLabels(n.labels, 9)
  {
    match n
    case Inline(labels) => EncodeLabels(labels)
    case OfQuestion => [0xC0, 12]
  }

  ghost function EncodeRecord(r: Record): seq<byte>
    requires ValidRecord(r)
  {
    EncodeName(r.name) + (U16(r.typ) + r.classAndTtl + U16(|r.rdata|) + r.rdata)
  }

  ghost function EncodeQuestions(qs: seq<Question>): seq<byte>
    requires forall q :: q in qs ==> ValidQuestion(q)
  {
    if qs == [] then [] else EncodeQuestion(qs[0]) + EncodeQuestions(qs[1..])
  }

  ghost function EncodeRecords(rs: seq<Record>): seq<byte>
    requires forall r :: r in rs ==> ValidRecord(r)
  {
    if rs == [] then [] else EncodeRecord(rs[0]) + EncodeRecords(rs[1..])
  }

  ghost predicate ValidMessage(m: Message) {
    && |m.id| == 2 && |m.flags| == 2 && m.flags[0] >= 0x80 && |m.more| == 4
    && |m.questions| < 0x10000 && |m.records| < 0x10000
    && (forall q :: q in m.questions ==> ValidQuestion(q))
    && (forall r :: r in m.records ==> ValidRecord(r) && (r.name.OfQuestion? ==> m.questions != []))
  }

  ghost function EncodeHeader(m: Message): (h: seq<byte>)
    requires ValidMessage(m)
    ensures |h| == 12
  {
    m.id + m.flags + U16(|m.questions|) + U16(|m.records|) + m.more
  }

  ghost function Encode(m: Message): seq<byte>
    requires ValidMessage(m)
  {
    EncodeHeader(m) + (EncodeQuestions(m.questions) + (EncodeRecords(m.records) + m.rest))
  }

  // ---- what it says ----

  function LabelsOf(n: Name, qs: seq<Question>): seq<Label> {
    match n
    case Inline(labels) => labels
    case OfQuestion => if qs == [] then [] else qs[0].labels
  }

  /** An A record of 4 bytes or an AAAA record of 16 says where its owner is. */
  function AddressIn(r: Record, qs: seq<Question>): seq<Rec> {
    var owner := Dotted(LabelsOf(r.name, qs));
    if r.typ == 1 && |r.rdata| == 4 then [Rec(owner, false, r.rdata)]
    else if r.typ == 28 && |r.rdata| == 16 then [Rec(owner, true, r.rdata)]
    else []
  }

  function Addresses(rs: seq<Record>, qs: seq<Question>): seq<Rec> {
    if rs == [] then [] else AddressIn(rs[0], qs) + Addresses(rs[1..], qs)
  }

  // ---- reading it back ----

  /** From pos on, the data starts with b. */
  predicate StartsAt(data: seq<byte>, pos: nat, b: seq<byte>) {
    pos + |b| <= |data| && data[pos..pos + |b|] == b
  }

  lemma StartsParts(data: seq<byte>, pos: nat, a: seq<byte>, b: seq<byte>)
    requires StartsAt(data, pos, a + b)
    ensures StartsAt(data, pos, a) && StartsAt(data, pos + |a|, b)
  {
    var w := data[pos..pos + |a + b|];
    assert w[..|a|] == a && w[|a|..] == b;
    assert data[pos..pos + |a|] == w[..|a|];
    assert data[pos + |a|..pos + |a| + |b|] == w[|a|..];
  }

  lemma StartsBytes(data: seq<byte>, pos: nat, b: seq<byte>, i: nat)
    requires StartsAt(data, pos, b) && i < |b|
    ensures data[pos + i] == b[i]
  {
    assert data[pos..pos + |b|][i] == data[pos + i];
  }

  /** A name spelled out is read as its labels, one step each, and ends behind its zero byte. */
  lemma {:induction false} InlineName(data: seq<byte>, pos: nat, labels: seq<Label>, steps: nat)
    requires forall i :: 0 <= i < |labels| ==> 0 < |labels[i]| < 64
    requires StartsAt(data, pos, EncodeLabels(labels)) && |labels| <= steps
    ensures NameAt(data, pos, steps) == Some(labels) && StepsOf(data, pos, steps) == |labels|
    ensures EndOf(data, pos) == pos + |EncodeLabels(labels)|
    decreases |labels|
  {
    StartsBytes(data, pos, EncodeLabels(labels), 0);
    if labels != [] {
      var lab, rest := labels[0], EncodeLabels(labels[1..]);
      StartsParts(data, pos, [|lab| as byte] + lab, rest);
      StartsParts(data, pos, [|lab| as byte], lab);
      InlineName(data, pos + 1 + |lab|, labels[1..], steps - 1);
      assert LabelOf(data, pos) == lab;
      assert labels == [lab] + labels[1..];
    }
  }

  /** The name of the first question stands behind the header, where pointers to it lead. */
  ghost predicate HasQuestion(data: seq<byte>, qs: seq<Question>) {
    qs != [] && ValidLabels(qs[0].labels, 8) && StartsAt(data, 12, EncodeLabels(qs[0].labels))
  }

  /** Either kind of name is read as its labels. */
  lemma NameReads(data: seq<byte>, pos: nat, n: Name, qs: seq<Question>)
    requires n.Inline? ==> ValidLabels(n.labels, 9)
    requires n.OfQuestion? ==> HasQuestion(data, qs)
    requires StartsAt(data, pos, EncodeName(n))
    ensures !RootAt(data, pos) && PlainName(data, pos) && NameText(data, pos) == Dotted(LabelsOf(n, qs))
    ensures EndOf(data, pos) == pos + |EncodeName(n)|
  {
    hide Dotted;
    StartsBytes(data, pos, EncodeName(n), 0);
    if n.Inline? {
      InlineName(data, pos, n.labels, 9);
      FewStepsArePlain(data, pos, n.labels);
    } else {
      StartsBytes(data, pos, EncodeName(n), 1);
      InlineName(data, 12, qs[0].labels, 8);
      FewStepsArePlain(data, pos, qs[0].labels);
    }
  }

  lemma FewStepsArePlain(data: seq<byte>, pos: nat, labels: seq<Label>)
    requires ValidLabels(labels, 9) && NameAt(data, pos, 9) == Some(labels) && StepsOf(data, pos, 9) <= 9
    ensures PlainName(data, pos) && NameText(data, pos) == Dotted(labels)
  {
    hide NameAt, StepsOf, Dotted;
    EveryNameFits(data, pos, 9);
    StepsAgree(data, pos, 9, |data|);
  }

  /** With enough allowed, the number of steps does not depend on how many are allowed. */
  lemma {:induction false} StepsAgree(data: seq<byte>, pos: nat, a: nat, b: nat)
    requires NameAt(data, pos, a).Some? && NameAt(data, pos, b).Some?
    ensures StepsOf(data, pos, a) == StepsOf(data, pos, b)
    decreases a
  {
    if data[pos] != 0 {
      StepsAgree(data, if PointerAt(data, pos) then Pointer(data, pos) else pos + 1 + data[pos], a - 1, b - 1);
    }
  }

  lemma {:induction false} QuestionsRead(data: seq<byte>, pos: nat, qs: seq<Question>)
    requires forall q :: q in qs ==> ValidQuestion(q)
    requires StartsAt(data, pos, EncodeQuestions(qs))
    ensures QuestionsEnd(data, pos, |qs|) == Some(pos + |EncodeQuestions(qs)|)
    decreases |qs|
  {
    hide PlainName, NameText, EndOf, EncodeLabels, Dotted;
    if qs != [] {
      var q := qs[0];
      assert q in qs;
      StartsParts(data, pos, EncodeQuestion(q), EncodeQuestions(qs[1..]));
      StartsParts(data, pos, EncodeLabels(q.labels), q.typeAndClass);
      NameReads(data, pos, Inline(q.labels), []);
      QuestionsRead(data, pos + |EncodeQuestion(q)|, qs[1..]);
    }
  }

  lemma RecordReads(data: seq<byte>, pos: nat, r: Record, qs: seq<Question>)
    requires ValidRecord(r) && StartsAt(data, pos, EncodeRecord(r))
    requires r.name.OfQuestion? ==> HasQuestion(data, qs)
    ensures !RootAt(data, pos) && RecordAt(data, pos) && NextRecord(data, pos) == pos + |EncodeRecord(r)|
    ensures RecordAddress(data, pos) == AddressIn(r, qs)
  {
    hide PlainName, NameText, EndOf, EncodeLabels, Dotted, Word;
    var fixed := U16(r.typ) + r.classAndTtl + U16(|r.rdata|);
    StartsParts(data, pos, EncodeName(r.name), fixed + r.rdata);
    NameReads(data, pos, r.name, qs);
    FixedReads(data, EndOf(data, pos), r);
  }

  /** What stands behind the name. */
  lemma FixedReads(data: seq<byte>, at: nat, r: Record)
    requires ValidRecord(r) && StartsAt(data, at, U16(r.typ) + r.classAndTtl + U16(|r.rdata|) + r.rdata)
    ensures at + 10 + |r.rdata| <= |data|
    ensures Word(data, at) == r.typ && Word(data, at + 8) == |r.rdata| && data[at + 10..at + 10 + |r.rdata|] == r.rdata
  {
    var typ, length := U16(r.typ), U16(|r.rdata|);
    StartsParts(data, at, typ + r.classAndTtl + length, r.rdata);
    StartsParts(data, at, typ + r.classAndTtl, length);
    StartsParts(data, at, typ, r.classAndTtl);
    assert data[at..at + 2] == typ && data[at + 8..at + 10] == length;
  }

  lemma {:induction false} RecordsRead(data: seq<byte>, pos: nat, rs: seq<Record>, qs: seq<Question>)
    requires forall r :: r in rs ==> ValidRecord(r) && (r.name.OfQuestion? ==> qs != [])
    requires qs != [] ==> HasQuestion(data, qs)
    requires StartsAt(data, pos, EncodeRecords(rs))
    ensures Answers(data, pos, |rs|) == Some(Addresses(rs, qs))
    decreases |rs|
  {
    hide RecordAt, RecordAddress, NextRecord, EncodeRecord, EncodeLabels, AddressIn;
    if rs != [] {
      var r := rs[0];
      assert r in rs;
      StartsParts(data, pos, EncodeRecord(r), EncodeRecords(rs[1..]));
      RecordReads(data, pos, r, qs);
      RecordsRead(data, pos + |EncodeRecord(r)|, rs[1..], qs);
    }
  }

  /** Where the parts of a message stand. */
  lemma MessageParts(m: Message)
    requires ValidMessage(m)
    ensures var data, questions := Encode(m), EncodeQuestions(m.questions);
            && |data| >= 12 && data[2] >= 0x80
            && Word(data, 4) == |m.questions| && Word(data, 6) == |m.records|
            && StartsAt(data, 12, questions) && StartsAt(data, 12 + |questions|, EncodeRecords(m.records))
  {
    hide EncodeQuestions, EncodeRecords, ValidQuestion, ValidRecord;
    var data, questions, records := Encode(m), EncodeQuestions(m.questions), EncodeRecords(m.records);
    assert data[..12] == EncodeHeader(m);
    assert data[2] == m.flags[0];
    assert data[4..6] == U16(|m.questions|) && data[6..8] == U16(|m.records|);
    var tail := 12 + |questions|;
    assert data[12..tail] == questions;
    assert data[tail..tail + |records|] == records;
  }

  lemma MessageReads(m: Message)
    requires ValidMessage(m)
    ensures IsResponse(Encode(m)) && AllAnswers(Encode(m)) == Addresses(m.records, m.questions)
  {
    hide QuestionsEnd, Answers, Addresses, Encode, EncodeQuestions, EncodeRecords, HasQuestion, Word, StartsAt;
    var data := Encode(m);
    MessageParts(m);
    QuestionsRead(data, 12, m.questions);
    if m.questions != [] {
      FirstQuestion(data, m.questions);
    }
    RecordsRead(data, 12 + |EncodeQuestions(m.questions)|, m.records, m.questions);
  }

  lemma FirstQuestion(data: seq<byte>, qs: seq<Question>)
    requires qs != [] && forall q :: q in qs ==> ValidQuestion(q)
    requires StartsAt(data, 12, EncodeQuestions(qs))
    ensures HasQuestion(data, qs)
  {
    assert qs[0] in qs;
    StartsParts(data, 12, EncodeQuestion(qs[0]), EncodeQuestions(qs[1..]));
    StartsParts(data, 12, EncodeLabels(qs[0].labels), qs[0].typeAndClass);
  }

  /** Every encoded response of less than 64 KiB gives back its first addresses, in order, each with its owner. */
  method ResponseRoundTrip(data: seq<byte>, ghost m: Message, max: nat) returns (recs: seq<Rec>)
    requires ValidMessage(m) && data == Encode(m) && |data| < 0x10000
    ensures recs == Addresses(m.records, m.questions)[..Min(|Addresses(m.records, m.questions)|, max)]
  {
    hide Addresses, Encode, IsResponse, AllAnswers;
    MessageReads(m);
    recs := ParseResponse(data, max);
  }
}
