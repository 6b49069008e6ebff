/** Writing queries and responses: write_dns_query, write_dns_answer and write_dns_response_by_query of
    src/common.c, with the reference decoder as their specification. */
module MessageWriter {
  import opened Options
  import opened Rfc1035
  import opened Names
  import opened NameCodec

  /** MAX_DNS_SIZE, the room that str_to_label is told it has. */
  const MAX_DNS_SIZE: nat := 520

  const TYPE_CNAME: nat := 5

  // ----- bytes of the parts -----

  function Be16(v: nat): (r: seq<byte>)
    requires v < 0x1_0000
    ensures |r| == 2
  {
    [v / 256, v % 256]
  }

  function Be32(v: nat): (r: seq<byte>)
    requires v < 0x1_0000_0000
    ensures |r| == 4
  {
    Be16(v / 0x1_0000) + Be16(v % 0x1_0000)
  }

  /** A struct answer as handed to the writer: 16-bit type and class, 32-bit ttl, a 16-byte address of which an A
      record uses the first 4, and the C string that a CNAME record takes from the same place. */
  datatype Answer = Answer(name: seq<byte>, rtype: nat, rclass: nat, ttl: nat, address: seq<byte>, text: seq<byte>)

  predicate InRange(a: Answer) {
    a.rtype < 0x1_0000 && a.rclass < 0x1_0000 && a.ttl < 0x1_0000_0000 && |a.address| == 16
  }

  /** What write_dns_answer accepts. */
  predicate Encodable(a: Answer) {
    && InRange(a) && |a.name| < MAX_DNS_SIZE
    && (a.rtype == TYPE_A || a.rtype == TYPE_AAAA || (a.rtype == TYPE_CNAME && |a.text| < MAX_DNS_SIZE))
  }

  /** An encodable answer whose name obeys the label limit of section 2.3.4. */
  predicate Sendable(a: Answer) {
    Encodable(a) && LegalLabels(Split(a.name))
  }

  predicate AllEncodable(answers: seq<Answer>) {
    forall i {:trigger answers[i]} :: 0 <= i < |answers| ==> Encodable(answers[i])
  }

  predicate AllSendable(answers: seq<Answer>)
    ensures AllSendable(answers) ==> AllEncodable(answers)
  {
    forall i {:trigger answers[i]} :: 0 <= i < |answers| ==> Sendable(answers[i])
  }

  function Rdata(a: Answer): (r: seq<byte>)
    requires |a.address| == 16
    ensures |r| == if a.rtype == TYPE_A then 4 else if a.rtype == TYPE_CNAME then |a.text| + 2 else 16
  {
    WireLength(a.text);
    if a.rtype == TYPE_A then a.address[..4] else if a.rtype == TYPE_CNAME then Wire(Split(a.text)) else a.address
  }

  /** The ttl goes through a signed int, and a negative one is written as 0. */
  function SentTtl(ttl: nat): nat {
    if ttl < 0x8000_0000 then ttl else 0
  }

  function Fixed(a: Answer): (r: seq<byte>)
    requires Encodable(a)
    ensures |r| == 10
  {
    Be16(a.rtype) + (Be16(a.rclass) + (Be32(SentTtl(a.ttl)) + Be16(|Rdata(a)|)))
  }

  function AnswerBytes(a: Answer): seq<byte>
    requires Encodable(a)
  {
    Wire(Split(a.name)) + (Fixed(a) + Rdata(a))
  }

  /** The record the answer stands for. */
  function Sent(a: Answer): Record
    requires Encodable(a)
  {
    Record(Split(a.name), a.rtype, a.rclass, SentTtl(a.ttl), Rdata(a))
  }

  function AnswersBytes(answers: seq<Answer>): seq<byte>
    requires AllEncodable(answers)
  {
    if answers == [] then []
    else AnswersBytes(answers[..|answers| - 1]) + AnswerBytes(answers[|answers| - 1])
  }

  // ----- decoding them -----

  lemma HeldU16(msg: seq<byte>, pos: nat, v: nat)
    requires v < 0x1_0000 && Holds(msg, pos, Be16(v))
    ensures pos + 2 <= |msg| && U16(msg, pos) == v
  {
    HoldsAt(msg, pos, Be16(v), 0);
    HoldsAt(msg, pos, Be16(v), 1);
  }

  lemma HeldU32(msg: seq<byte>, pos: nat, v: nat)
    requires v < 0x1_0000_0000 && Holds(msg, pos, Be32(v))
    ensures pos + 4 <= |msg| && U32(msg, pos) == v
  {
    hide Holds;
    HoldsSplit(msg, pos, Be16(v / 0x1_0000), Be16(v % 0x1_0000));
    HeldU16(msg, pos, v / 0x1_0000);
    HeldU16(msg, pos + 2, v % 0x1_0000);
  }

  /** The data of a record: four address bytes for type 1, sixteen for type 28, and for type 5 the text as a name. */
  lemma RdataExactly(a: Answer)
    requires Encodable(a)
    ensures a.rtype == 1 ==> Rdata(a) == a.address[..4]
    ensures a.rtype == 28 ==> Rdata(a) == a.address
    ensures a.rtype == 5 ==> Rdata(a) == Wire(Split(a.text)) && |Rdata(a)| == |a.text| + 2
  {
    WireLength(a.text);
  }

  lemma HeldFixed(msg: seq<byte>, pos: nat, a: Answer)
    requires Encodable(a) && Holds(msg, pos, Fixed(a))
    ensures pos + 10 <= |msg|
    ensures U16(msg, pos) == a.rtype && U16(msg, pos + 2) == a.rclass
    ensures U32(msg, pos + 4) == SentTtl(a.ttl) && U16(msg, pos + 8) == |Rdata(a)|
  {
    hide Holds, Be16, Be32;
    var ttl, len := Be32(SentTtl(a.ttl)), Be16(|Rdata(a)|);
    HoldsSplit(msg, pos, Be16(a.rtype), Be16(a.rclass) + (ttl + len));
    HoldsSplit(msg, pos + 2, Be16(a.rclass), ttl + len);
    HoldsSplit(msg, pos + 4, ttl, len);
    HeldU16(msg, pos, a.rtype);
    HeldU16(msg, pos + 2, a.rclass);
    HeldU32(msg, pos + 4, SentTtl(a.ttl));
    HeldU16(msg, pos + 8, |Rdata(a)|);
  }

  /** The fields after the name, for every answer the writer accepts, even one whose name no decoder reads: a ttl of 2^31
      or more, a negative remaining time, is written as 0. */
  lemma AnswerFields(msg: seq<byte>, pos: nat, a: Answer)
    requires Encodable(a) && Holds(msg, pos, AnswerBytes(a))
    ensures var p := pos + |a.name| + 2;
            && p + 10 + |Rdata(a)| <= |msg| && msg[pos..p] == Wire(Split(a.name))
            && U16(msg, p) == a.rtype && U16(msg, p + 2) == a.rclass
            && U32(msg, p + 4) == (if a.ttl < 0x8000_0000 then a.ttl else 0)
            && U16(msg, p + 8) == |Rdata(a)| && msg[p + 10..p + 10 + |Rdata(a)|] == Rdata(a)
  {
    hide Holds, Wire, Fixed, Rdata, Split;
    WireLength(a.name);
    var p := pos + |a.name| + 2;
    HoldsSplit(msg, pos, Wire(Split(a.name)), Fixed(a) + Rdata(a));
    HeldSlice(msg, pos, Wire(Split(a.name)));
    HoldsSplit(msg, p, Fixed(a), Rdata(a));
    HeldFixed(msg, p, a);
    HeldSlice(msg, p + 10, Rdata(a));
  }

  lemma SentExactly(a: Answer)
    requires Encodable(a)
    ensures |a.address| == 16
    ensures var r := Sent(a);
            && r.owner == Split(a.name) && r.rtype == a.rtype && r.rclass == a.rclass
            && r.ttl == (if a.ttl < 0x8000_0000 then a.ttl else 0)
            && r.rdata == if a.rtype == 1 then a.address[..4] else if a.rtype == 28 then a.address else Wire(Split(a.text))
  {
    RdataExactly(a);
  }

  lemma AnswerReads(msg: seq<byte>, pos: nat, a: Answer)
    requires Sendable(a) && Holds(msg, pos, AnswerBytes(a))
    ensures RecordAt(msg, pos) == Some((Sent(a), pos + |AnswerBytes(a)|))
  {
    hide Walk, Holds, Wire, Fixed;
    HoldsSplit(msg, pos, Wire(Split(a.name)), Fixed(a) + Rdata(a));
    HostDecodes(msg, pos, a.name);
    WireLength(a.name);
    var end := pos + |a.name| + 2;
    HoldsSplit(msg, end, Fixed(a), Rdata(a));
    HeldFixed(msg, end, a);
    HeldSlice(msg, end + 10, Rdata(a));
  }

  /** The reference decoder reads a written answer as the record it stands for: the name, type and class handed to the
      writer, its ttl below 2^31 and 0 from there on, and the address or text that the type takes. */
  lemma AnswerDecodes(msg: seq<byte>, pos: nat, a: Answer)
    requires Sendable(a) && Holds(msg, pos, AnswerBytes(a))
    ensures RecordAt(msg, pos) == Some((Sent(a), pos + |AnswerBytes(a)|))
    ensures var r := RecordAt(msg, pos).value.0;
            && r.owner == Split(a.name) && r.rtype == a.rtype && r.rclass == a.rclass
            && r.ttl == (if a.ttl < 0x8000_0000 then a.ttl else 0)
            && r.rdata == if a.rtype == 1 then a.address[..4] else if a.rtype == 28 then a.address else Wire(Split(a.text))
  {
    hide RecordAt, Holds, AnswerBytes, Sent, Split, Wire, LegalLabels;
    AnswerReads(msg, pos, a);
    SentExactly(a);
  }

  lemma WireLength(host: seq<byte>)
    ensures |Wire(Split(host))| == |host| + 2
  {
    SplitLength(host);
  }

  /** The same for each record of a section. */
  lemma SentAllExactly(answers: seq<Answer>)
    requires AllEncodable(answers)
    ensures |SentAll(answers)| == |answers|
    ensures forall i :: 0 <= i < |answers| ==>
              var a, r := answers[i], SentAll(answers)[i];
              && r.owner == Split(a.name) && r.rtype == a.rtype && r.rclass == a.rclass
              && r.ttl == (if a.ttl < 0x8000_0000 then a.ttl else 0)
              && r.rdata == if a.rtype == 1 then a.address[..4] else if a.rtype == 28 then a.address else Wire(Split(a.text))
  {
    hide Wire, Split, Sent, Encodable;
    forall i | 0 <= i < |answers|
      ensures Encodable(answers[i]) && |answers[i].address| == 16
      ensures var a, r := answers[i], Sent(answers[i]);
              && r.owner == Split(a.name) && r.rtype == a.rtype && r.rclass == a.rclass
              && r.ttl == (if a.ttl < 0x8000_0000 then a.ttl else 0)
              && r.rdata == if a.rtype == 1 then a.address[..4] else if a.rtype == 28 then a.address else Wire(Split(a.text))
    {
      SentExactly(answers[i]);
    }
  }

  function SentAll(answers: seq<Answer>): seq<Record>
    requires AllEncodable(answers)
  {
    seq(|answers|, i requires 0 <= i < |answers| => Sent(answers[i]))
  }

  lemma {:induction false} AnswersBytesFront(answers: seq<Answer>)
    requires answers != [] && AllEncodable(answers)
    ensures AnswersBytes(answers) == AnswerBytes(answers[0]) + AnswersBytes(answers[1..])
  {
    hide AnswerBytes, Encodable;
    var n := |answers| - 1;
    if n == 0 {
      assert answers[..0] == [] && answers[1..] == [];
    } else {
      AnswersBytesFront(answers[..n]);
      assert answers[..n][1..] == answers[1..][..n - 1];
      Assoc(AnswerBytes(answers[0]), AnswersBytes(answers[1..][..n - 1]), AnswerBytes(answers[n]));
    }
  }

  /** The reference decoder reads the written answers back, in order, and ends after them. */
  lemma {:induction false} AnswersDecode(msg: seq<byte>, pos: nat, answers: seq<Answer>)
    requires AllSendable(answers) && Holds(msg, pos, AnswersBytes(answers))
    ensures Records(msg, pos, |answers|) == Some((SentAll(answers), pos + |AnswersBytes(answers)|))
    decreases |answers|
  {
    hide Holds, RecordAt, AnswerBytes, Encodable, LegalLabels;
    if answers != [] {
      AnswersBytesFront(answers);
      HoldsSplit(msg, pos, AnswerBytes(answers[0]), AnswersBytes(answers[1..]));
      AnswerDecodes(msg, pos, answers[0]);
      AnswersDecode(msg, pos + |AnswerBytes(answers[0])|, answers[1..]);
      assert SentAll(answers) == [Sent(answers[0])] + SentAll(answers[1..]);
    } else {
      assert SentAll(answers) == [];
    }
  }

  // ----- queries -----

  function HeaderBytes(id: nat, flags: nat, questions: nat, answers: nat): (r: seq<byte>)
    requires id < 0x1_0000 && flags < 0x1_0000 && questions < 0x1_0000 && answers < 0x1_0000
    ensures |r| == 12
  {
    Be16(id) + (Be16(flags) + (Be16(questions) + (Be16(answers) + (Be16(0) + Be16(0)))))
  }

  function QuestionBytes(host: seq<byte>, qtype: nat, qclass: nat): seq<byte>
    requires qtype < 0x1_0000 && qclass < 0x1_0000
  {
    Wire(Split(host)) + (Be16(qtype) + Be16(qclass))
  }

  /** FLAG_QUERY, HTTP_CLASS. */
  function QueryBytes(id: nat, host: seq<byte>, qtype: nat): seq<byte>
    requires id < 0x1_0000 && qtype < 0x1_0000
  {
    HeaderBytes(id, 0x0100, 1, 0) + QuestionBytes(host, qtype, 1)
  }

  lemma HeldHeader(msg: seq<byte>, id: nat, flags: nat, questions: nat, answers: nat)
    requires id < 0x1_0000 && flags < 0x1_0000 && questions < 0x1_0000 && answers < 0x1_0000
    requires Holds(msg, 0, HeaderBytes(id, flags, questions, answers))
    ensures |msg| >= 12
    ensures U16(msg, 0) == id && U16(msg, 2) == flags && U16(msg, 4) == questions && U16(msg, 6) == answers
    ensures U16(msg, 8) == 0 && U16(msg, 10) == 0
  {
    hide Holds, Be16;
    HoldsSplit(msg, 0, Be16(id), Be16(flags) + (Be16(questions) + (Be16(answers) + (Be16(0) + Be16(0)))));
    HoldsSplit(msg, 2, Be16(flags), Be16(questions) + (Be16(answers) + (Be16(0) + Be16(0))));
    HoldsSplit(msg, 4, Be16(questions), Be16(answers) + (Be16(0) + Be16(0)));
    HoldsSplit(msg, 6, Be16(answers), Be16(0) + Be16(0));
    HoldsSplit(msg, 8, Be16(0), Be16(0));
    HeldU16(msg, 0, id);
    HeldU16(msg, 2, flags);
    HeldU16(msg, 4, questions);
    HeldU16(msg, 6, answers);
    HeldU16(msg, 8, 0);
    HeldU16(msg, 10, 0);
  }

  lemma QuestionFromName(msg: seq<byte>, pos: nat, n: Name)
    requires NameAt(msg, pos) == Some(n) && n.end + 4 <= |msg|
    ensures QuestionAt(msg, pos) == Some((Question(n.labels, U16(msg, n.end), U16(msg, n.end + 2)), n.end + 4))
  {
    hide NameAt, U16;
  }

  lemma QuestionDecodes(msg: seq<byte>, pos: nat, host: seq<byte>, qtype: nat, qclass: nat)
    requires qtype < 0x1_0000 && qclass < 0x1_0000 && LegalLabels(Split(host))
    requires Holds(msg, pos, QuestionBytes(host, qtype, qclass))
    ensures QuestionAt(msg, pos) == Some((Question(Split(host), qtype, qclass), pos + |host| + 6))
    ensures NameAt(msg, pos).Some? && !NameAt(msg, pos).value.pointer && NameAt(msg, pos).value.labels == Split(host)
  {
    hide QuestionAt, NameAt, Holds, Wire, Be16, Split, LegalLabels, U16;
    HoldsSplit(msg, pos, Wire(Split(host)), Be16(qtype) + Be16(qclass));
    HostDecodes(msg, pos, host);
    WireLength(host);
    HoldsSplit(msg, pos + |host| + 2, Be16(qtype), Be16(qclass));
    HeldU16(msg, pos + |host| + 2, qtype);
    HeldU16(msg, pos + |host| + 4, qclass);
    QuestionFromName(msg, pos, NameAt(msg, pos).value);
  }

  lemma OneQuestion(msg: seq<byte>, pos: nat)
    requires QuestionAt(msg, pos).Some?
    ensures var (q, end) := QuestionAt(msg, pos).value; Questions(msg, pos, 1) == Some(([q], end))
  {
    var (q, end) := QuestionAt(msg, pos).value;
    assert Questions(msg, end, 0) == Some(([], end));
    assert [q] + [] == [q];
  }

  /** Without authority and additional records the sections are the answers. */
  lemma AnswersOnly(msg: seq<byte>, pos: nat, count: nat)
    requires Records(msg, pos, count).Some?
    ensures var (an, end) := Records(msg, pos, count).value; Sections(msg, pos, count, 0, 0) == Some((an, [], [], end))
  {
  }

  /** A written query is a well formed message asking exactly that question. */
  lemma QueryDecodes(id: nat, host: seq<byte>, qtype: nat)
    requires id < 0x1_0000 && qtype < 0x1_0000 && LegalLabels(Split(host))
    ensures Decode(QueryBytes(id, host, qtype)) == Some(Message(id, 0x0100, [Question(Split(host), qtype, 1)], [], [], []))
  {
    QueryParts(id, host, qtype);
    hide Walk, QuestionAt, NameAt, Holds, QueryBytes, HeaderBytes, QuestionBytes, U16, Sections;
    var msg := QueryBytes(id, host, qtype);
    OneQuestion(msg, 12);
    AnswersOnly(msg, |msg|, 0);
  }

  /** The header fields and the question of a written query. */
  lemma QueryParts(id: nat, host: seq<byte>, qtype: nat)
    requires id < 0x1_0000 && qtype < 0x1_0000 && LegalLabels(Split(host))
    ensures var msg := QueryBytes(id, host, qtype);
            && |msg| == |host| + 18
            && U16(msg, 0) == id && U16(msg, 2) == 0x0100 && U16(msg, 4) == 1 && U16(msg, 6) == 0
            && U16(msg, 8) == 0 && U16(msg, 10) == 0
            && QuestionAt(msg, 12) == Some((Question(Split(host), qtype, 1), |msg|))
            && NameAt(msg, 12).Some? && !NameAt(msg, 12).value.pointer && NameAt(msg, 12).value.labels == Split(host)
  {
    hide Walk, QuestionAt, NameAt, Holds, HeaderBytes, QuestionBytes, U16;
    var msg := QueryBytes(id, host, qtype);
    var header, question := HeaderBytes(id, 0x0100, 1, 0), QuestionBytes(host, qtype, 1);
    HoldsAll(msg);
    HoldsSplit(msg, 0, header, question);
    HeldHeader(msg, id, 0x0100, 1, 0);
    QuestionDecodes(msg, 12, host, qtype, 1);
    QuestionLength(host, qtype, 1);
  }

  lemma QuestionLength(host: seq<byte>, qtype: nat, qclass: nat)
    requires qtype < 0x1_0000 && qclass < 0x1_0000
    ensures |QuestionBytes(host, qtype, qclass)| == |host| + 6
  {
    WireLength(host);
  }

  lemma HoldsAll(msg: seq<byte>)
    ensures Holds(msg, 0, msg)
  {
  }

  method PutU16(buf: array<byte>, pos: nat, v: nat)
    requires v < 0x1_0000 && pos + 2 <= buf.Length
    modifies buf
    ensures Holds(buf[..], pos, Be16(v))
    ensures forall k :: 0 <= k < buf.Length && k != pos && k != pos + 1 ==> buf[k] == old(buf[k])
  {
    buf[pos] := v / 256;
    buf[pos + 1] := v % 256;
  }

  method PutBytes(buf: array<byte>, pos: nat, bytes: seq<byte>)
    requires pos + |bytes| <= buf.Length
    modifies buf
    ensures Holds(buf[..], pos, bytes)
    ensures forall k :: 0 <= k < buf.Length && (k < pos || k >= pos + |bytes|) ==> buf[k] == old(buf[k])
  {
    forall i | 0 <= i < |bytes| {
      buf[pos + i] := bytes[i];
    }
  }

  /** write_dns_question. */
  method WriteQuestion(buf: array<byte>, pos: nat, host: seq<byte>, qclass: nat, qtype: nat) returns (r: int)
    requires qclass < 0x1_0000 && qtype < 0x1_0000
    requires pos + (if |host| < MAX_DNS_SIZE then |host| + 6 else MAX_DNS_SIZE) <= buf.Length
    modifies buf
    ensures r == if |host| < MAX_DNS_SIZE then |host| + 6 else -1
    ensures r != -1 ==> Holds(buf[..], pos, QuestionBytes(host, qtype, qclass))
    ensures forall k :: 0 <= k < pos ==> buf[k] == old(buf[k])
  {
    hide Holds, Wire, Be16, Split;
    r := StrToLabel(buf, pos, host, MAX_DNS_SIZE);
    if r == -1 {
      return -1;
    }
    WireLength(host);
    var at := pos + r as nat;
    ghost var b0 := buf[..];
    PutU16(buf, at + 2, qclass);
    ghost var b1 := buf[..];
    HoldsKept(b0, b1, pos, Wire(Split(host)));
    PutU16(buf, at, qtype);
    ghost var b2 := buf[..];
    HoldsKept(b1, b2, pos, Wire(Split(host)));
    HoldsKept(b1, b2, at + 2, Be16(qclass));
    HoldsJoin(b2, at, Be16(qtype), Be16(qclass));
    HoldsJoin(b2, pos, Wire(Split(host)), Be16(qtype) + Be16(qclass));
    return r + 4;
  }

  /** write_dns_header with a valid id; the id stands for the random one that write_dns_query asks for. */
  method WriteHeader(buf: array<byte>, id: nat, flags: nat, questions: nat, answers: nat)
    requires id < 0x1_0000 && flags < 0x1_0000 && questions < 0x1_0000 && answers < 0x1_0000 && buf.Length >= 12
    modifies buf
    ensures Holds(buf[..], 0, HeaderBytes(id, flags, questions, answers))
  {
    PutBytes(buf, 0, HeaderBytes(id, flags, questions, answers));
  }

  /** write_dns_query.  When the name does not fit, the -1 of write_dns_question is added to the size. */
  method WriteQuery(buf: array<byte>, id: nat, host: seq<byte>, qtype: nat) returns (size: int)
    requires id < 0x1_0000 && qtype < 0x1_0000
    requires 12 + (if |host| < MAX_DNS_SIZE then |host| + 6 else MAX_DNS_SIZE) <= buf.Length
    modifies buf
    ensures size == if |host| < 520 then |QueryBytes(id, host, qtype)| else 11
    ensures |host| < 520 ==> size <= buf.Length && buf[..size] == QueryBytes(id, host, qtype)
  {
    hide QuestionBytes, HeaderBytes, Wire;
    WriteHeader(buf, id, 0x0100, 1, 0);
    ghost var b0 := buf[..];
    size := WriteQuestion(buf, 12, host, 1, qtype);
    size := 12 + size;
    if |host| < MAX_DNS_SIZE {
      QuestionLength(host, qtype, 1);
      HoldsKept(b0, buf[..], 0, HeaderBytes(id, 0x0100, 1, 0));
      HoldsJoin(buf[..], 0, HeaderBytes(id, 0x0100, 1, 0), QuestionBytes(host, qtype, 1));
    }
  }

  // ----- responses -----

  /** A plain name does not depend on the rest of the message. */
  lemma {:induction false} WalkSame(msg: seq<byte>, msg': seq<byte>, pos: nat, start: nat)
    requires Walk(msg, pos, start).Some? && !Walk(msg, pos, start).value.pointer
    requires Walk(msg, pos, start).value.end <= |msg'|
    requires forall k :: pos <= k < Walk(msg, pos, start).value.end ==> msg'[k] == msg[k]
    ensures Walk(msg', pos, start) == Walk(msg, pos, start)
    decreases |msg| - pos
  {
    assert pos < |msg|;
    if msg[pos] == 0 {
      WalkZero(msg, pos, start);
      WalkZero(msg', pos, start);
    } else if msg[pos] < 64 {
      var len := msg[pos] as int;
      WalkLabel(msg, pos, start);
      WalkSame(msg, msg', pos + 1 + len, start);
      WalkLabel(msg', pos, start);
      assert msg'[pos + 1..pos + 1 + len] == msg[pos + 1..pos + 1 + len];
    }
  }

  /** A query the responder can work on: its first question has a plain name.  Whatever follows that question is
      overwritten by the answers. */
  ghost predicate Answerable(query: seq<byte>) {
    |query| >= 12 && QuestionAt(query, 12).Some? && !NameAt(query, 12).value.pointer
  }

  /** Where the first question ends. */
  ghost function AfterQuestion(query: seq<byte>): (p: nat)
    requires Answerable(query)
    ensures 16 <= p <= |query|
  {
    QuestionAt(query, 12).value.1
  }

  /** The query up to its first question, with FLAG_RESPONSE_NORMAL in the flags and the number of answers. */
  ghost function ResponseHead(query: seq<byte>, count: nat): (r: seq<byte>)
    requires Answerable(query) && count < 0x1_0000
    ensures |r| == AfterQuestion(query)
  {
    query[..AfterQuestion(query)][2 := 0x80][3 := 0][6 := count / 256][7 := count % 256]
  }

  ghost function ResponseBytes(query: seq<byte>, answers: seq<Answer>): seq<byte>
    requires Answerable(query) && |answers| < 0x1_0000 && AllEncodable(answers)
  {
    ResponseHead(query, |answers|) + AnswersBytes(answers)
  }

  lemma QuestionKept(query: seq<byte>, msg: seq<byte>)
    requires Answerable(query) && |msg| >= AfterQuestion(query)
    requires forall k :: 12 <= k < AfterQuestion(query) ==> msg[k] == query[k]
    ensures QuestionAt(msg, 12) == QuestionAt(query, 12) && Answerable(msg)
  {
    hide Walk;
    WalkSame(query, msg, 12, 12);
  }

  lemma HeadFields(query: seq<byte>, count: nat)
    requires Answerable(query) && count < 0x1_0000
    ensures var head := ResponseHead(query, count);
            && (forall k :: 12 <= k < |head| ==> head[k] == query[k])
            && U16(head, 0) == U16(query, 0) && U16(head, 2) == 0x8000 && U16(head, 4) == U16(query, 4)
            && U16(head, 6) == count && U16(head, 8) == U16(query, 8) && U16(head, 10) == U16(query, 10)
  {
    hide Answerable, AfterQuestion, QuestionAt;
  }

  /** A header field does not depend on what follows. */
  lemma FieldOfPrefix(a: seq<byte>, b: seq<byte>, pos: nat)
    requires pos + 2 <= |a|
    ensures U16(a + b, pos) == U16(a, pos)
  {
  }

  lemma ResponseHeader(query: seq<byte>, answers: seq<Answer>)
    requires Answerable(query) && |answers| < 0x1_0000 && AllEncodable(answers)
    ensures var msg, p := ResponseBytes(query, answers), AfterQuestion(query);
            && |msg| == p + |AnswersBytes(answers)|
            && (forall k :: 12 <= k < p ==> msg[k] == query[k])
            && U16(msg, 0) == U16(query, 0) && U16(msg, 2) == 0x8000 && U16(msg, 4) == U16(query, 4)
            && U16(msg, 6) == |answers| && U16(msg, 8) == U16(query, 8) && U16(msg, 10) == U16(query, 10)
            && Holds(msg, p, AnswersBytes(answers))
  {
    hide Holds, ResponseHead, AnswersBytes, U16, Encodable;
    var head, rest := ResponseHead(query, |answers|), AnswersBytes(answers);
    HeadFields(query, |answers|);
    FieldOfPrefix(head, rest, 0);
    FieldOfPrefix(head, rest, 2);
    FieldOfPrefix(head, rest, 4);
    FieldOfPrefix(head, rest, 6);
    FieldOfPrefix(head, rest, 8);
    FieldOfPrefix(head, rest, 10);
    HoldsAll(head + rest);
    HoldsSplit(head + rest, 0, head, rest);
  }

  /** No record can be read at the end of a message. */
  lemma NothingAfter(msg: seq<byte>, authority: nat, additional: nat, pos: nat, count: nat)
    requires Records(msg, pos, count).Some? && Records(msg, pos, count).value.1 == |msg|
    ensures Sections(msg, pos, count, authority, additional).Some? <==> authority == 0 && additional == 0
  {
    assert RecordAt(msg, |msg|).None?;
  }

  /** The reference decoder accepts the message exactly when the query declared no authority and no additional
      records, and then reads the query's id and question, the response flags and exactly the answers. */
  ghost predicate ReadsAsResponse(msg: seq<byte>, query: seq<byte>, answers: seq<Answer>)
    requires Answerable(query) && AllEncodable(answers)
  {
    && (Decode(msg).Some? <==> U16(query, 8) == 0 && U16(query, 10) == 0)
    && (Decode(msg).Some? ==>
          Decode(msg) == Some(Message(U16(query, 0), 0x8000, [QuestionAt(query, 12).value.0], SentAll(answers), [], [])))
  }

  /** The response to a query with one question keeps the query's id and question, sets the response flags, and
      carries exactly the answers, in order, up to its last byte; but the counts of authority and additional
      records are the query's, so it is a well formed message exactly when the query declared none of those. */
  lemma ResponseDecodes(query: seq<byte>, answers: seq<Answer>)
    requires Answerable(query) && U16(query, 4) == 1 && |answers| < 0x1_0000 && AllSendable(answers)
    ensures var msg := ResponseBytes(query, answers);
            && Questions(msg, 12, 1) == Some(([QuestionAt(query, 12).value.0], AfterQuestion(query)))
            && Records(msg, AfterQuestion(query), |answers|) == Some((SentAll(answers), |msg|))
    ensures ReadsAsResponse(ResponseBytes(query, answers), query, answers)
  {
    ResponseHeader(query, answers);
    var msg, p := ResponseBytes(query, answers), AfterQuestion(query);
    QuestionKept(query, msg);
    assert QuestionAt(msg, 12).value.1 == p;
    hide Answerable, AfterQuestion, QuestionAt, NameAt, Walk, Holds, U16, ResponseBytes, AnswersBytes, Sections, Sendable, Encodable;
    OneQuestion(msg, 12);
    AnswersDecode(msg, p, answers);
    NothingAfter(msg, U16(query, 8), U16(query, 10), p, |answers|);
    AnswersOnly(msg, p, |answers|);
  }

  /** skip_to_answer. */
  method SkipToAnswer(buf: array<byte>, ghost query: seq<byte>) returns (p: nat)
    requires Answerable(query) && AfterQuestion(query) <= buf.Length
    requires forall k :: 12 <= k < AfterQuestion(query) ==> buf[k] == query[k]
    ensures p == AfterQuestion(query)
  {
    ghost var end := AfterQuestion(query);
    assert NameAt(query, 12).value.end == end - 4;
    hide Walk;
    p := 12;
    while buf[p] != 0
      invariant 12 <= p < end && Walk(query, p, 12).Some? && !Walk(query, p, 12).value.pointer
      invariant Walk(query, p, 12).value.end == end - 4
      decreases end - p
    {
      StepPlain(query, p);
      p := p + buf[p] as int + 1;
    }
    WalkZero(query, p, 12);
    p := p + 5;
  }

  lemma StepPlain(query: seq<byte>, p: nat)
    requires p < |query| && query[p] != 0 && Walk(query, p, 12).Some? && !Walk(query, p, 12).value.pointer
    ensures query[p] < 64 && p + query[p] as int + 1 < Walk(query, p, 12).value.end <= |query|
    ensures var next := Walk(query, p + query[p] as int + 1, 12);
            next.Some? && !next.value.pointer && next.value.end == Walk(query, p, 12).value.end
  {
  }

  /** The room write_dns_answer needs after the fixed part. */
  function RdataRoom(a: Answer): nat {
    if a.rtype == TYPE_A then 4
    else if a.rtype == TYPE_AAAA then 16
    else if a.rtype == TYPE_CNAME then if |a.text| < MAX_DNS_SIZE then |a.text| + 2 else MAX_DNS_SIZE
    else 0
  }

  function Room(a: Answer): nat {
    if |a.name| < MAX_DNS_SIZE then |a.name| + 12 + RdataRoom(a) else MAX_DNS_SIZE
  }

  lemma RoomIsLength(a: Answer)
    requires Encodable(a)
    ensures Room(a) == |AnswerBytes(a)| == |a.name| + 12 + |Rdata(a)|
  {
    hide Wire, Split;
    WireLength(a.name);
  }

  /** The fixed part without its length. */
  function Start(a: Answer): (r: seq<byte>)
    requires InRange(a)
    ensures |r| == 8
  {
    Be16(a.rtype) + (Be16(a.rclass) + Be32(SentTtl(a.ttl)))
  }

  lemma FixedIsStart(a: Answer)
    requires Encodable(a)
    ensures Fixed(a) == Start(a) + Be16(|Rdata(a)|)
  {
  }

  /** The switch of write_dns_answer: the data at pos and its length before it.  The size is -1 for a text that
      is too long, and -2 stands for the return on an unknown type. */
  method WriteRdata(buf: array<byte>, pos: nat, a: Answer) returns (size: int)
    requires InRange(a) && 2 <= pos && pos + RdataRoom(a) <= buf.Length
    modifies buf
    ensures size == if a.rtype == TYPE_A || a.rtype == TYPE_AAAA || (a.rtype == TYPE_CNAME && |a.text| < MAX_DNS_SIZE) then |Rdata(a)|
                    else if a.rtype == TYPE_CNAME then -1 else -2
    ensures size >= 0 ==> |Rdata(a)| < 0x1_0000 && Holds(buf[..], pos - 2, Be16(|Rdata(a)|)) && Holds(buf[..], pos, Rdata(a))
    ensures forall k :: 0 <= k < buf.Length && (k < pos - 2 || (size >= 0 && k >= pos + size)) ==> buf[k] == old(buf[k])
  {
    hide Holds, Wire, Be16, Split;
    if a.rtype == TYPE_A {
      PutU16(buf, pos - 2, 4);
      ghost var b := buf[..];
      PutBytes(buf, pos, a.address[..4]);
      HoldsKept(b, buf[..], pos - 2, Be16(4));
      return 4;
    } else if a.rtype == TYPE_AAAA {
      PutU16(buf, pos - 2, 16);
      ghost var b := buf[..];
      PutBytes(buf, pos, a.address);
      HoldsKept(b, buf[..], pos - 2, Be16(16));
      return 16;
    } else if a.rtype == TYPE_CNAME {
      WireLength(a.text);
      size := StrToLabel(buf, pos, a.text, MAX_DNS_SIZE);
      ghost var b := buf[..];
      PutU16(buf, pos - 2, size % 0x1_0000);
      if size >= 0 {
        HoldsKept(b, buf[..], pos, Wire(Split(a.text)));
      }
      return size;
    }
    return -2;
  }

  /** write_dns_answer: the length of what was written, or -1 when the name is too long or the type unknown.  The
      -1 of a CNAME text that is too long is added to the length instead. */
  method WriteAnswer(buf: array<byte>, pos: nat, a: Answer) returns (r: int)
    requires InRange(a) && pos + Room(a) <= buf.Length
    modifies buf
    ensures r == if Encodable(a) then |AnswerBytes(a)|
                 else if |a.name| < MAX_DNS_SIZE && a.rtype == TYPE_CNAME then |a.name| + 11 else -1
    ensures r == -1 <==> |a.name| >= 520 || (a.rtype != 1 && a.rtype != 28 && a.rtype != 5)
    ensures Encodable(a) ==> pos + r <= buf.Length && Holds(buf[..], pos, AnswerBytes(a))
    ensures Encodable(a) ==>
              && U16(buf[..], pos + r - |Rdata(a)| - 10) == a.rtype && U16(buf[..], pos + r - |Rdata(a)| - 8) == a.rclass
              && U32(buf[..], pos + r - |Rdata(a)| - 6) == (if a.ttl < 0x8000_0000 then a.ttl else 0)
              && U16(buf[..], pos + r - |Rdata(a)| - 2) == |Rdata(a)|
    ensures forall k :: 0 <= k < buf.Length && (k < pos || (Encodable(a) && k >= pos + r)) ==> buf[k] == old(buf[k])
  {
    hide Holds, Wire, Be16, Be32, Split, Fixed, Rdata, Start, AnswerBytes;
    WireLength(a.name);
    r := StrToLabel(buf, pos, a.name, MAX_DNS_SIZE);
    if r == -1 {
      return -1;
    }
    ghost var b0 := buf[..];
    PutBytes(buf, pos + r, Start(a));
    ghost var b1 := buf[..];
    HoldsKept(b0, b1, pos, Wire(Split(a.name)));
    var size := WriteRdata(buf, pos + r + 10, a);
    if Encodable(a) {
      RoomIsLength(a);
      JoinAnswer(b1, buf[..], pos, a);
      AnswerFields(buf[..], pos, a);
    }
    if size == -2 {
      return -1;
    }
    return r + 10 + size;
  }

  /** Name and fixed part as they stood before the data was written, then its length and the data itself. */
  lemma JoinAnswer(b1: seq<byte>, b2: seq<byte>, pos: nat, a: Answer)
    requires Encodable(a) && |b1| == |b2|
    requires Holds(b1, pos, Wire(Split(a.name))) && Holds(b1, pos + |a.name| + 2, Start(a))
    requires Holds(b2, pos + |a.name| + 10, Be16(|Rdata(a)|)) && Holds(b2, pos + |a.name| + 12, Rdata(a))
    requires forall k :: 0 <= k < |b1| && k < pos + |a.name| + 10 ==> b2[k] == b1[k]
    ensures Holds(b2, pos, AnswerBytes(a))
  {
    hide Holds, Wire, Fixed, Rdata, Split, Start, Be16;
    WireLength(a.name);
    FixedIsStart(a);
    HoldsBound(b1, pos + |a.name| + 2, Start(a));
    HoldsKept(b1, b2, pos, Wire(Split(a.name)));
    HoldsKept(b1, b2, pos + |a.name| + 2, Start(a));
    HoldsJoin(b2, pos + |a.name| + 2, Start(a), Be16(|Rdata(a)|));
    HoldsJoin(b2, pos + |a.name| + 2, Fixed(a), Rdata(a));
    HoldsJoin(b2, pos, Wire(Split(a.name)), Fixed(a) + Rdata(a));
  }

  lemma {:induction false} AnswersBytesPrefix(answers: seq<Answer>, i: nat)
    requires AllEncodable(answers) && i <= |answers|
    ensures AllEncodable(answers[..i]) && |AnswersBytes(answers[..i])| <= |AnswersBytes(answers)|
    ensures i < |answers| ==> AnswersBytes(answers[..i + 1]) == AnswersBytes(answers[..i]) + AnswerBytes(answers[i])
    decreases |answers| - i
  {
    hide AnswerBytes, Encodable;
    if i < |answers| {
      AnswersBytesPrefix(answers, i + 1);
      assert answers[..i + 1][..i] == answers[..i];
    } else {
      assert answers[..i] == answers;
    }
  }

  /** The loop of write_dns_response_by_query. */
  method WriteAnswers(buf: array<byte>, pos: nat, answers: seq<Answer>) returns (data: nat)
    requires AllEncodable(answers) && pos + |AnswersBytes(answers)| <= buf.Length
    modifies buf
    ensures data == pos + |AnswersBytes(answers)| && Holds(buf[..], pos, AnswersBytes(answers))
    ensures forall k :: 0 <= k < pos ==> buf[k] == old(buf[k])
  {
    hide AnswerBytes, Holds, Encodable;
    data := pos;
    StartHoldsAnswers(buf[..], pos, answers);
    for i := 0 to |answers|
      invariant AllEncodable(answers[..i]) && data == pos + |AnswersBytes(answers[..i])| <= buf.Length
      invariant Holds(buf[..], pos, AnswersBytes(answers[..i]))
      invariant forall k :: 0 <= k < pos ==> buf[k] == old(buf[k])
    {
      AnswersBytesPrefix(answers, i);
      AnswersBytesPrefix(answers, i + 1);
      ghost var before, part := buf[..], AnswersBytes(answers[..i]);
      var count := WriteOne(buf, data, answers[i]);
      HoldsKept(before, buf[..], pos, part);
      HoldsJoin(buf[..], pos, part, AnswerBytes(answers[i]));
      data := data + count;
    }
    assert answers[..|answers|] == answers;
  }

  lemma StartHoldsAnswers(buf: seq<byte>, pos: nat, answers: seq<Answer>)
    requires pos <= |buf| && AllEncodable(answers)
    ensures AllEncodable(answers[..0]) && AnswersBytes(answers[..0]) == [] && Holds(buf, pos, AnswersBytes(answers[..0]))
  {
  }

  /** write_dns_answer on an answer it accepts. */
  method WriteOne(buf: array<byte>, pos: nat, a: Answer) returns (r: nat)
    requires Encodable(a) && pos + |AnswerBytes(a)| <= buf.Length
    modifies buf
    ensures r == |AnswerBytes(a)| && Holds(buf[..], pos, AnswerBytes(a))
    ensures forall k :: 0 <= k < buf.Length && (k < pos || k >= pos + r) ==> buf[k] == old(buf[k])
  {
    RoomIsLength(a);
    hide AnswerBytes, Holds, Room, Rdata;
    r := WriteAnswer(buf, pos, a);
  }

  lemma JoinResponse(buf: seq<byte>, query: seq<byte>, answers: seq<Answer>)
    requires Answerable(query) && |answers| < 0x1_0000 && AllEncodable(answers) && AfterQuestion(query) <= |buf|
    requires buf[..AfterQuestion(query)] == ResponseHead(query, |answers|)
    requires Holds(buf, AfterQuestion(query), AnswersBytes(answers))
    ensures var size := AfterQuestion(query) + |AnswersBytes(answers)|;
            size <= |buf| && buf[..size] == ResponseBytes(query, answers)
  {
    hide Answerable, AfterQuestion, ResponseHead, AnswersBytes, Encodable;
    var p, size := AfterQuestion(query), AfterQuestion(query) + |AnswersBytes(answers)|;
    HeldSlice(buf, p, AnswersBytes(answers));
    assert buf[..size] == buf[..p] + buf[p..size];
  }

  /** The header writes of write_dns_response_by_query. */
  method MarkResponse(buf: array<byte>, ghost query: seq<byte>, count: nat)
    requires Answerable(query) && count < 0x1_0000 && |query| <= buf.Length && Holds(buf[..], 0, query)
    modifies buf
    ensures AfterQuestion(query) <= buf.Length && buf[..AfterQuestion(query)] == ResponseHead(query, count)
    ensures forall k :: 12 <= k < AfterQuestion(query) ==> buf[k] == query[k]
  {
    hide Answerable, AfterQuestion;
    ghost var p := AfterQuestion(query);
    assert buf[..|query|][..p] == query[..p];
    assert buf[..p] == query[..p];
    buf[2], buf[3] := 0x80, 0;
    buf[6], buf[7] := count / 256, count % 256;
    assert buf[..p] == query[..p][2 := 0x80][3 := 0][6 := count / 256][7 := count % 256];
    forall k | 12 <= k < p ensures buf[k] == query[k] {
      assert buf[..p][k] == query[..p][k];
    }
  }

  /** write_dns_response_by_query as bytes: the marked header, the first question, and the answers after it. */
  method WriteAfterQuestion(buf: array<byte>, ghost query: seq<byte>, answers: seq<Answer>) returns (size: nat)
    requires Answerable(query) && Holds(buf[..], 0, query)
    requires |answers| < 0x1_0000 && AllEncodable(answers) && AfterQuestion(query) + |AnswersBytes(answers)| <= buf.Length
    modifies buf
    ensures size <= buf.Length && buf[..size] == ResponseBytes(query, answers)
  {
    assert |query| <= buf.Length;
    hide Answerable, AfterQuestion, AnswersBytes, ResponseHead, ResponseBytes, AllEncodable, Holds;
    MarkResponse(buf, query, |answers|);
    ghost var p, head := AfterQuestion(query), buf[..AfterQuestion(query)];
    var data := SkipToAnswer(buf, query);
    size := WriteAnswers(buf, data, answers);
    assert buf[..p] == head;
    JoinResponse(buf[..], query, answers);
  }

  /** write_dns_response_by_query, in the buffer that holds the query, for every query whose first question has a
      plain name.  The answers follow that question, and the size is the exact message length.  For a query with
      one question a receiver that follows the RFC reads the same id, the same question and exactly these
      answers, if and only if the query declared no authority and no additional records. */
  method WriteResponse(buf: array<byte>, ghost query: seq<byte>, answers: seq<Answer>) returns (size: nat)
    requires Answerable(query) && Holds(buf[..], 0, query)
    requires |answers| < 0x1_0000 && AllEncodable(answers) && AfterQuestion(query) + |AnswersBytes(answers)| <= buf.Length
    modifies buf
    ensures size <= buf.Length && buf[..size] == ResponseBytes(query, answers)
    ensures AllSendable(answers) && U16(query, 4) == 1 ==> ReadsAsResponse(buf[..size], query, answers)
  {
    if AllSendable(answers) && U16(query, 4) == 1 {
      ResponseDecodes(query, answers);
    }
    hide Answerable, AfterQuestion, AnswersBytes, ResponseBytes, ReadsAsResponse, AllEncodable, AllSendable, Holds;
    size := WriteAfterQuestion(buf, query, answers);
  }
}
