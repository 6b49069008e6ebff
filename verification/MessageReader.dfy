/** Reading questions and answers: read_dns_question(s) and read_dns_answer(s) of src/common.c, against the
    reference decoder. */
module MessageReader {
  import opened Addresses
  import opened Options
  import opened Rfc1035
  import opened Names
  import opened NameCodec

  /** MAX_NAME_LENGTH: the room for a name in struct question and struct answer. */
  const MAX_NAME_LENGTH: nat := 256

  /** A struct question; `name` is the whole character array. */
  datatype QuestionText = QuestionText(name: seq<byte>, qtype: nat, qclass: nat)

  /** A struct answer; `rdata` are the bytes copied to the address, none for types that are not kept, and `address`
      is the address as it then stands. */
  datatype Answer = Answer(name: seq<byte>, rtype: nat, rclass: nat, ttl: nat, rdata: seq<byte>, address: Address)

  /** The array holds the text and a terminator. */
  ghost predicate IsText(buf: seq<byte>, text: seq<byte>) {
    |text| < |buf| && buf[..|text|] == text && buf[|text|] == 0
  }

  /** A name that can be read into a character array. */
  ghost predicate Readable(msg: seq<byte>, pos: nat) {
    && |msg| <= 32767 && NameAt(msg, pos).Some?
    && 1 <= |WithDots(NameAt(msg, pos).value.labels)| <= MAX_NAME_LENGTH
  }

  lemma ReadableLabels(msg: seq<byte>, pos: nat)
    requires Readable(msg, pos)
    ensures NameAt(msg, pos).value.labels != []
  {
  }

  lemma WrittenIsText(buf: seq<byte>, buf0: seq<byte>, labels: seq<seq<byte>>)
    requires labels != [] && Written(buf, buf0, 0, WithDots(labels))
    ensures IsText(buf, Dotted(labels))
  {
    DottedIsWithDots(labels);
    hide WithDots, Dotted;
    var text := WithDots(labels);
    assert text[..|text| - 1] == Dotted(labels);
    HeldSlice(buf, 0, Dotted(labels));
  }

  /** The name part of the readers: fetch_label into a fresh array. */
  method FetchName(msg: seq<byte>, src: nat) returns (name: seq<byte>, n: int, next: nat)
    requires Readable(msg, src)
    ensures NameAt(msg, src).value.labels != [] && IsText(name, Dotted(NameAt(msg, src).value.labels))
    ensures n == TailAt(msg, src) - 1 && next == FieldsAt(NameAt(msg, src).value)
  {
    hide NameAt, Written, IsText, TailAt;
    ReadableLabels(msg, src);
    var buf := new byte[MAX_NAME_LENGTH];
    ghost var before := buf[..];
    n, next := FetchBackward(buf, 0, msg, src);
    WrittenIsText(buf[..], before, NameAt(msg, src).value.labels);
    name := buf[..];
  }

  /** Where the readers take the fixed fields to start: right after a pointer, but at the zero byte of a
      plain name, one byte before the fields. */
  function FieldsAt(n: Name): nat {
    if n.pointer || n.end == 0 then n.end else n.end - 1
  }

  /** read_dns_question: the type and class are taken from FieldsAt, and the length is one more than the
      distance to it; or -1 when the last segment of the name is empty. */
  method ReadQuestion(msg: seq<byte>, src: nat) returns (q: QuestionText, len: int)
    requires Readable(msg, src)
    requires TailAt(msg, src) > 0 ==> FieldsAt(NameAt(msg, src).value) + 4 <= |msg|
    ensures var n := NameAt(msg, src).value;
            && IsText(q.name, Dotted(n.labels))
            && (TailAt(msg, src) == 0 ==> len == -1)
            && (TailAt(msg, src) > 0 ==>
                  && q.qtype == U16(msg, FieldsAt(n)) && q.qclass == U16(msg, FieldsAt(n) + 2)
                  && src + len == FieldsAt(n) + 1)
            && (TailAt(msg, src) > 0 && n.pointer ==> q.qtype == U16(msg, n.end) && q.qclass == U16(msg, n.end + 2) && src + len == n.end + 1)
            && (TailAt(msg, src) > 0 && !n.pointer ==> q.qtype == U16(msg, n.end - 1) && q.qclass == U16(msg, n.end + 1) && src + len == n.end)
  {
    ghost var n := NameAt(msg, src).value;
    assert FieldsAt(n) == if n.pointer then n.end else n.end - 1;
    hide NameAt, IsText, FieldsAt, TailAt;
    var name, r, next := FetchName(msg, src);
    if r < 0 {
      return QuestionText(name, 0, 0), -1;
    }
    q := QuestionText(name, U16(msg, next), U16(msg, next + 2));
    len := next - src + 1;
  }

  /** Where read_dns_questions reads the type and class again: one past FieldsAt, which is right after a plain
      name and one byte late after a pointer; or the last header byte when the last segment is empty. */
  ghost function QuestionFieldsAt(msg: seq<byte>): nat
    requires NameAt(msg, 12).Some?
  {
    if TailAt(msg, 12) == 0 then 11 else FieldsAt(NameAt(msg, 12).value) + 1
  }

  /** read_dns_questions: the name of the first question, its type and class from QuestionFieldsAt, and the count
      of the header.  For a plain name the result is the question of section 4.1.2. */
  method ReadQuestions(msg: seq<byte>) returns (q: QuestionText, count: nat)
    requires Readable(msg, 12) && QuestionFieldsAt(msg) + 4 <= |msg|
    ensures count == U16(msg, 4) && IsText(q.name, Dotted(NameAt(msg, 12).value.labels))
    ensures q.qtype == U16(msg, QuestionFieldsAt(msg)) && q.qclass == U16(msg, QuestionFieldsAt(msg) + 2)
    ensures TailAt(msg, 12) == 0 ==> q.qtype == U16(msg, 11) && q.qclass == U16(msg, 13)
    ensures var n := NameAt(msg, 12).value;
            n.pointer && TailAt(msg, 12) > 0 ==> n.end + 5 <= |msg| && q.qtype == U16(msg, n.end + 1) && q.qclass == U16(msg, n.end + 3)
    ensures !NameAt(msg, 12).value.pointer ==>
              && QuestionAt(msg, 12).Some?
              && var asked := QuestionAt(msg, 12).value.0;
                 asked.name != [] && IsText(q.name, Dotted(asked.name)) && q.qtype == asked.qtype && q.qclass == asked.qclass
  {
    ReadableLabels(msg, 12);
    if !NameAt(msg, 12).value.pointer {
      PlainTail(msg, 12, 12);
    }
    hide IsText, Walk, TailAt;
    var len;
    q, len := ReadQuestion(msg, 12);
    var data := 12 + len;
    q := q.(qclass := U16(msg, data + 2), qtype := U16(msg, data));
    count := U16(msg, 4);
  }

  /** A plain name is its own last segment. */
  lemma {:induction false} PlainTail(msg: seq<byte>, pos: nat, start: nat)
    requires Walk(msg, pos, start).Some? && !Walk(msg, pos, start).value.pointer
    ensures Tail(msg, pos, start) == |WithDots(Walk(msg, pos, start).value.labels)|
    decreases |msg| - pos
  {
    assert pos < |msg|;
    if msg[pos] == 0 {
      WalkZero(msg, pos, start);
    } else if msg[pos] < 64 {
      WalkLabel(msg, pos, start);
      PlainTail(msg, pos + 1 + msg[pos] as int, start);
      var n := Walk(msg, pos, start).value;
      assert n.labels == [n.labels[0]] + n.labels[1..];
    }
  }

  // ----- answers -----

  /** The types read_dns_answer keeps. */
  predicate Wanted(rtype: nat) { rtype == TYPE_A || rtype == TYPE_AAAA }

  /** The room in struct answer from the address to its type field. */
  const ANSWER_ROOM: nat := 288

  /** The bytes the reader will touch are inside the message, and what it copies stays before the other fields. */
  ghost predicate FieldsInside(msg: seq<byte>, at: nat) {
    && at + 10 <= |msg|
    && (Wanted(U16(msg, at)) ==> U16(msg, at + 8) <= ANSWER_ROOM && at + 10 + U16(msg, at + 8) <= |msg|)
  }

  /** read_dns_answer can be applied here. */
  ghost predicate Acceptable(msg: seq<byte>, src: nat) {
    Readable(msg, src) && (TailAt(msg, src) > 0 ==> FieldsInside(msg, FieldsAt(NameAt(msg, src).value)))
  }

  /** The record as read_dns_answer sees it; `rdata` only for the types it keeps. */
  ghost function SeenAt(msg: seq<byte>, src: nat): Record
    requires Acceptable(msg, src) && TailAt(msg, src) > 0
  {
    var n := NameAt(msg, src).value;
    var at := FieldsAt(n);
    var rtype := U16(msg, at);
    Record(n.labels, rtype, U16(msg, at + 2), U32(msg, at + 4),
           if Wanted(rtype) then msg[at + 10..at + 10 + U16(msg, at + 8)] else [])
  }

  /** Where the reader goes on. */
  ghost function SeenEnd(msg: seq<byte>, src: nat): int
    requires Acceptable(msg, src)
  {
    if TailAt(msg, src) == 0 then src - 1
    else
      var at := FieldsAt(NameAt(msg, src).value);
      at + 10 + U16(msg, at + 8)
  }

  /** The struct answer holds the record. */
  ghost predicate Matches(a: Answer, r: Record) {
    && r.owner != [] && IsText(a.name, Dotted(r.owner))
    && a.rtype == r.rtype && a.rclass == r.rclass && a.ttl == r.ttl && a.rdata == r.rdata
  }

  /** The type the reader takes from a record: its own after a pointer, its high byte after a plain owner name,
      where the reader starts one byte early. */
  lemma KeptExactly(msg: seq<byte>, pos: nat)
    requires RecordAt(msg, pos).Some?
    ensures NameAt(msg, pos).Some? && FieldsAt(NameAt(msg, pos).value) + 2 <= |msg|
    ensures var n, r := NameAt(msg, pos).value, RecordAt(msg, pos).value.0;
            U16(msg, FieldsAt(n)) == if n.pointer then r.rtype else r.rtype / 256
  {
    var n := NameAt(msg, pos).value;
    if !n.pointer {
      PlainEndsInZero(msg, pos, pos);
    }
  }

  /** What the reader sees of a record with a plain owner name: every field one byte early, so each begins with the last
      byte of what stands before it, and the length that it steps over has the last byte of the ttl on top. */
  lemma PlainIsShifted(msg: seq<byte>, pos: nat)
    requires Acceptable(msg, pos) && TailAt(msg, pos) > 0 && RecordAt(msg, pos).Some? && !NameAt(msg, pos).value.pointer
    ensures var (r, end) := RecordAt(msg, pos).value;
            var seen := SeenAt(msg, pos);
            && seen.owner == r.owner && seen.rtype == r.rtype / 256
            && seen.rclass == r.rtype % 256 * 256 + r.rclass / 256
            && seen.ttl == r.rclass % 256 * 0x100_0000 + r.ttl / 256
            && SeenEnd(msg, pos) == end - |r.rdata| - 1 + r.ttl % 256 * 256 + |r.rdata| / 256
  {
    PlainEndsInZero(msg, pos, pos);
    hide Walk, TailAt, Readable;
    var at := NameAt(msg, pos).value.end;
    ShiftedFields(msg, at);
  }

  lemma ShiftedFields(msg: seq<byte>, at: nat)
    requires 1 <= at && at + 10 <= |msg| && msg[at - 1] == 0
    ensures U16(msg, at - 1) == U16(msg, at) / 256
    ensures U16(msg, at + 1) == U16(msg, at) % 256 * 256 + U16(msg, at + 2) / 256
    ensures U32(msg, at + 3) == U16(msg, at + 2) % 256 * 0x100_0000 + U32(msg, at + 4) / 256
    ensures U16(msg, at + 7) == U32(msg, at + 4) % 256 * 256 + U16(msg, at + 8) / 256
  {
  }

  /** read_dns_answer by its own account: fields from FieldsAt, `good` for the types it keeps, and the distance past
      the data; or -1 when the last segment of the owner name is empty. */
  method ReadSeen(msg: seq<byte>, src: nat, before: Address) returns (a: Answer, good: bool, len: int)
    requires Acceptable(msg, src)
    ensures a.address == if good then Overlay(before, a.rdata) else before
    ensures src + len == SeenEnd(msg, src)
    ensures TailAt(msg, src) == 0 ==> !good && len == -1
    ensures TailAt(msg, src) > 0 ==> Matches(a, SeenAt(msg, src)) && (good <==> Wanted(SeenAt(msg, src).rtype))
  {
    hide NameAt, IsText, FieldsAt, TailAt, U32;
    good := false;
    var name, cnt, at := FetchName(msg, src);
    if cnt == -1 {
      return Answer(name, 0, 0, 0, [], before), false, -1;
    }
    var length := U16(msg, at + 8);
    a := Answer(name, U16(msg, at), U16(msg, at + 2), U32(msg, at + 4), [], before);
    if a.rtype == TYPE_A || a.rtype == TYPE_AAAA {
      var data := msg[at + 10..at + 10 + length];
      a := a.(rdata := data, address := Overlay(before, data));
      good := true;
    }
    len := at + 10 + length - src;
  }

  /** read_dns_answer against the message format: on a record of section 4.1.3 it is good exactly when the last
      segment of the owner name is not empty and the type read is an address: for a compressed owner the record's
      own type, for a plain one its high byte. */
  method ReadAnswer(msg: seq<byte>, src: nat, before: Address) returns (a: Answer, good: bool, len: int)
    requires Acceptable(msg, src)
    ensures a.address == if good then Overlay(before, a.rdata) else before
    ensures src + len == SeenEnd(msg, src)
    ensures TailAt(msg, src) == 0 ==> !good && len == -1
    ensures TailAt(msg, src) > 0 ==> Matches(a, SeenAt(msg, src)) && (good <==> Wanted(SeenAt(msg, src).rtype))
    ensures RecordAt(msg, src).Some? ==>
              var n, r := NameAt(msg, src).value, RecordAt(msg, src).value.0;
              good <==> TailAt(msg, src) > 0 && Wanted(if n.pointer then r.rtype else r.rtype / 256)
  {
    if RecordAt(msg, src).Some? {
      KeptExactly(msg, src);
    }
    hide NameAt, IsText, FieldsAt, TailAt, RecordAt, Matches, SeenEnd, FieldsInside, U16, U32;
    a, good, len := ReadSeen(msg, src, before);
  }

  /** Of the address records, exactly those with a compressed owner are read as addresses. */
  lemma KeptExactlyWhenCompressed(msg: seq<byte>, pos: nat)
    requires RecordAt(msg, pos).Some? && Wanted(RecordAt(msg, pos).value.0.rtype)
    ensures NameAt(msg, pos).Some? && FieldsAt(NameAt(msg, pos).value) + 2 <= |msg|
    ensures Wanted(U16(msg, FieldsAt(NameAt(msg, pos).value))) <==> NameAt(msg, pos).value.pointer
  {
    KeptExactly(msg, pos);
  }

  /** A record of type 257 with a plain owner name and no data. */
  const CAA_RECORD: seq<byte> := [1, 97, 0, 1, 1, 0, 1, 0, 0, 0, 0, 0, 0]

  lemma CaaOwner()
    ensures NameAt(CAA_RECORD, 0) == Some(Name([[97]], 3, false)) && TailAt(CAA_RECORD, 0) == 2
    ensures WithDots(NameAt(CAA_RECORD, 0).value.labels) == [97, DOT]
  {
    var msg := CAA_RECORD;
    WalkZero(msg, 2, 0);
    WalkLabel(msg, 0, 0);
    var l: seq<byte> := [97];
    assert msg[0 + 1..0 + 1 + msg[0] as int] == l && [l] + [] == [l];
    WithDotsOne(l);
    PlainTail(msg, 0, 0);
  }

  /** So a record that is no address can be kept as one that was never sent: the type 257 record is seen as an A
      record of class 256. */
  lemma InventedRecord()
    ensures RecordAt(CAA_RECORD, 0) == Some((Record([[97]], 257, 1, 0, []), 13))
    ensures Acceptable(CAA_RECORD, 0) && TailAt(CAA_RECORD, 0) > 0
    ensures SeenAt(CAA_RECORD, 0) == Record([[97]], TYPE_A, 256, 0x0100_0000, [])
  {
    CaaOwner();
    hide NameAt, TailAt, WithDots;
    assert CAA_RECORD[13..13] == [] && CAA_RECORD[12..12] == [];
  }

  /** A record whose owner name ends in a pointer to a non-empty label, as compressing servers send. */
  ghost predicate Compressed(msg: seq<byte>, pos: nat) {
    && Readable(msg, pos) && RecordAt(msg, pos).Some?
    && NameAt(msg, pos).value.pointer && TailAt(msg, pos) > 0
    && (Wanted(RecordAt(msg, pos).value.0.rtype) ==> |RecordAt(msg, pos).value.0.rdata| <= ANSWER_ROOM)
  }

  /** Of a compressed record the reader sees everything but the data of types it does not keep, and it goes on at
      the next record. */
  lemma SeenCompressed(msg: seq<byte>, pos: nat)
    requires Compressed(msg, pos)
    ensures Acceptable(msg, pos)
    ensures var (r, end) := RecordAt(msg, pos).value;
            SeenEnd(msg, pos) == end && SeenAt(msg, pos) == if Wanted(r.rtype) then r else r.(rdata := [])
  {
    hide Walk, TailAt;
  }

  /** On a compressed record the reader steps to the next record, and keeps it exactly when it is an address. */
  method ReadCompressed(msg: seq<byte>, src: nat, before: Address) returns (a: Answer, good: bool, len: int)
    requires Compressed(msg, src)
    ensures var (r, end) := RecordAt(msg, src).value;
            src + len == end && (good <==> Wanted(r.rtype)) && (good ==> Matches(a, r) && a.address == Overlay(before, r.rdata))
  {
    SeenCompressed(msg, src);
    hide NameAt, TailAt, RecordAt, Acceptable, SeenAt, SeenEnd, Matches;
    a, good, len := ReadAnswer(msg, src, before);
  }

  lemma {:induction false} PlainEndsInZero(msg: seq<byte>, pos: nat, start: nat)
    requires Walk(msg, pos, start).Some? && !Walk(msg, pos, start).value.pointer
    ensures msg[Walk(msg, pos, start).value.end - 1] == 0
    decreases |msg| - pos
  {
    assert pos < |msg|;
    if msg[pos] == 0 {
      WalkZero(msg, pos, start);
    } else if msg[pos] < 64 {
      WalkLabel(msg, pos, start);
      PlainEndsInZero(msg, pos + 1 + msg[pos] as int, start);
    }
  }

  // ----- whole answer sections -----

  /** The address records, in order. */
  function AddressRecords(rs: seq<Record>): seq<Record> {
    if rs == [] then []
    else if Wanted(rs[0].rtype) then [rs[0]] + AddressRecords(rs[1..])
    else AddressRecords(rs[1..])
  }

  /** They are chosen one by one ... */
  lemma {:induction false} AddressRecordsConcat(a: seq<Record>, b: seq<Record>)
    ensures AddressRecords(a + b) == AddressRecords(a) + AddressRecords(b)
  {
    if a == [] {
      assert a + b == b;
    } else {
      assert (a + b)[1..] == a[1..] + b;
      AddressRecordsConcat(a[1..], b);
    }
  }

  /** ... each by its own type alone, 1 or 28. */
  lemma AddressRecordsOne(r: Record)
    ensures AddressRecords([r]) == if r.rtype == 1 || r.rtype == 28 then [r] else []
  {
    assert [r][1..] == [];
  }

  /** `count` questions with plain names start here, and end at `end`. */
  ghost predicate PlainQuestions(msg: seq<byte>, pos: nat, count: nat, end: nat)
    decreases count
  {
    if count == 0 then pos == end
    else
      && QuestionAt(msg, pos).Some? && !NameAt(msg, pos).value.pointer
      && PlainQuestions(msg, QuestionAt(msg, pos).value.1, count - 1, end)
  }

  /** Every position the answer loop comes to can be read. */
  ghost predicate Scannable(msg: seq<byte>, pos: int, count: nat)
    decreases count
  {
    count == 0 || (pos >= 0 && Acceptable(msg, pos) && Scannable(msg, SeenEnd(msg, pos), count - 1))
  }

  /** The records that the answer loop keeps, whatever the owner names. */
  ghost function Scan(msg: seq<byte>, pos: int, count: nat): (r: seq<Record>)
    requires Scannable(msg, pos, count)
    ensures |r| <= count
    decreases count
  {
    if count == 0 then []
    else
      (if TailAt(msg, pos) > 0 && Wanted(SeenAt(msg, pos).rtype) then [SeenAt(msg, pos)] else [])
      + Scan(msg, SeenEnd(msg, pos), count - 1)
  }

  ghost predicate CompressedRecords(msg: seq<byte>, pos: nat, count: nat)
    decreases count
  {
    count == 0 || (Compressed(msg, pos) && CompressedRecords(msg, RecordAt(msg, pos).value.1, count - 1))
  }

  /** On compressed records the loop keeps exactly the address records of the section, in order. */
  lemma {:induction false} ScanOfCompressed(msg: seq<byte>, pos: nat, count: nat)
    requires CompressedRecords(msg, pos, count)
    ensures Records(msg, pos, count).Some? && Scannable(msg, pos, count)
    ensures Scan(msg, pos, count) == AddressRecords(Records(msg, pos, count).value.0)
    decreases count
  {
    hide Acceptable, SeenAt, SeenEnd, RecordAt;
    if count > 0 {
      SeenCompressed(msg, pos);
      var (r, next) := RecordAt(msg, pos).value;
      ScanOfCompressed(msg, next, count - 1);
      var rest := Records(msg, next, count - 1).value.0;
      assert ([r] + rest)[1..] == rest;
    }
  }

  /** The loop that steps over a plain question name and its fixed part. */
  method SkipQuestion(msg: seq<byte>, pos: nat) returns (next: nat)
    requires QuestionAt(msg, pos).Some? && !NameAt(msg, pos).value.pointer
    ensures next == QuestionAt(msg, pos).value.1
  {
    ghost var end := NameAt(msg, pos).value.end;
    next := pos;
    while msg[next] != 0
      invariant next < |msg| && Walk(msg, next, pos).Some? && !Walk(msg, next, pos).value.pointer
      invariant Walk(msg, next, pos).value.end == end
      decreases |msg| - next
    {
      WalkLabel(msg, next, pos);
      next := next + msg[next] as int + 1;
    }
    WalkZero(msg, next, pos);
    next := next + 5;
  }

  method SkipQuestions(msg: seq<byte>, count: nat, ghost end: nat) returns (data: nat)
    requires PlainQuestions(msg, 12, count, end)
    ensures data == end
  {
    hide QuestionAt, NameAt;
    data := 12;
    for i := 0 to count
      invariant PlainQuestions(msg, data, count - i, end)
    {
      data := SkipQuestion(msg, data);
    }
  }

  /** Where the answer loop stands after some rounds. */
  ghost function AfterRounds(msg: seq<byte>, pos: int, rounds: nat): int
    requires Scannable(msg, pos, rounds)
    decreases rounds
  {
    if rounds == 0 then pos else AfterRounds(msg, SeenEnd(msg, pos), rounds - 1)
  }

  /** The records kept in the first rounds and in the others. */
  lemma {:induction false} ScanSplit(msg: seq<byte>, pos: int, count: nat, i: nat)
    requires Scannable(msg, pos, count) && i <= count
    ensures Scannable(msg, pos, i) && Scannable(msg, AfterRounds(msg, pos, i), count - i)
    ensures Scan(msg, pos, count) == Scan(msg, pos, i) + Scan(msg, AfterRounds(msg, pos, i), count - i)
    decreases i
  {
    hide Acceptable, SeenAt, SeenEnd;
    if i == 0 {
      assert [] + Scan(msg, pos, count) == Scan(msg, pos, count);
    } else {
      ScanSplit(msg, SeenEnd(msg, pos), count - 1, i - 1);
    }
  }

  lemma {:induction false} RoundsNext(msg: seq<byte>, pos: int, i: nat)
    requires Scannable(msg, pos, i + 1)
    ensures Scannable(msg, pos, i)
    ensures var at := AfterRounds(msg, pos, i);
            at >= 0 && Acceptable(msg, at) && AfterRounds(msg, pos, i + 1) == SeenEnd(msg, at)
    decreases i
  {
    hide Acceptable, SeenEnd;
    if i > 0 {
      RoundsNext(msg, SeenEnd(msg, pos), i - 1);
    } else {
      assert AfterRounds(msg, SeenEnd(msg, pos), 0) == SeenEnd(msg, pos);
    }
  }

  lemma OneRound(msg: seq<byte>, at: int)
    requires Scannable(msg, at, 1)
    ensures at >= 0 && Acceptable(msg, at)
    ensures Scan(msg, at, 1) == if TailAt(msg, at) > 0 && Wanted(SeenAt(msg, at).rtype) then [SeenAt(msg, at)] else []
  {
    hide Acceptable, SeenAt, SeenEnd;
    assert Scan(msg, SeenEnd(msg, at), 0) == [];
  }

  /** The next round: the record it comes to is kept or not. */
  lemma ScanNext(msg: seq<byte>, pos: int, count: nat, i: nat)
    requires Scannable(msg, pos, count) && i < count
    ensures Scannable(msg, pos, i) && Scannable(msg, pos, i + 1)
    ensures var at := AfterRounds(msg, pos, i);
            && at >= 0 && Acceptable(msg, at) && AfterRounds(msg, pos, i + 1) == SeenEnd(msg, at)
            && Scan(msg, pos, i + 1) ==
               Scan(msg, pos, i) + if TailAt(msg, at) > 0 && Wanted(SeenAt(msg, at).rtype) then [SeenAt(msg, at)] else []
    ensures Scan(msg, pos, i + 1) <= Scan(msg, pos, count)
  {
    hide Scan, Scannable, AfterRounds, Acceptable, SeenAt, SeenEnd, TailAt, Wanted;
    ScanSplit(msg, pos, count, i + 1);
    ScanSplit(msg, pos, i + 1, i);
    RoundsNext(msg, pos, i);
    OneRound(msg, AfterRounds(msg, pos, i));
  }

  lemma ScanNone(msg: seq<byte>, pos: int)
    ensures Scannable(msg, pos, 0) && Scan(msg, pos, 0) == [] && AfterRounds(msg, pos, 0) == pos
  {
  }

  /** Round i of the loop writes the array place numbered by the records kept before it; all of these are inside an
      array of n places. */
  ghost predicate WritesInside(msg: seq<byte>, pos: int, count: nat, n: nat)
    requires forall i: nat :: i <= count ==> Scannable(msg, pos, i)
  {
    forall i: nat :: i < count ==> |Scan(msg, pos, i)| < n
  }

  /** The rounds before the last keep fewer than n records. */
  ghost predicate HasRoom(msg: seq<byte>, pos: int, count: nat, n: nat) {
    count == 0 || (Scannable(msg, pos, count - 1) && |Scan(msg, pos, count - 1)| < n)
  }

  /** That is exactly what n places need. */
  lemma RoomExactly(msg: seq<byte>, pos: int, count: nat, n: nat)
    requires Scannable(msg, pos, count)
    ensures forall i: nat :: i <= count ==> Scannable(msg, pos, i)
    ensures WritesInside(msg, pos, count, n) <==> HasRoom(msg, pos, count, n)
  {
    hide Scannable, Scan;
    forall i: nat | i <= count ensures Scannable(msg, pos, i) {
      ScanSplit(msg, pos, count, i);
    }
    forall i: nat | i < count ensures |Scan(msg, pos, i)| <= |Scan(msg, pos, count - 1)| {
      ScanSplit(msg, pos, count - 1, i);
    }
  }

  /** The loop over the answer section, in an array with room for the places it writes.  The address of a kept record
      lies over what its place held before. */
  method ReadRecords(answers: array<Answer>, msg: seq<byte>, start: nat, ans: nat) returns (cnt: nat)
    requires Scannable(msg, start, ans) && HasRoom(msg, start, ans, answers.Length)
    modifies answers
    ensures cnt == |Scan(msg, start, ans)| <= answers.Length
    ensures forall k :: 0 <= k < cnt ==> Matches(answers[k], Scan(msg, start, ans)[k])
    ensures forall k :: 0 <= k < cnt ==> answers[k].address == Overlay(old(answers[k].address), Scan(msg, start, ans)[k].rdata)
  {
    hide NameAt, TailAt, RecordAt, Acceptable, SeenAt, SeenEnd, Matches, Scan, Scannable, Wanted, AfterRounds, Overlay, IsText;
    ghost var all := Scan(msg, start, ans);
    RoomExactly(msg, start, ans, answers.Length);
    ScanNone(msg, start);
    var data: int := start;
    cnt := 0;
    for i := 0 to ans
      invariant Scannable(msg, start, i) && data == AfterRounds(msg, start, i)
      invariant cnt == |Scan(msg, start, i)| <= answers.Length && Scan(msg, start, i) <= all
      invariant forall k :: 0 <= k < cnt ==> Matches(answers[k], all[k]) && answers[k].address == Overlay(old(answers[k].address), all[k].rdata)
      invariant forall k :: cnt <= k < answers.Length ==> answers[k].address == old(answers[k].address)
    {
      ScanNext(msg, start, ans, i);
      ghost var at := AfterRounds(msg, start, i);
      var a, good, len := ReadAnswer(msg, data, answers[cnt].address);
      answers[cnt] := a;
      if good {
        assert all[cnt] == SeenAt(msg, at) && a.rdata == all[cnt].rdata by {
          MatchesRdata(a, SeenAt(msg, at));
        }
        cnt := cnt + 1;
      }
      data := data + len;
    }
  }

  lemma MatchesRdata(a: Answer, r: Record)
    requires Matches(a, r)
    ensures a.rdata == r.rdata
  {
  }

  /** read_dns_answers: after the questions, the records that Scan keeps, in order; when every owner is compressed,
      those are exactly the A and AAAA records of the section. */
  method ReadAnswers(answers: array<Answer>, msg: seq<byte>, ghost start: nat) returns (cnt: nat)
    requires |msg| >= 12 && PlainQuestions(msg, 12, U16(msg, 4), start)
    requires Scannable(msg, start, U16(msg, 6)) && HasRoom(msg, start, U16(msg, 6), answers.Length)
    modifies answers
    ensures var kept := Scan(msg, start, U16(msg, 6));
            && cnt == |kept| <= answers.Length
            && (forall k :: 0 <= k < cnt ==> Matches(answers[k], kept[k]))
            && (forall k :: 0 <= k < cnt ==> answers[k].address == Overlay(old(answers[k].address), kept[k].rdata))
    ensures CompressedRecords(msg, start, U16(msg, 6)) ==>
              && Records(msg, start, U16(msg, 6)).Some?
              && Scan(msg, start, U16(msg, 6)) == AddressRecords(Records(msg, start, U16(msg, 6)).value.0)
  {
    if CompressedRecords(msg, start, U16(msg, 6)) {
      ScanOfCompressed(msg, start, U16(msg, 6));
    }
    hide PlainQuestions, CompressedRecords, Scannable, Scan, Matches, U16, Records, AddressRecords, HasRoom, Overlay;
    var data := SkipQuestions(msg, U16(msg, 4), start);
    cnt := ReadRecords(answers, msg, data, U16(msg, 6));
  }
}
