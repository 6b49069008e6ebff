/** Replies as compressing servers send them: a header, one question, and records whose owner is a pointer to the
    name of the question.  The reader of src/common.c understands every one of them. */
module CompressedReply {
  import opened Options
  import opened Rfc1035
  import opened Names
  import opened NameCodec
  import R = MessageReader
  import W = MessageWriter

  /** The parts of a record that a message can carry, with data that the reader has room for. */
  predicate Carriable(r: Record) {
    r.rtype < 0x1_0000 && r.rclass < 0x1_0000 && r.ttl < 0x1_0000_0000 && |r.rdata| <= R.ANSWER_ROOM
  }

  predicate AllCarriable(rs: seq<Record>) {
    forall i :: 0 <= i < |rs| ==> Carriable(rs[i])
  }

  function Fields(r: Record): (b: seq<byte>)
    requires Carriable(r)
    ensures |b| == 10
  {
    W.Be16(r.rtype) + (W.Be16(r.rclass) + (W.Be32(r.ttl) + W.Be16(|r.rdata|)))
  }

  /** A pointer to position 12, the fixed fields and the data. */
  function PointedBytes(r: Record): (b: seq<byte>)
    requires Carriable(r)
    ensures |b| == 12 + |r.rdata|
  {
    [192, 12] + (Fields(r) + r.rdata)
  }

  function PointedAll(rs: seq<Record>): seq<byte>
    requires AllCarriable(rs)
  {
    if rs == [] then [] else PointedBytes(rs[0]) + PointedAll(rs[1..])
  }

  function ReplyBytes(id: nat, host: seq<byte>, qtype: nat, rs: seq<Record>): seq<byte>
    requires id < 0x1_0000 && qtype < 0x1_0000 && |rs| < 0x1_0000 && AllCarriable(rs)
  {
    W.HeaderBytes(id, 0x8000, 1, |rs|) + (W.QuestionBytes(host, qtype, 1) + PointedAll(rs))
  }

  /** The records as received, each owned by the host. */
  function Owned(host: seq<byte>, rs: seq<Record>): (r: seq<Record>)
    ensures |r| == |rs|
    ensures forall i :: 0 <= i < |rs| ==> r[i] == rs[i].(owner := Split(host))
  {
    seq(|rs|, i requires 0 <= i < |rs| => rs[i].(owner := Split(host)))
  }

  /** The question's name stands at position 12 of a message that the reader can take. */
  ghost predicate HostAt12(msg: seq<byte>, host: seq<byte>) {
    && |msg| <= 32767 && LegalLabels(Split(host)) && |host| < R.MAX_NAME_LENGTH
    && NameAt(msg, 12) == Some(Name(Split(host), 14 + |host|, false))
  }

  lemma PointedName(msg: seq<byte>, pos: nat, host: seq<byte>)
    requires HostAt12(msg, host) && 12 < pos && Holds(msg, pos, [192, 12])
    ensures NameAt(msg, pos) == Some(Name(Split(host), pos + 2, true))
    ensures R.Readable(msg, pos) && TailAt(msg, pos) == |host| + 1
  {
    HoldsAt(msg, pos, [192, 12], 0);
    HoldsAt(msg, pos, [192, 12], 1);
    JumpsTo12(msg, pos);
    PlainTail12(msg, host);
    JoinSplit(host);
  }

  lemma JumpsTo12(msg: seq<byte>, pos: nat)
    requires 12 < pos && pos + 1 < |msg| && msg[pos] == 192 && msg[pos + 1] == 12 && NameAt(msg, 12).Some?
    ensures NameAt(msg, pos) == Some(Name(NameAt(msg, 12).value.labels, pos + 2, true)) && TailAt(msg, pos) == TailAt(msg, 12)
  {
  }

  lemma PlainTail12(msg: seq<byte>, host: seq<byte>)
    requires HostAt12(msg, host)
    ensures TailAt(msg, 12) == |host| + 1
  {
    R.PlainTail(msg, 12, 12);
    JoinSplit(host);
  }

  lemma HeldFields(msg: seq<byte>, pos: nat, r: Record)
    requires Carriable(r) && Holds(msg, pos, Fields(r))
    ensures pos + 10 <= |msg|
    ensures U16(msg, pos) == r.rtype && U16(msg, pos + 2) == r.rclass && U32(msg, pos + 4) == r.ttl && U16(msg, pos + 8) == |r.rdata|
  {
    hide Holds, W.Be16, W.Be32;
    var ttl, len := W.Be32(r.ttl), W.Be16(|r.rdata|);
    HoldsSplit(msg, pos, W.Be16(r.rtype), W.Be16(r.rclass) + (ttl + len));
    HoldsSplit(msg, pos + 2, W.Be16(r.rclass), ttl + len);
    HoldsSplit(msg, pos + 4, ttl, len);
    W.HeldU16(msg, pos, r.rtype);
    W.HeldU16(msg, pos + 2, r.rclass);
    W.HeldU32(msg, pos + 4, r.ttl);
    W.HeldU16(msg, pos + 8, |r.rdata|);
  }

  lemma PointedDecodes(msg: seq<byte>, pos: nat, host: seq<byte>, r: Record)
    requires HostAt12(msg, host) && 12 < pos && Carriable(r) && Holds(msg, pos, PointedBytes(r))
    ensures RecordAt(msg, pos) == Some((r.(owner := Split(host)), pos + 12 + |r.rdata|)) && R.Compressed(msg, pos)
  {
    hide Holds, Fields, NameAt, TailAt, HostAt12, R.Readable, Split;
    HoldsSplit(msg, pos, [192, 12], Fields(r) + r.rdata);
    PointedName(msg, pos, host);
    HoldsSplit(msg, pos + 2, Fields(r), r.rdata);
    HeldFields(msg, pos + 2, r);
    HeldSlice(msg, pos + 12, r.rdata);
  }

  /** A run of such records decodes, in order, and each is one that the reader understands. */
  lemma {:induction false} AllDecode(msg: seq<byte>, pos: nat, host: seq<byte>, rs: seq<Record>)
    requires HostAt12(msg, host) && 12 < pos && AllCarriable(rs) && Holds(msg, pos, PointedAll(rs))
    ensures Records(msg, pos, |rs|) == Some((Owned(host, rs), pos + |PointedAll(rs)|))
    ensures R.CompressedRecords(msg, pos, |rs|)
    decreases |rs|
  {
    hide Holds, PointedBytes, HostAt12, RecordAt, R.Compressed, Split, Carriable;
    if rs == [] {
      assert Owned(host, rs) == [];
    } else {
      HoldsSplit(msg, pos, PointedBytes(rs[0]), PointedAll(rs[1..]));
      PointedDecodes(msg, pos, host, rs[0]);
      AllDecode(msg, pos + |PointedBytes(rs[0])|, host, rs[1..]);
      assert Owned(host, rs) == [rs[0].(owner := Split(host))] + Owned(host, rs[1..]);
    }
  }

  /** What the whole reply is: its question, its records, and their place. */
  lemma ReplyParts(id: nat, host: seq<byte>, qtype: nat, rs: seq<Record>)
    requires id < 0x1_0000 && qtype < 0x1_0000 && |rs| < 0x1_0000 && AllCarriable(rs)
    requires LegalLabels(Split(host)) && |host| < R.MAX_NAME_LENGTH && |ReplyBytes(id, host, qtype, rs)| <= 32767
    ensures var msg := ReplyBytes(id, host, qtype, rs);
            && |msg| >= 12 && U16(msg, 4) == 1 && U16(msg, 6) == |rs|
            && HostAt12(msg, host) && QuestionAt(msg, 12) == Some((Question(Split(host), qtype, 1), 18 + |host|))
            && Records(msg, 18 + |host|, |rs|) == Some((Owned(host, rs), |msg|))
            && R.CompressedRecords(msg, 18 + |host|, |rs|)
  {
    hide Walk, QuestionAt, NameAt, Holds, W.HeaderBytes, W.QuestionBytes, PointedAll, U16, Split, LegalLabels, Carriable;
    var msg := ReplyBytes(id, host, qtype, rs);
    var header, question := W.HeaderBytes(id, 0x8000, 1, |rs|), W.QuestionBytes(host, qtype, 1);
    W.HoldsAll(msg);
    HoldsSplit(msg, 0, header, question + PointedAll(rs));
    HoldsSplit(msg, 12, question, PointedAll(rs));
    W.HeldHeader(msg, id, 0x8000, 1, |rs|);
    W.QuestionDecodes(msg, 12, host, qtype, 1);
    W.QuestionLength(host, qtype, 1);
    NameOfQuestion(msg, host, qtype);
    AllDecode(msg, 18 + |host|, host, rs);
  }

  lemma NameOfQuestion(msg: seq<byte>, host: seq<byte>, qtype: nat)
    requires QuestionAt(msg, 12) == Some((Question(Split(host), qtype, 1), 18 + |host|)) && !NameAt(msg, 12).value.pointer
    ensures NameAt(msg, 12) == Some(Name(Split(host), 14 + |host|, false))
  {
    hide NameAt, Split;
  }
}
