/** The writer and the reader of src/common.c put together, and with the record cache the two ends of the relay in
    src/main.c: a reply is read and stored, and a later query is answered from the cache. */
module Exchange {
  import opened Addresses
  import opened Options
  import opened Rfc1035
  import opened Names
  import opened NameCodec
  import B = CacheBudget
  import C = LruCache
  import H = HashTable
  import L = LruSpec
  import P = CompressedReply
  import R = MessageReader
  import W = MessageWriter

  lemma QueryIsReadable(id: nat, host: seq<byte>, qtype: nat)
    requires id < 0x1_0000 && qtype < 0x1_0000 && LegalLabels(Split(host)) && |host| + 1 <= R.MAX_NAME_LENGTH
    ensures var msg := W.QueryBytes(id, host, qtype);
            && R.Readable(msg, 12) && !NameAt(msg, 12).value.pointer && R.QuestionFieldsAt(msg) + 4 <= |msg|
            && QuestionAt(msg, 12) == Some((Question(Split(host), qtype, 1), |msg|)) && |msg| == |host| + 18
            && U16(msg, 4) == 1 && Dotted(Split(host)) == host
  {
    hide Walk, NameAt, Holds, Split, U16, LegalLabels, W.QueryBytes, TailAt;
    W.QueryParts(id, host, qtype);
    JoinSplit(host);
    DottedIsWithDots(Split(host));
    assert host == (host + [DOT])[..|host|];
  }

  /** read_dns_questions after write_dns_query gives back the host, the type and class 1, for every host of
      labels of 1 to 63 bytes that fits the name array. */
  method QueryRoundTrip(id: nat, host: seq<byte>, qtype: nat) returns (q: R.QuestionText, count: nat)
    requires id < 0x1_0000 && qtype < 0x1_0000 && LegalLabels(Split(host)) && |host| + 1 <= R.MAX_NAME_LENGTH
    ensures count == 1 && R.IsText(q.name, host) && q.qtype == qtype && q.qclass == 1
  {
    QueryIsReadable(id, host, qtype);
    hide NameAt, QuestionAt, Split, U16, W.QueryBytes, R.Readable, R.IsText, R.QuestionFieldsAt;
    var buf := new byte[W.MAX_DNS_SIZE];
    var size := W.WriteQuery(buf, id, host, qtype);
    q, count := R.ReadQuestions(buf[..size]);
  }

  /** The writer never compresses owner names, so its own answers, though well formed, are not kept by the
      reader: the reader takes the type from one byte before it. */
  lemma OwnAnswersAreNotKept(msg: seq<byte>, pos: nat, a: W.Answer)
    requires W.Sendable(a) && Holds(msg, pos, W.AnswerBytes(a))
    ensures RecordAt(msg, pos) == Some((W.Sent(a), pos + |W.AnswerBytes(a)|))
    ensures NameAt(msg, pos).Some? && R.FieldsAt(NameAt(msg, pos).value) + 2 <= |msg|
    ensures !R.Wanted(U16(msg, R.FieldsAt(NameAt(msg, pos).value)))
  {
    W.AnswerDecodes(msg, pos, a);
    HoldsSplit(msg, pos, Wire(Split(a.name)), W.Fixed(a) + W.Rdata(a));
    HostDecodes(msg, pos, a.name);
    hide Walk, Holds, Split, W.AnswerBytes;
    R.KeptExactly(msg, pos);
  }

  // ----- names and addresses between the message and the cache -----

  /** A text as a cache key. */
  function Chars(text: seq<byte>): (r: string)
    ensures |r| == |text|
  {
    seq(|text|, i requires 0 <= i < |text| => text[i] as char)
  }

  /** Two hosts have the same key exactly when they are the same bytes. */
  lemma SameKeyExactly(a: seq<byte>, b: seq<byte>)
    ensures Chars(a) == Chars(b) <==> a == b
  {
    if Chars(a) == Chars(b) {
      assert |a| == |Chars(a)| == |Chars(b)| == |b|;
      forall i | 0 <= i < |a| ensures a[i] == b[i] {
        assert Chars(a)[i] == Chars(b)[i];
      }
    }
  }

  /** The C string in a character array. */
  function CString(buf: seq<byte>): seq<byte> {
    if buf == [] || buf[0] == 0 then [] else [buf[0]] + CString(buf[1..])
  }

  lemma {:induction false} TextIsCString(buf: seq<byte>, text: seq<byte>)
    requires R.IsText(buf, text) && 0 !in text
    ensures CString(buf) == text
  {
    if text != [] {
      assert buf[0] == text[0];
      assert buf[1..][..|text| - 1] == buf[..|text|][1..] == text[1..];
      TextIsCString(buf[1..], text[1..]);
    }
  }

  /** The name at a position is the host: labels of 1 to 63 bytes without zero bytes, short enough to be read. */
  ghost predicate NamesHost(msg: seq<byte>, pos: nat, host: seq<byte>) {
    && R.Readable(msg, pos) && NameAt(msg, pos).value.labels == Split(host)
    && LegalLabels(Split(host)) && 0 !in host && |host| < R.MAX_NAME_LENGTH
  }

  lemma HostText(host: seq<byte>)
    ensures Dotted(Split(host)) == host
  {
    JoinSplit(host);
    DottedIsWithDots(Split(host));
    hide WithDots, Dotted, Split;
    assert host == (host + [DOT])[..|host|];
  }

  // ----- storing a reply -----

  /** The records to store; `stale` are the addresses that the array places held before. */
  function ReplyData(host: seq<byte>, kept: seq<Record>, stale: seq<Address>, now: int): (r: seq<L.RecordData>)
    requires |kept| <= |stale|
    ensures |r| == |kept|
    ensures forall i :: 0 <= i < |r| ==> r[i] == L.RecordData(Chars(host), Overlay(stale[i], kept[i].rdata), now + kept[i].ttl)
  {
    seq(|kept|, i requires 0 <= i < |kept| => L.RecordData(Chars(host), Overlay(stale[i], kept[i].rdata), now + kept[i].ttl))
  }

  /** The store that a reply amounts to. */
  function ReplyOp(host: seq<byte>, kept: seq<Record>, stale: seq<Address>, now: int): L.Op
    requires |kept| <= |stale|
  {
    L.Store(Chars(host), ReplyData(host, kept, stale, now), now)
  }

  /** A reply that the relay can read into its arrays: 20 places for the answers, of which 10 can be passed on, and a
      question that names the host. */
  ghost predicate Storable(msg: seq<byte>, start: nat, host: seq<byte>) {
    && |msg| >= 12 && R.PlainQuestions(msg, 12, U16(msg, 4), start)
    && R.Scannable(msg, start, U16(msg, 6)) && R.HasRoom(msg, start, U16(msg, 6), 20)
    && |R.Scan(msg, start, U16(msg, 6))| <= 10
    && NamesHost(msg, 12, host) && R.QuestionFieldsAt(msg) + 4 <= |msg|
  }

  /** The records that the reader keeps of a reply. */
  ghost function Kept(msg: seq<byte>, start: nat, host: seq<byte>): (r: seq<Record>)
    requires Storable(msg, start, host)
    ensures |r| <= 10
  {
    R.Scan(msg, start, U16(msg, 6))
  }

  lemma ReplyIsLive(host: seq<byte>, kept: seq<Record>, stale: seq<Address>, now: int)
    requires kept != [] && |kept| <= |stale|
    ensures L.Legal(ReplyOp(host, kept, stale, now))
    ensures L.Live(ReplyData(host, kept, stale, now), now) == ReplyData(host, kept, stale, now)
  {
    hide L.Live;
    B.AllLive(ReplyData(host, kept, stale, now), now);
  }

  /** The reading of a reply: the key and the records to store. */
  method ReadReply(msg: seq<byte>, ghost start: nat, ghost host: seq<byte>, stale: seq<Address>, now: int)
    returns (name: string, data: seq<L.RecordData>)
    requires Storable(msg, start, host) && |stale| == 20
    ensures name == Chars(host) && data == ReplyData(host, Kept(msg, start, host), stale, now)
  {
    hide R.PlainQuestions, R.Scannable, R.Scan, R.HasRoom, R.CompressedRecords, NameAt, TailAt, Split, Dotted, U16, R.IsText, R.FieldsAt, R.Readable, CString, Chars, Overlay;
    var answers := new R.Answer[20](i requires 0 <= i < 20 => R.Answer([], 0, 0, 0, [], stale[i]));
    var cnt := R.ReadAnswers(answers, msg, start);
    var q, len := R.ReadQuestion(msg, 12);
    HostText(host);
    TextIsCString(q.name, host);
    name := Chars(CString(q.name));
    data := seq(cnt, i requires 0 <= i < cnt reads answers => L.RecordData(name, answers[i].address, now + answers[i].ttl));
  }

  /** What the relay does with the answers of a reply to an A or AAAA request: the records that the reader keeps,
      whatever their own types, are stored under the question's name, to expire at the current time plus their ttl. */
  method StoreReply(cache: C.Cache, msg: seq<byte>, ghost start: nat, ghost host: seq<byte>, stale: seq<Address>, now: int)
    returns (failure: Option<B.Failure>)
    requires cache.Valid() && Storable(msg, start, host) && |stale| == 20
    modifies cache, cache.records, cache.stack, cache.table, cache.table.Repr
    ensures fresh(cache.table.Repr - old(cache.table.Repr)) && (failure.None? ==> cache.Valid())
    ensures var kept := Kept(msg, start, host);
            if kept == [] then failure == None && cache.Contents() == old(cache.Contents()) && cache.released == old(cache.released)
            else
              var end := B.Step(old(cache.Contents()), old(cache.released), cache.maxLength, cache.maxSize, ReplyOp(host, kept, stale, now));
              failure == B.FailureOf(end) && (failure.None? ==> end == B.Returned(cache.Contents(), cache.released))
  {
    hide C.Ends, C.Partition, C.AllLabelled, C.IndexOf, C.View, H.Table.Valid, B.StoreStep, L.Live, L.EntryOf, Kept, Storable, Overlay;
    var name, data := ReadReply(msg, start, host, stale, now);
    if data == [] {
      return None;
    }
    ReplyIsLive(host, Kept(msg, start, host), stale, now);
    failure := cache.SetMulti(name, data, now);
  }

  // ----- answering from the cache -----

  function AsUint32(x: int): (r: nat)
    ensures r < 0x1_0000_0000
  {
    x % 0x1_0000_0000
  }

  /** The answers the relay prepares from cached records; the remaining time goes through a uint32_t. */
  function Prepared(host: seq<byte>, asked: Question, rs: seq<L.RecordData>, now: int): (r: seq<W.Answer>)
    ensures |r| == |rs|
    ensures forall i :: 0 <= i < |rs| ==> r[i] == W.Answer(host, asked.qtype, asked.qclass, AsUint32(rs[i].ttl - now), rs[i].ip, [])
  {
    seq(|rs|, i requires 0 <= i < |rs| => W.Answer(host, asked.qtype, asked.qclass, AsUint32(rs[i].ttl - now), rs[i].ip, []))
  }

  /** The records of a response from the cache: the query's type, as many address bytes as that takes, and the
      remaining time as it is written. */
  function Served(host: seq<byte>, asked: Question, rs: seq<L.RecordData>, now: int): (r: seq<Record>)
    ensures |r| == |rs|
    ensures forall i :: 0 <= i < |rs| ==>
              r[i] == Record(Split(host), asked.qtype, asked.qclass, W.SentTtl(AsUint32(rs[i].ttl - now)), rs[i].ip[..Width(asked.qtype)])
  {
    seq(|rs|, i requires 0 <= i < |rs| =>
          Record(Split(host), asked.qtype, asked.qclass, W.SentTtl(AsUint32(rs[i].ttl - now)), rs[i].ip[..Width(asked.qtype)]))
  }

  lemma PreparedOne(host: seq<byte>, asked: Question, ttl: nat, ip: Address)
    requires R.Wanted(asked.qtype) && asked.qclass < 0x1_0000 && ttl < 0x1_0000_0000 && |host| < R.MAX_NAME_LENGTH
    ensures var a := W.Answer(host, asked.qtype, asked.qclass, ttl, ip, []);
            && W.Encodable(a) && |W.Rdata(a)| == Width(asked.qtype)
            && W.Sent(a) == Record(Split(host), asked.qtype, asked.qclass, W.SentTtl(ttl), ip[..Width(asked.qtype)])
  {
    hide Split;
    assert ip[..16] == ip;
  }

  lemma PreparedAnswers(host: seq<byte>, asked: Question, rs: seq<L.RecordData>, now: int)
    requires R.Wanted(asked.qtype) && asked.qclass < 0x1_0000 && LegalLabels(Split(host)) && |host| < R.MAX_NAME_LENGTH
    ensures W.AllSendable(Prepared(host, asked, rs, now)) && W.SentAll(Prepared(host, asked, rs, now)) == Served(host, asked, rs, now)
    ensures |W.AnswersBytes(Prepared(host, asked, rs, now))| == |rs| * (|host| + 12 + Width(asked.qtype))
  {
    hide LegalLabels, Split, AsUint32, W.Encodable, W.Sent, W.Rdata, W.SentTtl, Width;
    var answers := Prepared(host, asked, rs, now);
    forall i | 0 <= i < |answers|
      ensures W.Encodable(answers[i]) && W.Sent(answers[i]) == Served(host, asked, rs, now)[i]
      ensures |W.Rdata(answers[i])| == Width(asked.qtype)
    {
      PreparedOne(host, asked, AsUint32(rs[i].ttl - now), rs[i].ip);
    }
    hide Prepared, Served;
    EvenAnswers(answers, |host| + 12 + Width(asked.qtype));
  }

  lemma {:induction false} EvenAnswers(answers: seq<W.Answer>, each: nat)
    requires W.AllEncodable(answers) && forall i :: 0 <= i < |answers| ==> |answers[i].name| + 12 + |W.Rdata(answers[i])| == each
    ensures |W.AnswersBytes(answers)| == |answers| * each
  {
    hide W.AnswerBytes, W.Encodable, W.Rdata;
    if answers != [] {
      var n := |answers| - 1;
      EvenAnswers(answers[..n], each);
      W.RoomIsLength(answers[n]);
      assert |answers| * each == n * each + each;
    }
  }

  /** The query names the host and asks for an address type. */
  ghost predicate AsksFor(query: seq<byte>, host: seq<byte>) {
    W.Answerable(query) && NamesHost(query, 12, host) && R.Wanted(QuestionAt(query, 12).value.0.qtype)
  }

  /** There is room for a response with so many records: 20 places in the array, and the bytes in the buffer. */
  ghost predicate HasRoom(query: seq<byte>, host: seq<byte>, count: nat, room: nat)
    requires AsksFor(query, host)
  {
    count <= 20 && W.AfterQuestion(query) + count * (|host| + 12 + Width(QuestionAt(query, 12).value.0.qtype)) <= room
  }

  /** The question of a query for the host. */
  method ReadHost(query: seq<byte>, ghost host: seq<byte>) returns (q: R.QuestionText)
    requires W.Answerable(query) && NamesHost(query, 12, host)
    ensures CString(q.name) == host && q.qclass < 0x1_0000
    ensures q.qtype == QuestionAt(query, 12).value.0.qtype && q.qclass == QuestionAt(query, 12).value.0.qclass
  {
    hide Split, Dotted, R.IsText, CString, Tail, Walk;
    HostText(host);
    var count;
    q, count := R.ReadQuestions(query);
    TextIsCString(q.name, host);
  }

  /** What the relay does with an A or AAAA query for a name that is in no local file: look it up in the cache, and on a
      hit send the cached addresses with their remaining time in the buffer that holds the query. */
  method AnswerQuery(cache: C.Cache, buf: array<byte>, query: seq<byte>, ghost host: seq<byte>, now: int) returns (size: Option<nat>)
    requires cache.Valid() && AsksFor(query, host) && Holds(buf[..], 0, query)
    requires var hit := L.Get(cache.Contents(), Chars(host), now).1;
             hit.Some? ==> HasRoom(query, host, |hit.value|, buf.Length)
    modifies cache, cache.records, cache.stack, cache.table, cache.table.Repr, buf
    ensures cache.Valid() && cache.Contents() == L.Get(old(cache.Contents()), Chars(host), now).0
    ensures var hit := L.Get(old(cache.Contents()), Chars(host), now).1;
            && (size.Some? <==> hit.Some?)
            && (hit.Some? ==>
                  var answers := Prepared(host, QuestionAt(query, 12).value.0, hit.value, now);
                  && W.AllSendable(answers) && W.SentAll(answers) == Served(host, QuestionAt(query, 12).value.0, hit.value, now)
                  && size.value <= buf.Length && buf[..size.value] == W.ResponseBytes(query, answers)
                  && (U16(query, 4) == 1 ==> W.ReadsAsResponse(buf[..size.value], query, answers)))
  {
    hide C.Ends, C.Partition, C.AllLabelled, C.IndexOf, C.View, H.Table.Valid, L.Live, Holds, LegalLabels, Served, AsUint32;
    hide NameAt, TailAt, Split, Dotted, R.IsText, R.Readable, CString, Chars, W.AnswersBytes, W.ResponseBytes, W.ReadsAsResponse, W.AllSendable;
    var q := ReadHost(query, host);
    var hit := cache.Get(Chars(CString(q.name)), now);
    if hit.None? {
      return None;
    }
    var asked := Question([], q.qtype, q.qclass);
    PreparedAnswers(host, QuestionAt(query, 12).value.0, hit.value, now);
    var answers := Prepared(CString(q.name), asked, hit.value, now);
    assert answers == Prepared(host, QuestionAt(query, 12).value.0, hit.value, now);
    var n := W.WriteResponse(buf, query, answers);
    size := Some(n);
  }

  // ----- from one reply to a later response -----

  /** All operations on the cache, with the store of the reply among them. */
  function Whole(before: seq<L.Op>, op: L.Op, between: seq<L.Op>): seq<L.Op> {
    before + [op] + between
  }

  lemma {:induction false} StillLastStored(before: seq<L.Op>, op: L.Op, between: seq<L.Op>)
    requires !op.Lookup? && forall i :: 0 <= i < |between| ==> between[i].Lookup? || between[i].name != op.name
    ensures L.LastStored(Whole(before, op, between), op.name) == Some(L.EntryOf(op).records)
    decreases |between|
  {
    hide L.Live;
    var ops := Whole(before, op, between);
    if between == [] {
      assert ops == before + [op];
    } else {
      var n := |between| - 1;
      assert ops[..|ops| - 1] == Whole(before, op, between[..n]);
      StillLastStored(before, op, between[..n]);
    }
  }

  /** At any later time a lookup gives all the records of the reply if and only if the name is still cached and the
      first record has not expired: the others are not looked at. */
  lemma LaterLookup(maxLength: nat, before: seq<L.Op>, host: seq<byte>, kept: seq<Record>, stale: seq<Address>, now: int,
                    between: seq<L.Op>, later: int)
    requires maxLength >= 2 && kept != [] && |kept| <= |stale|
    requires forall i :: 0 <= i < |between| ==> between[i].Lookup? || between[i].name != Chars(host)
    ensures var s := L.After([], maxLength, Whole(before, ReplyOp(host, kept, stale, now), between));
            var data := ReplyData(host, kept, stale, now);
            L.Get(s, Chars(host), later).1
            == if L.Cached(s, Chars(host)) && !(now + kept[0].ttl < later && now + kept[0].ttl != 1099511627776) then Some(data) else None
  {
    hide L.After, L.LastStored, L.Live;
    var op := ReplyOp(host, kept, stale, now);
    var s := L.After([], maxLength, Whole(before, op, between));
    ReplyIsLive(host, kept, stale, now);
    StillLastStored(before, op, between);
    if L.Cached(s, Chars(host)) {
      L.EntriesAreLastStored(maxLength, Whole(before, op, between), L.Position(s, Chars(host)));
    }
  }

  /** The response's records are the reply's, each with its own ttl less the time that has passed. */
  ghost predicate SameAddresses(sent: seq<Record>, kept: seq<Record>, age: int) {
    && |sent| == |kept|
    && forall i :: 0 <= i < |kept| ==> sent[i].rtype == kept[i].rtype && sent[i].rdata == kept[i].rdata && sent[i].ttl == kept[i].ttl - age
  }

  /** A record of the reply that a response of the type can carry: the type itself, an address of its width, and a
      remaining time that is neither negative nor too long for the writer. */
  predicate Serves(k: Record, kind: nat, age: int) {
    k.rtype == kind && |k.rdata| == Width(kind) && 0 <= k.ttl - age < 0x8000_0000
  }

  lemma RemainingExactly(rest: int)
    ensures W.SentTtl(AsUint32(rest)) == rest <==> 0 <= rest < 0x8000_0000
  {
  }

  /** A remaining time at most 2^31 seconds past is written as 0. */
  lemma PastTime(rest: int)
    ensures W.SentTtl(AsUint32(rest)) == var v := rest % 0x1_0000_0000; if v < 0x8000_0000 then v else 0
    ensures -0x8000_0000 <= rest < 0 ==> W.SentTtl(AsUint32(rest)) == 0
  {
  }

  /** What is served of each record: the query's type and class, the address bytes the type takes from what was cached,
      and the remaining ttl, or 0 once it has passed. */
  lemma ServedRecords(host: seq<byte>, asked: Question, kept: seq<Record>, stale: seq<Address>, now: int, later: int)
    requires |kept| <= |stale|
    ensures var sent := Served(host, asked, ReplyData(host, kept, stale, now), later);
            && |sent| == |kept|
            && forall i :: 0 <= i < |kept| ==>
                 && sent[i].owner == Split(host) && sent[i].rtype == asked.qtype && sent[i].rclass == asked.qclass
                 && (0 <= kept[i].ttl - (later - now) < 0x8000_0000 ==> sent[i].ttl == kept[i].ttl - (later - now))
                 && (-0x8000_0000 <= kept[i].ttl - (later - now) < 0 ==> sent[i].ttl == 0)
                 && sent[i].rdata == Overlay(stale[i], kept[i].rdata)[..if asked.qtype == 1 then 4 else 16]
  {
    hide Overlay, AsUint32, W.SentTtl, Split, Chars;
    forall i | 0 <= i < |kept|
      ensures var rest, t := kept[i].ttl - (later - now), Served(host, asked, ReplyData(host, kept, stale, now), later)[i].ttl;
              (0 <= rest < 0x8000_0000 ==> t == rest) && (-0x8000_0000 <= rest < 0 ==> t == 0)
    {
      assert now + kept[i].ttl - later == kept[i].ttl - (later - now);
      RemainingExactly(kept[i].ttl - (later - now));
      PastTime(kept[i].ttl - (later - now));
    }
  }

  lemma AddressExactly(before: Address, bytes: seq<byte>, kind: nat)
    ensures Overlay(before, bytes)[..Width(kind)] == bytes <==> |bytes| == Width(kind)
  {
    assert |bytes| == 16 ==> bytes[..16] == bytes;
  }

  /** What is served of a reply is exactly the reply's addresses with their remaining ttl if and only if every record
      kept of it has the query's type and width and has not expired. */
  lemma ServedExactly(host: seq<byte>, asked: Question, kept: seq<Record>, stale: seq<Address>, now: int, later: int)
    requires |kept| <= |stale|
    ensures SameAddresses(Served(host, asked, ReplyData(host, kept, stale, now), later), kept, later - now)
            <==> forall i :: 0 <= i < |kept| ==> Serves(kept[i], asked.qtype, later - now)
  {
    hide Overlay, AsUint32, W.SentTtl, Width, Split, Chars;
    var age := later - now;
    var sent := Served(host, asked, ReplyData(host, kept, stale, now), later);
    forall i | 0 <= i < |kept|
      ensures (sent[i].rtype == kept[i].rtype && sent[i].rdata == kept[i].rdata && sent[i].ttl == kept[i].ttl - age)
              <==> Serves(kept[i], asked.qtype, age)
    {
      AddressExactly(stale[i], kept[i].rdata, asked.qtype);
      RemainingExactly(kept[i].ttl - age);
      assert now + kept[i].ttl - later == kept[i].ttl - age;
    }
  }

  /** The operations on a fresh cache, the reply's store among them, return exactly when they stay within the byte
      budget, and leave the abstract cache. */
  method RelayAndRun(cache: C.Cache, before: seq<L.Op>, reply: seq<byte>, ghost start: nat, ghost host: seq<byte>, stale: seq<Address>, now: int,
                     between: seq<L.Op>)
    returns (failure: Option<B.Failure>)
    requires cache.Valid() && cache.Contents() == [] && cache.released == 0
    requires forall i :: 0 <= i < |before| ==> L.Legal(before[i])
    requires forall i :: 0 <= i < |between| ==> L.Legal(between[i])
    requires Storable(reply, start, host) && Kept(reply, start, host) != [] && |stale| == 20
    modifies cache, cache.records, cache.stack, cache.table, cache.table.Repr
    ensures fresh(cache.table.Repr - old(cache.table.Repr)) && (failure.None? ==> cache.Valid())
    ensures var ops := Whole(before, ReplyOp(host, Kept(reply, start, host), stale, now), between);
            var end := B.Run([], 0, cache.maxLength, cache.maxSize, ops);
            failure == B.FailureOf(end) && (failure.None? ==> end == B.Returned(cache.Contents(), cache.released))
  {
    hide C.Ends, C.Partition, C.AllLabelled, C.IndexOf, C.View, H.Table.Valid, B.Step, B.Run, B.Replies, L.Legal, ReplyOp, Kept, Storable;
    ghost var op := ReplyOp(host, Kept(reply, start, host), stale, now);
    B.RunConcat([], 0, cache.maxLength, cache.maxSize, before + [op], between);
    B.RunConcat([], 0, cache.maxLength, cache.maxSize, before, [op]);
    var answers;
    answers, failure := cache.Run(before);
    if failure.Some? {
      return;
    }
    B.RunOne(cache.Contents(), cache.released, cache.maxLength, cache.maxSize, op);
    failure := StoreReply(cache, reply, start, host, stale, now);
    if failure.Some? {
      return;
    }
    answers, failure := cache.Run(between);
  }

  /** From a reply to a response.  On a fresh cache, after any operations, an upstream reply about a host is read and
      stored; any operations follow that do not store the host again; then, at any time, an A or AAAA query for the
      host arrives.  The cache calls return exactly when they stay within the byte budget; then the query is answered
      from the cache exactly when the host is still cached and the first record of the reply has not expired.  The
      response decodes, by the RFC, to the query's id and question and to what is served of the reply; and that is
      exactly the reply's addresses with their remaining ttl if and only if every record kept of it has the query's
      type and width and has not expired. */
  method RelayThenServe(cache: C.Cache, before: seq<L.Op>, reply: seq<byte>, ghost start: nat, ghost host: seq<byte>, stale: seq<Address>, now: int,
                        between: seq<L.Op>, buf: array<byte>, query: seq<byte>, later: int)
    returns (failure: Option<B.Failure>, size: Option<nat>)
    requires cache.Valid() && cache.Contents() == [] && cache.released == 0
    requires cache.maxLength >= 2 && B.MARGIN <= cache.maxSize < B.HALF
    requires forall i :: 0 <= i < |before| ==> L.Legal(before[i])
    requires forall i :: 0 <= i < |between| ==> L.Legal(between[i]) && (between[i].Lookup? || between[i].name != Chars(host))
    requires Storable(reply, start, host) && Kept(reply, start, host) != [] && |stale| == 20
    requires B.FitsMemory(cache.maxLength, Whole(before, ReplyOp(host, Kept(reply, start, host), stale, now), between))
    requires AsksFor(query, host) && Holds(buf[..], 0, query) && HasRoom(query, host, |Kept(reply, start, host)|, buf.Length)
    requires U16(query, 4) == 1 && U16(query, 8) == 0 && U16(query, 10) == 0
    modifies cache, cache.records, cache.stack, cache.table, cache.table.Repr, buf
    ensures var kept := Kept(reply, start, host);
            var ops := Whole(before, ReplyOp(host, kept, stale, now), between);
            && (failure.None? <==> B.WithinMargin(cache.maxLength, ops))
            && (failure.None? ==> (size.Some? <==> L.Cached(L.After([], cache.maxLength, ops), Chars(host))
                                                    && !(now + kept[0].ttl < later && now + kept[0].ttl != 1099511627776)))
    ensures failure.None? && size.Some? ==>
              var kept, asked := Kept(reply, start, host), QuestionAt(query, 12).value.0;
              var sent := Served(host, asked, ReplyData(host, kept, stale, now), later);
              && size.value <= buf.Length
              && Decode(buf[..size.value]) == Some(Message(U16(query, 0), 0x8000, [asked], sent, [], []))
              && (SameAddresses(sent, kept, later - now) <==> forall i :: 0 <= i < |kept| ==> Serves(kept[i], asked.qtype, later - now))
    ensures failure.None? && size.Some? ==>
              var kept, asked := Kept(reply, start, host), QuestionAt(query, 12).value.0;
              var sent := Served(host, asked, ReplyData(host, kept, stale, now), later);
              && |sent| == |kept|
              && forall i :: 0 <= i < |kept| ==>
                   && sent[i].owner == Split(host) && sent[i].rtype == asked.qtype && sent[i].rclass == asked.qclass
                   && (0 <= kept[i].ttl - (later - now) < 0x8000_0000 ==> sent[i].ttl == kept[i].ttl - (later - now))
                   && (-0x8000_0000 <= kept[i].ttl - (later - now) < 0 ==> sent[i].ttl == 0)
                   && sent[i].rdata == Overlay(stale[i], kept[i].rdata)[..if asked.qtype == 1 then 4 else 16]
  {
    hide C.Cache.Valid, Storable, Kept, Served, SameAddresses, Serves, B.Run, L.After, L.Get, L.Cached, B.WithinMargin, B.FitsMemory;
    hide W.AllSendable, W.ResponseBytes, HasRoom, L.Legal, NamesHost, Holds, U16, Decode;
    ghost var kept, asked := Kept(reply, start, host), QuestionAt(query, 12).value.0;
    ghost var ops := Whole(before, ReplyOp(host, kept, stale, now), between);
    B.RunReturnsExactly(cache.maxLength, cache.maxSize, ops);
    LaterLookup(cache.maxLength, before, host, kept, stale, now, between, later);
    ServedExactly(host, asked, kept, stale, now, later);
    ServedRecords(host, asked, kept, stale, now, later);
    size := None;
    failure := RelayAndRun(cache, before, reply, start, host, stale, now, between);
    if failure.Some? {
      return;
    }
    size := AnswerQuery(cache, buf, query, host, later);
  }

  /** On a fresh cache, after any calls whose stores are all about other hosts, an A or AAAA query for the host is a
      miss: nothing is sent, and the cache stays as it was. */
  method AskAboutAnother(cache: C.Cache, ops: seq<L.Op>, ghost hosts: seq<seq<byte>>, buf: array<byte>, query: seq<byte>, ghost host: seq<byte>,
                         now: int)
    returns (failure: Option<B.Failure>, size: Option<nat>)
    requires cache.Valid() && cache.Contents() == [] && cache.released == 0
    requires |hosts| == |ops| && forall i :: 0 <= i < |ops| ==>
               L.Legal(ops[i]) && (ops[i].Lookup? || (ops[i].name == Chars(hosts[i]) && hosts[i] != host))
    requires AsksFor(query, host) && Holds(buf[..], 0, query)
    modifies cache, cache.records, cache.stack, cache.table, cache.table.Repr, buf
    ensures (failure.None? ==> cache.Valid()) && size.None?
    ensures var end := B.Run([], 0, cache.maxLength, cache.maxSize, ops);
            failure == B.FailureOf(end) && (failure.None? ==> end.Returned? && cache.Contents() == end.lru)
  {
    hide C.Cache.Valid, L.Legal, L.Get, B.Run, B.Replies, AsksFor, Holds, Chars;
    forall i | 0 <= i < |ops| ensures ops[i].Lookup? || ops[i].name != Chars(host) {
      SameKeyExactly(hosts[i], host);
    }
    B.NeverStoredIsMissed(cache.maxLength, cache.maxSize, ops, Chars(host), now);
    size := None;
    var answers;
    answers, failure := cache.Run(ops);
    if failure.None? {
      size := AnswerQuery(cache, buf, query, host, now);
    }
  }

  // ----- replies that are not served as they were sent -----

  /** A compressed reply about a host, with at most ten address records, is one that the relay can store, and it keeps
      exactly those. */
  lemma CompressedIsStorable(id: nat, host: seq<byte>, qtype: nat, rs: seq<Record>)
    requires id < 0x1_0000 && qtype < 0x1_0000 && |rs| < 0x1_0000 && P.AllCarriable(rs)
    requires LegalLabels(Split(host)) && 0 !in host && |host| < R.MAX_NAME_LENGTH && |P.ReplyBytes(id, host, qtype, rs)| <= 32767
    requires |R.AddressRecords(P.Owned(host, rs))| <= 10
    ensures var msg := P.ReplyBytes(id, host, qtype, rs);
            Storable(msg, 18 + |host|, host) && Kept(msg, 18 + |host|, host) == R.AddressRecords(P.Owned(host, rs))
  {
    hide P.ReplyBytes, R.Scan, R.Scannable, R.AddressRecords, R.CompressedRecords, R.HasRoom, R.PlainQuestions, QuestionAt, Split, U16, LegalLabels, NamesHost, P.HostAt12;
    var msg, start := P.ReplyBytes(id, host, qtype, rs), 18 + |host|;
    P.ReplyParts(id, host, qtype, rs);
    HostNamed(msg, host);
    OnePlainQuestion(msg, start);
    R.ScanOfCompressed(msg, start, |rs|);
    FewKept(msg, start, |rs|);
  }

  lemma HostNamed(msg: seq<byte>, host: seq<byte>)
    requires P.HostAt12(msg, host) && 0 !in host && |msg| >= 18 + |host|
    ensures NamesHost(msg, 12, host) && !NameAt(msg, 12).value.pointer && R.QuestionFieldsAt(msg) + 4 <= |msg|
  {
    hide Split, LegalLabels, Tail, Walk;
    P.PlainTail12(msg, host);
    JoinSplit(host);
  }

  lemma FewKept(msg: seq<byte>, start: nat, count: nat)
    requires R.Scannable(msg, start, count) && |R.Scan(msg, start, count)| <= 10
    ensures R.HasRoom(msg, start, count, 20)
  {
    hide R.Scannable, R.Scan;
    if count > 0 {
      R.ScanSplit(msg, start, count, count - 1);
    }
  }

  lemma OnePlainQuestion(msg: seq<byte>, end: nat)
    requires QuestionAt(msg, 12).Some? && QuestionAt(msg, 12).value.1 == end && !NameAt(msg, 12).value.pointer
    ensures R.PlainQuestions(msg, 12, 1, end)
  {
    assert R.PlainQuestions(msg, end, 0, end);
  }

  lemma TwoAddresses(host: seq<byte>, a: Record, b: Record)
    requires R.Wanted(a.rtype) && R.Wanted(b.rtype)
    ensures R.AddressRecords(P.Owned(host, [a, b])) == [a.(owner := Split(host)), b.(owner := Split(host))]
  {
    var rs := P.Owned(host, [a, b]);
    assert rs[1..][1..] == [] && rs[1..][0] == rs[1];
    assert R.AddressRecords([]) == [] && R.AddressRecords(rs[1..]) == [rs[1]] + R.AddressRecords(rs[1..][1..]);
  }

  lemma TwoFit(id: nat, host: seq<byte>, qtype: nat, a: Record, b: Record)
    requires id < 0x1_0000 && qtype < 0x1_0000 && P.Carriable(a) && P.Carriable(b) && |host| < R.MAX_NAME_LENGTH
    ensures |P.ReplyBytes(id, host, qtype, [a, b])| <= 32767
  {
    W.QuestionLength(host, qtype, 1);
    assert [a, b][1..] == [b] && [b][1..] == [];
    assert P.PointedAll([]) == [] && P.PointedAll([b]) == P.PointedBytes(b) + P.PointedAll([b][1..]);
    assert P.PointedAll([a, b]) == P.PointedBytes(a) + P.PointedAll([a, b][1..]);
  }

  /** A reply with one A and one AAAA record, each stored under the request's type: an A query is then answered with the
      first four bytes of the version 6 address, as an address of its own. */
  lemma MixedReply(id: nat, host: seq<byte>, v4: seq<byte>, v6: seq<byte>, stale: seq<Address>, now: int)
    returns (reply: seq<byte>, start: nat)
    requires id < 0x1_0000 && LegalLabels(Split(host)) && 0 !in host && |host| < R.MAX_NAME_LENGTH
    requires |v4| == 4 && |v6| == 16 && |stale| == 20
    ensures Storable(reply, start, host)
    ensures var kept := Kept(reply, start, host);
            && kept == [Record(Split(host), TYPE_A, 1, 60, v4), Record(Split(host), TYPE_AAAA, 1, 60, v6)]
            && var sent := Served(host, Question(Split(host), TYPE_A, 1), ReplyData(host, kept, stale, now), now);
               && sent == [Record(Split(host), TYPE_A, 1, 60, v4), Record(Split(host), TYPE_A, 1, 60, v6[..4])]
               && !SameAddresses(sent, kept, 0)
  {
    hide Split, LegalLabels, Storable, Kept, Chars;
    var a, b := Record([], TYPE_A, 1, 60, v4), Record([], TYPE_AAAA, 1, 60, v6);
    TwoAddresses(host, a, b);
    TwoFit(id, host, TYPE_A, a, b);
    hide P.Owned, P.ReplyBytes, R.AddressRecords;
    CompressedIsStorable(id, host, TYPE_A, [a, b]);
    reply, start := P.ReplyBytes(id, host, TYPE_A, [a, b]), 18 + |host|;
    assert v6[..16] == v6;
    var kept := Kept(reply, start, host);
    assert kept[1].rtype == TYPE_AAAA;
  }

  /** Two A records with 100 and 1 seconds to live. */
  function ShortSecond(host: seq<byte>, first: seq<byte>, second: seq<byte>): seq<Record> {
    [Record(Split(host), TYPE_A, 1, 100, first), Record(Split(host), TYPE_A, 1, 1, second)]
  }

  /** A reply whose second record expires first: as long as the first one lives, the cache answers with both, and the
      expired one goes out with ttl 0. */
  lemma ExpiredServed(id: nat, host: seq<byte>, first: seq<byte>, second: seq<byte>, stale: seq<Address>, now: int, maxLength: nat)
    returns (reply: seq<byte>, start: nat)
    requires id < 0x1_0000 && LegalLabels(Split(host)) && 0 !in host && |host| < R.MAX_NAME_LENGTH
    requires |first| == 4 && |second| == 4 && |stale| == 20 && maxLength >= 2
    ensures Storable(reply, start, host) && Kept(reply, start, host) == ShortSecond(host, first, second)
    ensures var kept, later := ShortSecond(host, first, second), now + 50;
            var data := ReplyData(host, kept, stale, now);
            && L.Get(L.After([], maxLength, [ReplyOp(host, kept, stale, now)]), Chars(host), later).1 == Some(data)
            && data[1].ttl < later
            && var sent := Served(host, Question(Split(host), TYPE_A, 1), data, later);
               && sent == [Record(Split(host), TYPE_A, 1, 50, first), Record(Split(host), TYPE_A, 1, 0, second)]
               && !SameAddresses(sent, kept, 50)
  {
    hide Split, LegalLabels, Storable, Kept, Chars, L.Live, L.After, L.Get, Served;
    var a, b := Record([], TYPE_A, 1, 100, first), Record([], TYPE_A, 1, 1, second);
    TwoAddresses(host, a, b);
    TwoFit(id, host, TYPE_A, a, b);
    hide P.Owned, P.ReplyBytes, R.AddressRecords;
    CompressedIsStorable(id, host, TYPE_A, [a, b]);
    reply, start := P.ReplyBytes(id, host, TYPE_A, [a, b]), 18 + |host|;
    ShortSecondServed(host, first, second, stale, now);
    ShortSecondHit(host, first, second, stale, now, maxLength);
  }

  lemma ShortSecondServed(host: seq<byte>, first: seq<byte>, second: seq<byte>, stale: seq<Address>, now: int)
    requires |first| == 4 && |second| == 4 && |stale| == 20
    ensures var kept := ShortSecond(host, first, second);
            var sent := Served(host, Question(Split(host), TYPE_A, 1), ReplyData(host, kept, stale, now), now + 50);
            && sent == [Record(Split(host), TYPE_A, 1, 50, first), Record(Split(host), TYPE_A, 1, 0, second)]
            && !SameAddresses(sent, kept, 50)
  {
    hide Split, Chars;
    var kept := ShortSecond(host, first, second);
    assert kept[1].ttl == 1;
  }

  lemma ShortSecondHit(host: seq<byte>, first: seq<byte>, second: seq<byte>, stale: seq<Address>, now: int, maxLength: nat)
    requires |first| == 4 && |second| == 4 && |stale| == 20 && maxLength >= 2
    ensures var kept := ShortSecond(host, first, second);
            L.Get(L.After([], maxLength, [ReplyOp(host, kept, stale, now)]), Chars(host), now + 50).1 == Some(ReplyData(host, kept, stale, now))
  {
    hide Split, Chars, L.Live, L.After, L.Get;
    var kept := ShortSecond(host, first, second);
    JustStored(maxLength, ReplyOp(host, kept, stale, now));
    LaterLookup(maxLength, [], host, kept, stale, now, [], now + 50);
    assert Whole([], ReplyOp(host, kept, stale, now), []) == [ReplyOp(host, kept, stale, now)];
  }

  lemma JustStored(maxLength: nat, op: L.Op)
    requires maxLength >= 2 && !op.Lookup?
    ensures L.Cached(L.After([], maxLength, [op]), op.name)
  {
    assert [op][..0] == [];
  }
}
