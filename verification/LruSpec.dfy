/** The abstract record cache: a most-recent-first sequence of entries with distinct names. */
module LruSpec {
  import opened Options
  import opened Sequences
  import Addresses

  /** One struct record_data: label, address, and the time at which it expires. */
  datatype RecordData = RecordData(name: string, ip: Addresses.Address, ttl: int)

  /** One cached name; `bytes` is the size that the cache books for its records. */
  datatype Entry = Entry(name: string, records: seq<RecordData>, bytes: nat)

  type Lru = seq<Entry>

  /** LRU_POP_ITEM of include/cache.h. */
  const EVICTED: nat := 10

  /** sizeof(struct record_data) on a 64-bit machine. */
  const RECORD_BYTES: nat := 64

  /** DNS_CACHE_PERMANENT of include/cache.h: such an entry never expires. */
  const PERMANENT: int := 1099511627776

  ghost predicate Distinct(s: Lru) {
    forall i, j :: 0 <= i < j < |s| ==> s[i].name != s[j].name
  }

  /** The position of the first entry with the name, or the length when there is none. */
  function Position(s: Lru, name: string): (k: nat)
    ensures k <= |s|
    ensures forall i :: 0 <= i < k ==> s[i].name != name
    ensures k < |s| ==> s[k].name == name
  {
    if s == [] || s[0].name == name then 0 else 1 + Position(s[1..], name)
  }

  predicate Cached(s: Lru, name: string) { Position(s, name) < |s| }

  function Remove(s: Lru, name: string): Lru {
    if Cached(s, name) then Without(s, Position(s, name)) else s
  }

  /** check_A_record: only the first record's expiry time counts. */
  predicate Expired(records: seq<RecordData>, now: int) {
    records != [] && records[0].ttl < now && records[0].ttl != PERMANENT
  }

  /** The records that add_A_record and add_A_multi_record keep. */
  function Live(data: seq<RecordData>, now: int): (r: seq<RecordData>)
    ensures forall i :: 0 <= i < |r| ==> r[i] in data && r[i].ttl >= now
  {
    if data == [] then []
    else
      var last := data[|data| - 1];
      Live(data[..|data| - 1], now) + if last.ttl >= now then [last] else []
  }

  /** The records that add_A_record and add_A_multi_record keep are chosen one by one, in order ... */
  lemma {:induction false} LiveConcat(a: seq<RecordData>, b: seq<RecordData>, now: int)
    ensures Live(a + b, now) == Live(a, now) + Live(b, now)
  {
    if b == [] {
      assert a + b == a;
    } else {
      assert (a + b)[..|a + b| - 1] == a + b[..|b| - 1];
      LiveConcat(a, b[..|b| - 1], now);
    }
  }

  /** ... each by its own expiry time alone. */
  lemma LiveOne(r: RecordData, now: int)
    ensures Live([r], now) == if r.ttl >= now then [r] else []
  {
    assert [r][..0] == [];
  }

  lemma LiveNext(data: seq<RecordData>, i: nat, now: int)
    requires i < |data|
    ensures Live(data[..i + 1], now) == if data[i].ttl >= now then Live(data[..i], now) + [data[i]] else Live(data[..i], now)
  {
    assert data[..i + 1][..i] == data[..i] && Live(data[..i], now) + [] == Live(data[..i], now);
  }

  /** No unexpired record is lost, whatever stands around it. */
  lemma NoUnexpiredLost(data: seq<RecordData>, now: int)
    ensures LosesNoUnexpired(data, Live(data, now), now)
  {
    hide Live;
    forall i | 0 <= i < |data| && data[i].ttl >= now ensures data[i] in Live(data, now) {
      UnexpiredIsKept(data, now, i);
    }
  }

  predicate LosesNoUnexpired(data: seq<RecordData>, kept: seq<RecordData>, now: int) {
    forall i :: 0 <= i < |data| && data[i].ttl >= now ==> data[i] in kept
  }

  lemma UnexpiredIsKept(data: seq<RecordData>, now: int, i: nat)
    requires i < |data| && data[i].ttl >= now
    ensures data[i] in Live(data, now)
  {
    hide Live;
    assert data == data[..i + 1] + data[i + 1..];
    LiveConcat(data[..i + 1], data[i + 1..], now);
    LiveNext(data, i, now);
  }

  /** What one pop_back leaves: the least recent entries are dropped. */
  function Evict(s: Lru): Lru {
    s[..|s| - if |s| < EVICTED then |s| else EVICTED]
  }

  /** pop_back drops min(10, length) entries, from the least recent end, and nothing else. */
  lemma EvictExactly(s: Lru)
    ensures |Evict(s)| == if |s| <= 10 then 0 else |s| - 10
    ensures forall i :: 0 <= i < |Evict(s)| ==> Evict(s)[i] == s[i]
  {
    assert EVICTED == 10;
  }

  lemma EvictShrinks(s: Lru)
    requires s != []
    ensures |Evict(s)| < |s|
  {
  }

  /** What is left after push_front makes room in a full cache. */
  function MakeRoom(s: Lru, maxLength: nat): Lru {
    if |s| >= maxLength - 1 then Evict(s) else s
  }

  function Get(s: Lru, name: string, now: int): (Lru, Option<seq<RecordData>>) {
    var k := Position(s, name);
    if k == |s| then (s, None)
    else if Expired(s[k].records, now) then (Without(s, k), None)
    else ([s[k]] + Without(s, k), Some(s[k].records))
  }

  /** What a lookup decides, with check_A_record's comparison written out: it misses exactly when the name is not
      there or its first record's time has passed, and then the name is gone; otherwise the entry comes to the front. */
  lemma GetExactly(s: Lru, name: string, now: int)
    requires Distinct(s)
    ensures var k, after, answer := Position(s, name), Get(s, name, now).0, Get(s, name, now).1;
            && (answer.None? <==> k == |s| || (s[k].records != [] && s[k].records[0].ttl < now && s[k].records[0].ttl != 1099511627776))
            && (answer.None? ==> !Cached(after, name) && after == if k < |s| then s[..k] + s[k + 1..] else s)
            && (answer.Some? ==> answer.value == s[k].records && after == [s[k]] + s[..k] + s[k + 1..])
  {
    hide Position, Get, Without, Distinct;
    GetCases(s, name, now);
    AbsentAfterRemove(s, name);
    if Cached(s, name) {
      WithoutIsCut(s, Position(s, name));
    }
  }

  lemma GetCases(s: Lru, name: string, now: int)
    ensures var k, after, answer := Position(s, name), Get(s, name, now).0, Get(s, name, now).1;
            && (answer.None? <==> k == |s| || (s[k].records != [] && s[k].records[0].ttl < now && s[k].records[0].ttl != 1099511627776))
            && (answer.None? ==> after == if k < |s| then s[..k] + s[k + 1..] else s)
            && (answer.Some? ==> answer.value == s[k].records && after == [s[k]] + s[..k] + s[k + 1..])
  {
    hide Position, Without;
    var k := Position(s, name);
    if k < |s| {
      WithoutIsCut(s, k);
      assert ([s[k]] + s[..k]) + s[k + 1..] == [s[k]] + (s[..k] + s[k + 1..]);
    }
  }

  lemma WithoutIsCut(s: Lru, k: nat)
    requires k < |s|
    ensures Without(s, k) == s[..k] + s[k + 1..]
  {
  }

  function Set(s: Lru, maxLength: nat, e: Entry): Lru {
    [e] + Remove(MakeRoom(s, maxLength), e.name)
  }

  // ----- whole runs -----

  /** The three calls: get_cache_A_record, set_cache_A_multi_record and set_cache_A_record. */
  datatype Op =
    | Lookup(name: string, now: int)
    | Store(name: string, data: seq<RecordData>, now: int)
    | StoreOne(name: string, record: RecordData, now: int)

  function Given(op: Op): seq<RecordData>
    requires !op.Lookup?
  {
    if op.Store? then op.data else [op.record]
  }

  /** The entry that a store leaves.  add_A_multi_record books the record structs alone, add_A_record also
      the copy of the label. */
  function EntryOf(op: Op): Entry
    requires !op.Lookup?
  {
    var live := Live(Given(op), op.now);
    Entry(op.name, live, |live| * RECORD_BYTES + if op.StoreOne? && live != [] then |op.name| + 1 else 0)
  }

  /** What the relay guarantees about a store: the records carry the key, and one of them has not expired. */
  ghost predicate Legal(op: Op) {
    !op.Lookup? ==> Live(Given(op), op.now) != [] && forall i :: 0 <= i < |Given(op)| ==> Given(op)[i].name == op.name
  }

  function Apply(s: Lru, maxLength: nat, op: Op): Lru {
    if op.Lookup? then Get(s, op.name, op.now).0 else Set(s, maxLength, EntryOf(op))
  }

  function Answer(s: Lru, op: Op): Option<seq<RecordData>> {
    if op.Lookup? then Get(s, op.name, op.now).1 else None
  }

  /** The state after the first k operations. */
  function After(s: Lru, maxLength: nat, ops: seq<Op>): Lru {
    if ops == [] then s else Apply(After(s, maxLength, ops[..|ops| - 1]), maxLength, ops[|ops| - 1])
  }

  function Answers(s: Lru, maxLength: nat, ops: seq<Op>): (r: seq<Option<seq<RecordData>>>)
    ensures |r| == |ops|
  {
    if ops == [] then []
    else
      var k := |ops| - 1;
      Answers(s, maxLength, ops[..k]) + [Answer(After(s, maxLength, ops[..k]), ops[k])]
  }

  lemma {:induction false} AbsentAfterRemove(s: Lru, name: string)
    requires Distinct(s)
    ensures Distinct(Remove(s, name)) && !Cached(Remove(s, name), name)
    ensures |Remove(s, name)| == |s| - if Cached(s, name) then 1 else 0
  {
    var k := Position(s, name);
    if k < |s| {
      var r := Without(s, k);
      var j := Position(r, name);
      if j < |r| {
        assert r[j] == s[if j < k then j else j + 1];
      }
    }
  }

  lemma SetKeeps(s: Lru, maxLength: nat, e: Entry)
    requires maxLength >= 2 && Distinct(s) && |s| < maxLength
    ensures Distinct(Set(s, maxLength, e)) && |Set(s, maxLength, e)| < maxLength
  {
    var room := MakeRoom(s, maxLength);
    assert Distinct(room) && |room| < maxLength - 1;
    AbsentAfterRemove(room, e.name);
    hide Remove, MakeRoom, Evict;
    assert Position(Remove(room, e.name), e.name) == |Remove(room, e.name)|;
  }

  /** Every operation keeps the names distinct and the length below maxLength. */
  lemma ApplyKeeps(s: Lru, maxLength: nat, op: Op)
    requires maxLength >= 2 && Distinct(s) && |s| < maxLength
    ensures Distinct(Apply(s, maxLength, op)) && |Apply(s, maxLength, op)| < maxLength
  {
    if op.Lookup? {
      var k := Position(s, op.name);
      if k < |s| {
        var r := Without(s, k);
        assert forall i :: 0 <= i < |r| ==> r[i].name != s[k].name;
      }
    } else {
      hide Set, EntryOf;
      SetKeeps(s, maxLength, EntryOf(op));
    }
  }

  lemma {:induction false} RunKeeps(s: Lru, maxLength: nat, ops: seq<Op>)
    requires maxLength >= 2 && Distinct(s) && |s| < maxLength
    ensures Distinct(After(s, maxLength, ops)) && |After(s, maxLength, ops)| < maxLength
  {
    if ops != [] {
      RunKeeps(s, maxLength, ops[..|ops| - 1]);
      ApplyKeeps(After(s, maxLength, ops[..|ops| - 1]), maxLength, ops[|ops| - 1]);
    }
  }

  lemma {:induction false} AfterConcat(s: Lru, maxLength: nat, a: seq<Op>, b: seq<Op>)
    ensures After(s, maxLength, a + b) == After(After(s, maxLength, a), maxLength, b)
    decreases |b|
  {
    if b == [] {
      assert a + b == a;
    } else {
      assert (a + b)[..|a + b| - 1] == a + b[..|b| - 1];
      AfterConcat(s, maxLength, a, b[..|b| - 1]);
    }
  }

  // ----- what a hit returns -----

  /** What the last store of a name in a run left, if there was one. */
  function LastStored(ops: seq<Op>, name: string): Option<seq<RecordData>> {
    if ops == [] then None
    else
      var op := ops[|ops| - 1];
      if !op.Lookup? && op.name == name then Some(Live(Given(op), op.now)) else LastStored(ops[..|ops| - 1], name)
  }

  /** Each entry comes from an entry of the old state, or is the one just stored. */
  lemma EntriesComeFrom(s: Lru, maxLength: nat, op: Op, i: nat)
    requires maxLength >= 2 && Distinct(s) && |s| < maxLength && i < |Apply(s, maxLength, op)|
    ensures var e := Apply(s, maxLength, op)[i];
            if !op.Lookup? && op.name == e.name then e.records == Live(Given(op), op.now) else e in s
  {
    if op.Lookup? {
      LookedUp(s, op.name, op.now, i);
      hide Get;
    } else if i > 0 {
      hide Live, Remove, Position;
      EntryOfRest(s, MakeRoom(s, maxLength), op.name, i - 1);
    }
  }

  lemma LookedUp(s: Lru, name: string, now: int, i: nat)
    requires i < |Get(s, name, now).0|
    ensures Get(s, name, now).0[i] in s
  {
    hide Expired;
    var k := Position(s, name);
    if k < |s| {
      assert forall j :: 0 <= j < |s| - 1 ==> Without(s, k)[j] in s;
    }
  }

  lemma EntryOfRest(s: Lru, room: Lru, name: string, j: nat)
    requires Distinct(s) && |room| <= |s| && room == s[..|room|] && j < |Remove(room, name)|
    ensures Remove(room, name)[j] in s && Remove(room, name)[j].name != name
  {
    AbsentAfterRemove(room, name);
    assert Position(Remove(room, name), name) == |Remove(room, name)|;
  }

  lemma {:induction false} EntriesAreLastStored(maxLength: nat, ops: seq<Op>, i: nat)
    requires maxLength >= 2 && i < |After([], maxLength, ops)|
    ensures var e := After([], maxLength, ops)[i]; LastStored(ops, e.name) == Some(e.records)
  {
    if ops != [] {
      var k := |ops| - 1;
      var s, e := After([], maxLength, ops[..k]), After([], maxLength, ops)[i];
      RunKeeps([], maxLength, ops[..k]);
      EntriesComeFrom(s, maxLength, ops[k], i);
      if ops[k].Lookup? || ops[k].name != e.name {
        var j :| 0 <= j < |s| && s[j] == e;
        EntriesAreLastStored(maxLength, ops[..k], j);
      }
    }
  }

  /** After any run a lookup of a cached name returns exactly the records that the last store of that very name
      left, unless the time of the first of them has passed. */
  lemma HitReturnsLastStored(maxLength: nat, ops: seq<Op>, name: string, now: int)
    requires maxLength >= 2
    ensures var answer := Answer(After([], maxLength, ops), Lookup(name, now));
            if !Cached(After([], maxLength, ops), name) then answer == None
            else
              && LastStored(ops, name).Some?
              && var left := LastStored(ops, name).value;
                 answer == if left != [] && left[0].ttl < now && left[0].ttl != 1099511627776 then None else Some(left)
  {
    var s := After([], maxLength, ops);
    if Cached(s, name) {
      EntriesAreLastStored(maxLength, ops, Position(s, name));
    }
  }

  // ----- retention -----

  /** The operation stores the name or hits it alive. */
  predicate Uses(s: Lru, op: Op, name: string) {
    op.name == name && (!op.Lookup? || (Cached(s, name) && !Expired(s[Position(s, name)].records, op.now)))
  }

  predicate FindsExpired(s: Lru, op: Op, name: string) {
    op.Lookup? && op.name == name && Cached(s, name) && Expired(s[Position(s, name)].records, op.now)
  }

  /** The distinct names stored or hit along a run. */
  function UsedNames(s: Lru, maxLength: nat, ops: seq<Op>): set<string> {
    if ops == [] then {}
    else
      var k := |ops| - 1;
      UsedNames(s, maxLength, ops[..k])
      + if Uses(After(s, maxLength, ops[..k]), ops[k], ops[k].name) then {ops[k].name} else {}
  }

  /** Along the run the name is neither used again nor found expired. */
  ghost predicate LeftAlone(s: Lru, maxLength: nat, ops: seq<Op>, name: string) {
    forall j :: 0 <= j < |ops| ==>
      !Uses(After(s, maxLength, ops[..j]), ops[j], name) && !FindsExpired(After(s, maxLength, ops[..j]), ops[j], name)
  }

  /** A name is used by a call that stores it or whose lookup of it hits, and found expired by a lookup that misses though
      it is cached. */
  lemma UsesExactly(s: Lru, op: Op, name: string)
    ensures Uses(s, op, name) <==> op.name == name && (!op.Lookup? || Get(s, name, op.now).1.Some?)
    ensures FindsExpired(s, op, name) <==> op.Lookup? && op.name == name && Cached(s, name) && Get(s, name, op.now).1.None?
  {
  }

  ghost predicate UsedAt(s: Lru, maxLength: nat, ops: seq<Op>, j: nat, name: string) {
    j < |ops| && Uses(After(s, maxLength, ops[..j]), ops[j], name)
  }

  lemma {:induction false} UsedNamesExactly(s: Lru, maxLength: nat, ops: seq<Op>, name: string)
    ensures name in UsedNames(s, maxLength, ops) <==> exists j: nat :: UsedAt(s, maxLength, ops, j, name)
  {
    if ops != [] {
      var k := |ops| - 1;
      UsedNamesExactly(s, maxLength, ops[..k], name);
      LastUse(s, maxLength, ops, name);
      hide UsedNames, UsedAt;
      forall j: nat ensures UsedAt(s, maxLength, ops, j, name) <==> UsedAt(s, maxLength, ops[..k], j, name) || (j == k && UsedAt(s, maxLength, ops, k, name)) {
        SameUse(s, maxLength, ops, j, name);
      }
    }
  }

  lemma LastUse(s: Lru, maxLength: nat, ops: seq<Op>, name: string)
    requires ops != []
    ensures var k := |ops| - 1;
            name in UsedNames(s, maxLength, ops) <==> name in UsedNames(s, maxLength, ops[..k]) || UsedAt(s, maxLength, ops, k, name)
  {
    hide After;
  }

  lemma SameUse(s: Lru, maxLength: nat, ops: seq<Op>, j: nat, name: string)
    requires ops != []
    ensures var k := |ops| - 1;
            UsedAt(s, maxLength, ops, j, name) <==> UsedAt(s, maxLength, ops[..k], j, name) || (j == k && UsedAt(s, maxLength, ops, k, name))
  {
    hide After, Uses;
    if j < |ops| - 1 {
      assert ops[..|ops| - 1][..j] == ops[..j];
    }
  }

  ghost predicate AheadUsed(s: Lru, name: string, used: set<string>) {
    forall i :: 0 <= i < Position(s, name) ==> s[i].name in used
  }

  lemma PositionIs(s: Lru, name: string, k: nat)
    requires k < |s| && s[k].name == name && forall i :: 0 <= i < k ==> s[i].name != name
    ensures Position(s, name) == k
  {
  }

  lemma UseMovesToFront(s: Lru, maxLength: nat, op: Op, name: string)
    requires Uses(s, op, name)
    ensures Apply(s, maxLength, op) != [] && Apply(s, maxLength, op)[0].name == name
  {
  }

  lemma {:induction false} PrefixFits(s: Lru, k: nat, used: set<string>)
    requires Distinct(s) && k <= |s| && forall i :: 0 <= i < k ==> s[i].name in used
    ensures k <= |used|
    decreases k
  {
    if k > 0 {
      PrefixFits(s, k - 1, used - {s[k - 1].name});
    }
  }

  /** In a full cache, making room keeps exactly the entries at the first maxLength - 11 positions, if any. */
  lemma MakeRoomKeeps(s: Lru, maxLength: nat, name: string)
    requires |s| == maxLength - 1 && Cached(s, name)
    ensures Cached(MakeRoom(s, maxLength), name) <==> Position(s, name) <= maxLength - 12
    ensures Position(s, name) <= maxLength - 12 ==> Position(MakeRoom(s, maxLength), name) == Position(s, name)
  {
    var k := Position(s, name);
    var r := MakeRoom(s, maxLength);
    if k < |r| {
      PositionIs(r, name, k);
    }
  }

  /** Moving another name to the front, or dropping it, keeps an entry and what stands ahead of it. */
  lemma AheadAfterRemove(s: Lru, other: string, name: string, used: set<string>)
    requires Cached(s, name) && other != name && AheadUsed(s, name, used)
    ensures var r := Remove(s, other);
            Cached(r, name) && r[Position(r, name)] == s[Position(s, name)] && AheadUsed(r, name, used)
  {
    var k, j := Position(s, name), Position(s, other);
    if j < |s| {
      PositionIs(Without(s, j), name, if k < j then k else k - 1);
    }
  }

  lemma AheadAfterPush(s: Lru, e: Entry, name: string, used: set<string>)
    requires Cached(s, name) && e.name != name && AheadUsed(s, name, used)
    ensures var r := [e] + s;
            Cached(r, name) && r[Position(r, name)] == s[Position(s, name)] && AheadUsed(r, name, used + {e.name})
  {
    PositionIs([e] + s, name, Position(s, name) + 1);
  }

  lemma RetentionStep(s: Lru, maxLength: nat, op: Op, name: string, used: set<string>)
    requires maxLength >= 12 && Distinct(s) && |s| < maxLength
    requires Cached(s, name) && AheadUsed(s, name, used) && |used| <= maxLength - 12
    requires !Uses(s, op, name) && !FindsExpired(s, op, name)
    ensures var r := Apply(s, maxLength, op);
            && Cached(r, name) && r[Position(r, name)] == s[Position(s, name)]
            && AheadUsed(r, name, used + if Uses(s, op, op.name) then {op.name} else {})
  {
    var other := op.name;
    if op.Lookup? {
      AheadAfterRemove(s, other, name, used);
      if Uses(s, op, other) {
        AheadAfterPush(Remove(s, other), s[Position(s, other)], name, used);
      }
    } else {
      PrefixFits(s, Position(s, name), used);
      if |s| == maxLength - 1 {
        MakeRoomKeeps(s, maxLength, name);
      }
      var r := MakeRoom(s, maxLength);
      AheadAfterRemove(r, other, name, used);
      AheadAfterPush(Remove(r, other), EntryOf(op), name, used);
    }
  }

  lemma {:induction false} RetentionRun(s: Lru, maxLength: nat, ops: seq<Op>, name: string)
    requires maxLength >= 12 && Distinct(s) && |s| < maxLength && s != [] && s[0].name == name
    requires LeftAlone(s, maxLength, ops, name) && |UsedNames(s, maxLength, ops)| <= maxLength - 12
    ensures var r := After(s, maxLength, ops);
            Cached(r, name) && r[Position(r, name)] == s[0] && AheadUsed(r, name, UsedNames(s, maxLength, ops))
  {
    if ops != [] {
      var k := |ops| - 1;
      var before := ops[..k];
      forall j | 0 <= j < |before| ensures before[..j] == ops[..j] && before[j] == ops[j] {
      }
      var used := UsedNames(s, maxLength, before);
      SubsetSize(used, UsedNames(s, maxLength, ops));
      RetentionRun(s, maxLength, before, name);
      RunKeeps(s, maxLength, before);
      RetentionStep(After(s, maxLength, before), maxLength, ops[k], name, used);
    }
  }

  lemma {:induction false} SubsetSize<X>(a: set<X>, b: set<X>)
    requires a <= b
    ensures |a| <= |b|
  {
    if a != {} {
      var x :| x in a;
      SubsetSize(a - {x}, b - {x});
    }
  }

  /** Retention over whole runs: in a cache of maxLength at least 12, started empty, a name that was just
      stored or hit is still cached with the same records after any further operations that neither use
      it nor find it expired, as long as at most maxLength - 12 distinct other names were used. */
  lemma Retention(maxLength: nat, before: seq<Op>, use: Op, after: seq<Op>, name: string)
    requires maxLength >= 12 && Uses(After([], maxLength, before), use, name)
    requires var s := After([], maxLength, before + [use]);
             LeftAlone(s, maxLength, after, name) && |UsedNames(s, maxLength, after)| <= maxLength - 12
    ensures var s, r := After([], maxLength, before + [use]), After([], maxLength, before + [use] + after);
            s != [] && Cached(r, name) && r[Position(r, name)] == s[0] && s[0].name == name
  {
    var s0, s := After([], maxLength, before), After([], maxLength, before + [use]);
    AfterConcat([], maxLength, before, [use]);
    assert [use][..0] == [];
    RunKeeps([], maxLength, before + [use]);
    UseMovesToFront(s0, maxLength, use, name);
    RetentionRun(s, maxLength, after, name);
    AfterConcat([], maxLength, before + [use], after);
  }

  // ----- the bound of Retention cannot be raised -----

  function Nth(i: nat): (r: string)
    ensures |r| == i
  {
    seq(i, _ => 'a')
  }

  function Fresh(i: nat): Op {
    Store(Nth(i), [RecordData(Nth(i), Addresses.ZERO, 0)], 0)
  }

  function Stores(from: nat, to: nat): (r: seq<Op>)
    requires from <= to
    ensures |r| == to - from
    ensures forall i :: 0 <= i < |r| ==> r[i] == Fresh(from + i)
  {
    seq(to - from, i requires 0 <= i < to - from => Fresh(from + i))
  }

  /** The cache after storing Nth(0), ..., Nth(n - 1). */
  function Filled(n: nat): (r: Lru)
    ensures |r| == n
    ensures forall i :: 0 <= i < n ==> |r[i].name| == n - 1 - i && r[i].bytes == RECORD_BYTES
  {
    if n == 0 then [] else [Entry(Nth(n - 1), [RecordData(Nth(n - 1), Addresses.ZERO, 0)], RECORD_BYTES)] + Filled(n - 1)
  }

  lemma AbsentByLength(s: Lru, name: string)
    requires forall i :: 0 <= i < |s| ==> |s[i].name| != |name|
    ensures !Cached(s, name)
  {
  }

  /** Storing an absent name in a cache with room just puts it in front. */
  lemma StoreNext(maxLength: nat, n: nat)
    requires 0 < n < maxLength
    ensures Apply(Filled(n - 1), maxLength, Fresh(n - 1)) == Filled(n)
  {
    AbsentByLength(Filled(n - 1), Nth(n - 1));
    var data := [RecordData(Nth(n - 1), Addresses.ZERO, 0)];
    assert data[..0] == [] && Live(data, 0) == data;
  }

  lemma {:induction false} AfterStores(maxLength: nat, n: nat)
    requires n < maxLength
    ensures After([], maxLength, Stores(0, n)) == Filled(n)
  {
    hide Apply, Fresh, Nth, Live;
    if n > 0 {
      AfterStores(maxLength, n - 1);
      assert Stores(0, n)[..n - 1] == Stores(0, n - 1);
      StoreNext(maxLength, n);
    }
  }

  /** Storing the newest name of a full cache again drops the ten oldest entries. */
  lemma GoneAfterRefill(maxLength: nat)
    requires maxLength >= 12
    ensures !Cached(Apply(Filled(maxLength - 1), maxLength, Fresh(maxLength - 2)), Nth(9))
  {
    var n := maxLength - 1;
    var room := MakeRoom(Filled(n), maxLength);
    assert forall i :: 0 <= i < |room| ==> room[i] == Filled(n)[i];
    AbsentByLength(Apply(Filled(n), maxLength, Fresh(n - 1)), Nth(9));
  }

  function NamesFrom(from: nat, to: nat): (r: set<string>)
    requires from <= to
    ensures |r| <= to - from
    ensures forall k :: from <= k < to ==> Nth(k) in r
  {
    if from == to then {} else NamesFrom(from, to - 1) + {Nth(to - 1)}
  }

  lemma {:induction false} UsedAreNamed(s: Lru, maxLength: nat, ops: seq<Op>, names: set<string>)
    requires forall j :: 0 <= j < |ops| ==> ops[j].name in names
    ensures UsedNames(s, maxLength, ops) <= names
  {
    if ops != [] {
      UsedAreNamed(s, maxLength, ops[..|ops| - 1], names);
    }
  }

  lemma FewUsed(s: Lru, maxLength: nat, after: seq<Op>)
    requires maxLength >= 12 && after == Stores(10, maxLength - 1) + [Fresh(maxLength - 2)]
    ensures |UsedNames(s, maxLength, after)| <= maxLength - 11
    ensures LeftAlone(s, maxLength, after, Nth(9))
  {
    var names := NamesFrom(10, maxLength - 1);
    forall j | 0 <= j < |after| ensures after[j].name in names && |after[j].name| >= 10 {
      var k := if j < maxLength - 11 then 10 + j else maxLength - 2;
      assert after[j] == Fresh(k);
    }
    UsedAreNamed(s, maxLength, after, names);
    SubsetSize(UsedNames(s, maxLength, after), names);
  }

  /** For every maxLength of at least 12 there is a run in which maxLength - 11 distinct other names are used
      after a name, nothing expires, and the name is gone. */
  lemma RetentionBoundIsTight(maxLength: nat) returns (before: seq<Op>, use: Op, after: seq<Op>)
    requires maxLength >= 12
    ensures Uses(After([], maxLength, before), use, use.name)
    ensures LeftAlone(After([], maxLength, before + [use]), maxLength, after, use.name)
    ensures |UsedNames(After([], maxLength, before + [use]), maxLength, after)| == maxLength - 11
    ensures !Cached(After([], maxLength, before + [use] + after), use.name)
    ensures before + [use] + after == Stores(0, maxLength - 1) + [Fresh(maxLength - 2)]
  {
    var n := maxLength - 1;
    before, use, after := Stores(0, 9), Fresh(9), Stores(10, n) + [Fresh(n - 1)];
    assert before + [use] + after == Stores(0, n) + [Fresh(n - 1)];
    AfterStores(maxLength, n);
    AfterConcat([], maxLength, Stores(0, n), [Fresh(n - 1)]);
    assert [Fresh(n - 1)][..0] == [];
    GoneAfterRefill(maxLength);
    var s := After([], maxLength, before + [use]);
    FewUsed(s, maxLength, after);
    if |UsedNames(s, maxLength, after)| <= maxLength - 12 {
      Retention(maxLength, before, use, after, use.name);
      assert false;
    }
  }
}
