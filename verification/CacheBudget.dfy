/** The byte budget of src/cache.c.  `used_size` starts at 0 and is only ever decreased, and it is a size_t, so
    after `released` bytes it holds -released modulo 2^64.  push_front runs pop_back until `used_size` + 1024 is
    at most `max_size`; once the sum passes zero from below that never happens again. */
module CacheBudget {
  import Addresses
  import opened LruSpec
  import opened Options
  import opened Sequences

  const WORD: nat := 0x1_0000_0000_0000_0000
  const HALF: nat := 0x8000_0000_0000_0000
  const QUARTER: nat := 0x4000_0000_0000_0000

  /** The bytes push_front wants left. */
  const MARGIN: nat := 1024

  function Wrap(x: int): (r: nat)
    ensures r < WORD
  {
    x % WORD
  }

  /** `used_size` after that many released bytes. */
  function Used(released: int): nat { Wrap(-released) }

  /** The guard of push_front's second loop. */
  predicate OverBudget(used: nat, maxSize: nat) { Wrap(used + MARGIN) > maxSize }

  /** The bytes booked for the entries. */
  function Bytes(s: Lru): nat {
    if s == [] then 0 else Bytes(s[..|s| - 1]) + s[|s| - 1].bytes
  }

  /** How a call can fail to return. */
  datatype Failure = Hang | NoSpace | Stop | Damage

  datatype Outcome = Returned(lru: Lru, released: nat) | Failed(failure: Failure)

  /** The entries that one pop_back drops. */
  function Victims(s: Lru): Lru { s[|Evict(s)|..] }

  /** The loop: pop_back until the guard is false.  pop_back changes nothing in an empty cache. */
  function Drain(s: Lru, released: nat, maxSize: nat): (r: Outcome)
    ensures r.Failed? ==> r.failure == Hang
    decreases |s|
  {
    if !OverBudget(Used(released), maxSize) then Returned(s, released)
    else if s == [] then Failed(Hang)
    else Drain(Evict(s), released + Bytes(Victims(s)), maxSize)
  }

  /** The bytes released by making room for a store. */
  function OwnEviction(s: Lru, maxLength: nat): nat {
    if |s| >= maxLength - 1 then Bytes(Victims(s)) else 0
  }

  /** Both of push_front's ways of making room. */
  function RoomFor(s: Lru, released: nat, maxLength: nat, maxSize: nat): (r: Outcome)
    ensures r.Failed? ==> r.failure == Hang
  {
    Drain(MakeRoom(s, maxLength), released + OwnEviction(s, maxLength), maxSize)
  }

  /** Why push_front does not return, given the room it made. */
  function Refusal(room: Outcome, maxLength: nat, name: string): Option<Failure> {
    if room.Failed? then Some(room.failure)
    else if |room.lru| >= maxLength - 1 && !Cached(room.lru, name) then Some(NoSpace)
    else None
  }

  /** push_front and the filling of its slot. */
  function StoreStep(s: Lru, released: nat, maxLength: nat, maxSize: nat, e: Entry): Outcome {
    var room := RoomFor(s, released, maxLength, maxSize);
    var refusal := Refusal(room, maxLength, e.name);
    if refusal.Some? then Failed(refusal.value) else Returned([e] + Remove(room.lru, e.name), room.released)
  }

  function FailureOf(end: Outcome): Option<Failure> {
    if end.Failed? then Some(end.failure) else None
  }

  /** The bytes released by a lookup: those of the entry it finds expired. */
  function ReleasedByLookup(s: Lru, name: string, now: int): nat {
    var k := Position(s, name);
    if k < |s| && Expired(s[k].records, now) then s[k].bytes else 0
  }

  function Step(s: Lru, released: nat, maxLength: nat, maxSize: nat, op: Op): Outcome {
    if op.Lookup? then Returned(Apply(s, maxLength, op), released + ReleasedByLookup(s, op.name, op.now))
    else StoreStep(s, released, maxLength, maxSize, EntryOf(op))
  }

  /** What one call does to the entries and the released bytes. */
  type Call = (Lru, nat, Op) -> Outcome

  /** A run that stops at the first call that does not return. */
  function RunOf(call: Call, s: Lru, released: nat, ops: seq<Op>): Outcome {
    if ops == [] then Returned(s, released)
    else
      var before := RunOf(call, s, released, ops[..|ops| - 1]);
      if before.Failed? then before else call(before.lru, before.released, ops[|ops| - 1])
  }

  /** The answers of the calls that returned. */
  function RepliesOf(call: Call, s: Lru, released: nat, ops: seq<Op>): seq<Option<seq<RecordData>>> {
    if ops == [] then []
    else
      var k := |ops| - 1;
      var before := RunOf(call, s, released, ops[..k]);
      RepliesOf(call, s, released, ops[..k])
      + if RunOf(call, s, released, ops).Returned? then [Answer(before.lru, ops[k])] else []
  }

  /** Nothing follows a call that does not return. */
  lemma {:induction false} StaysFailed(call: Call, s: Lru, released: nat, ops: seq<Op>, k: nat)
    requires k <= |ops| && RunOf(call, s, released, ops[..k]).Failed?
    ensures RunOf(call, s, released, ops) == RunOf(call, s, released, ops[..k])
    ensures RepliesOf(call, s, released, ops) == RepliesOf(call, s, released, ops[..k])
  {
    if k == |ops| {
      assert ops[..k] == ops;
    } else {
      assert ops[..|ops| - 1][..k] == ops[..k];
      StaysFailed(call, s, released, ops[..|ops| - 1], k);
    }
  }

  function Intended(maxLength: nat, maxSize: nat): Call {
    (s: Lru, released: nat, op: Op) => Step(s, released, maxLength, maxSize, op)
  }

  function Run(s: Lru, released: nat, maxLength: nat, maxSize: nat, ops: seq<Op>): Outcome {
    RunOf(Intended(maxLength, maxSize), s, released, ops)
  }

  function Replies(s: Lru, released: nat, maxLength: nat, maxSize: nat, ops: seq<Op>): seq<Option<seq<RecordData>>> {
    RepliesOf(Intended(maxLength, maxSize), s, released, ops)
  }

  lemma RunOne(s: Lru, released: nat, maxLength: nat, maxSize: nat, op: Op)
    ensures Run(s, released, maxLength, maxSize, [op]) == Step(s, released, maxLength, maxSize, op)
  {
    assert [op][..0] == [] && Run(s, released, maxLength, maxSize, []) == Returned(s, released);
  }

  lemma {:induction false} RunConcat(s: Lru, released: nat, maxLength: nat, maxSize: nat, a: seq<Op>, b: seq<Op>)
    ensures var first := Run(s, released, maxLength, maxSize, a);
            Run(s, released, maxLength, maxSize, a + b) ==
            if first.Failed? then first else Run(first.lru, first.released, maxLength, maxSize, b)
    decreases |b|
  {
    hide Step;
    if b == [] {
      assert a + b == a;
    } else {
      assert (a + b)[..|a + b| - 1] == a + b[..|b| - 1];
      RunConcat(s, released, maxLength, maxSize, a, b[..|b| - 1]);
    }
  }

  // ----- arithmetic of the guard -----

  lemma WrapShift(x: int, y: int)
    ensures Wrap(Wrap(x) + y) == Wrap(x + y)
  {
    var q := x / WORD;
    assert Wrap(x) + y == x + y - q * WORD;
    WrapPeriod(x + y, q);
  }

  lemma WrapPeriod(x: int, q: int)
    ensures Wrap(x - q * WORD) == Wrap(x)
  {
    var d, m := x / WORD, x % WORD;
    assert x - q * WORD == (d - q) * WORD + m;
    QuotientUnique(x - q * WORD, d - q, m);
  }

  lemma QuotientUnique(x: int, q: int, m: int)
    requires x == q * WORD + m && 0 <= m < WORD
    ensures x % WORD == m
  {
    var d := x / WORD - q;
    assert d * WORD == m - x % WORD;
    assert d == 0;
  }

  lemma NothingReleased()
    ensures Used(0) == 0
  {
  }

  lemma UsedAfter(released: int, size: int)
    ensures Wrap(Used(released) - size) == Used(released + size)
  {
    WrapShift(-released, -size);
  }

  /** The guard, for every budget and while less than 2^63 bytes have been released: it is false exactly when
      the released bytes are at most the margin and together with the budget reach it. */
  lemma GuardMeaning(released: int, maxSize: nat)
    requires 0 <= released < HALF && maxSize < HALF
    ensures !OverBudget(Used(released), maxSize) <==> released <= 1024 <= released + maxSize
  {
    WrapShift(-released, MARGIN);
    if released > MARGIN {
      QuotientUnique(MARGIN - released, -1, MARGIN - released + WORD);
    } else {
      QuotientUnique(MARGIN - released, 0, MARGIN - released);
    }
  }

  // ----- one store -----

  lemma NoBytes()
    ensures Bytes([]) == 0
  {
  }

  lemma {:induction false} BytesConcat(a: Lru, b: Lru)
    ensures Bytes(a + b) == Bytes(a) + Bytes(b)
    decreases |b|
  {
    if b == [] {
      assert a + b == a;
    } else {
      assert (a + b)[..|a + b| - 1] == a + b[..|b| - 1];
      BytesConcat(a, b[..|b| - 1]);
    }
  }

  lemma BytesFrom(s: Lru, i: nat)
    requires i < |s|
    ensures Bytes(s[i..]) == s[i].bytes + Bytes(s[i + 1..])
  {
    assert s[i..] == [s[i]] + s[i + 1..] && [s[i]][..0] == [];
    BytesConcat([s[i]], s[i + 1..]);
  }

  lemma EvictBytes(s: Lru)
    ensures Bytes(Evict(s)) + Bytes(Victims(s)) == Bytes(s)
  {
    assert s == Evict(s) + Victims(s);
    BytesConcat(Evict(s), Victims(s));
  }

  /** What is left of the cache after some passes of the loop. */
  function AfterPasses(s: Lru, passes: nat): Lru {
    if passes == 0 then s else AfterPasses(Evict(s), passes - 1)
  }

  /** The guard after some passes of the loop. */
  predicate OverAfter(s: Lru, released: nat, maxSize: nat, passes: nat) {
    OverBudget(Used(released + Bytes(s) - Bytes(AfterPasses(s, passes))), maxSize)
  }

  lemma {:induction false} EmptyStays(passes: nat)
    ensures AfterPasses([], passes) == []
  {
    if passes > 0 {
      EmptyStays(passes - 1);
    }
  }

  lemma OverNext(s: Lru, released: nat, maxSize: nat, passes: nat)
    ensures OverAfter(s, released, maxSize, passes + 1) == OverAfter(Evict(s), released + Bytes(Victims(s)), maxSize, passes)
  {
    EvictBytes(s);
  }

  /** The loop never ends exactly when its guard is true after every number of passes. */
  lemma {:induction false} HangsExactlyWhenAlwaysOver(s: Lru, released: nat, maxSize: nat)
    ensures Drain(s, released, maxSize).Failed? <==> forall passes: nat :: OverAfter(s, released, maxSize, passes)
    decreases |s|
  {
    assert AfterPasses(s, 0) == s;
    if !OverBudget(Used(released), maxSize) {
      assert !OverAfter(s, released, maxSize, 0);
    } else if s == [] {
      forall passes: nat ensures OverAfter(s, released, maxSize, passes) {
        EmptyStays(passes);
      }
    } else {
      var s', released' := Evict(s), released + Bytes(Victims(s));
      HangsExactlyWhenAlwaysOver(s', released', maxSize);
      if forall passes: nat :: OverAfter(s', released', maxSize, passes) {
        forall passes: nat ensures OverAfter(s, released, maxSize, passes) {
          if passes > 0 {
            OverNext(s, released, maxSize, passes - 1);
          } else {
            assert OverAfter(s, released, maxSize, 0);
          }
        }
      } else {
        var passes: nat :| !OverAfter(s', released', maxSize, passes);
        OverNext(s, released, maxSize, passes);
      }
    }
  }

  /** Past the margin the loop empties the cache and hangs. */
  lemma {:induction false} DrainPastMargin(s: Lru, released: nat, maxSize: nat)
    requires MARGIN < released && released + Bytes(s) < HALF && maxSize < HALF
    ensures Drain(s, released, maxSize) == Failed(Hang)
    decreases |s|
  {
    GuardMeaning(released, maxSize);
    if s != [] {
      EvictBytes(s);
      DrainPastMargin(Evict(s), released + Bytes(Victims(s)), maxSize);
    }
  }

  lemma RoomIsMade(s: Lru, maxLength: nat)
    requires maxLength >= 2 && |s| < maxLength
    ensures |MakeRoom(s, maxLength)| < maxLength - 1
  {
  }

  lemma RoomBytes(s: Lru, maxLength: nat)
    ensures OwnEviction(s, maxLength) + Bytes(MakeRoom(s, maxLength)) == Bytes(s)
  {
    hide Bytes;
    EvictBytes(s);
  }

  lemma DrainReturnsExactly(s: Lru, released: nat, maxSize: nat)
    requires MARGIN <= maxSize < HALF && released + Bytes(s) < HALF
    ensures Drain(s, released, maxSize) == if released <= MARGIN then Returned(s, released) else Failed(Hang)
  {
    hide OverBudget, Bytes, Evict, Victims;
    GuardMeaning(released, maxSize);
    if released > MARGIN {
      DrainPastMargin(s, released, maxSize);
    }
  }

  /** A store returns, and then evicts no more than Set does, exactly when the bytes released so far and by its
      own eviction are at most 1024; otherwise it never returns. */
  lemma StoreReturnsExactly(s: Lru, released: nat, maxLength: nat, maxSize: nat, e: Entry)
    requires maxLength >= 2 && |s| < maxLength && MARGIN <= maxSize < HALF && released + Bytes(s) < HALF
    ensures var total := released + OwnEviction(s, maxLength);
            StoreStep(s, released, maxLength, maxSize, e) ==
            if total <= 1024 then Returned(Set(s, maxLength, e), total) else Failed(Hang)
  {
    hide Bytes, OwnEviction, Drain, Remove, MakeRoom, Cached;
    RoomBytes(s, maxLength);
    RoomIsMade(s, maxLength);
    DrainReturnsExactly(MakeRoom(s, maxLength), released + OwnEviction(s, maxLength), maxSize);
  }

  /** A budget below 1024 bytes hangs the first store; a cache of length 1 has no slot for it. */
  lemma FirstStoreFails(maxLength: nat, maxSize: nat, e: Entry)
    requires maxLength >= 1 && 0 < maxSize < HALF
    ensures StoreStep([], 0, maxLength, maxSize, e) ==
            if maxSize < 1024 then Failed(Hang) else if maxLength == 1 then Failed(NoSpace) else Returned([e], 0)
  {
    GuardMeaning(0, maxSize);
    assert Remove([], e.name) == [];
  }

  // ----- whole runs -----

  /** The bytes released along the run of a cache with no budget. */
  function ReleasedAlong(maxLength: nat, ops: seq<Op>): nat {
    if ops == [] then 0
    else
      var k := |ops| - 1;
      var s, op := After([], maxLength, ops[..k]), ops[k];
      ReleasedAlong(maxLength, ops[..k]) + if op.Lookup? then ReleasedByLookup(s, op.name, op.now) else OwnEviction(s, maxLength)
  }

  /** Each store of the run finds at most 1024 bytes released, its own eviction included. */
  predicate WithinMargin(maxLength: nat, ops: seq<Op>) {
    ops == []
    || (WithinMargin(maxLength, ops[..|ops| - 1]) && (ops[|ops| - 1].Lookup? || ReleasedAlong(maxLength, ops) <= MARGIN))
  }

  /** After each operation of the run the cached data fits in the machine's memory. */
  predicate FitsMemory(maxLength: nat, ops: seq<Op>) {
    ops == [] || (FitsMemory(maxLength, ops[..|ops| - 1]) && Bytes(After([], maxLength, ops)) < QUARTER)
  }

  lemma RemoveBytes(s: Lru, k: nat)
    requires k < |s|
    ensures Bytes(Without(s, k)) + s[k].bytes == Bytes(s)
  {
    var a, b := s[..k + 1], s[k + 1..];
    assert s == a + b && Without(s, k) == a[..k] + b;
    assert Bytes(a) == Bytes(a[..k]) + s[k].bytes;
    hide Bytes;
    BytesConcat(a, b);
    BytesConcat(a[..k], b);
  }

  /** A lookup moves bytes from the cache to the released ones and makes or loses none. */
  lemma LookupConservesBytes(s: Lru, maxLength: nat, op: Op)
    requires op.Lookup?
    ensures Bytes(Apply(s, maxLength, op)) + ReleasedByLookup(s, op.name, op.now) == Bytes(s)
  {
    var k := Position(s, op.name);
    if k < |s| {
      RemoveBytes(s, k);
      BytesConcat([s[k]], Without(s, k));
      assert [s[k]][..0] == [];
    }
  }

  lemma StepReturnsExactly(s: Lru, released: nat, maxLength: nat, maxSize: nat, op: Op)
    requires maxLength >= 2 && |s| < maxLength && MARGIN <= maxSize < HALF && released + Bytes(s) < HALF
    ensures var total := released + if op.Lookup? then ReleasedByLookup(s, op.name, op.now) else OwnEviction(s, maxLength);
            && Step(s, released, maxLength, maxSize, op) ==
               (if op.Lookup? || total <= MARGIN then Returned(Apply(s, maxLength, op), total) else Failed(Hang))
            && (op.Lookup? ==> total + Bytes(Apply(s, maxLength, op)) == released + Bytes(s))
  {
    hide Bytes, OwnEviction, StoreStep, ReleasedByLookup, Set;
    if op.Lookup? {
      LookupConservesBytes(s, maxLength, op);
    } else {
      StoreReturnsExactly(s, released, maxLength, maxSize, EntryOf(op));
    }
  }

  lemma RunNext(s: Lru, released: nat, maxLength: nat, maxSize: nat, ops: seq<Op>)
    requires ops != []
    ensures var before := Run(s, released, maxLength, maxSize, ops[..|ops| - 1]);
            Run(s, released, maxLength, maxSize, ops) ==
            if before.Failed? then before else Step(before.lru, before.released, maxLength, maxSize, ops[|ops| - 1])
  {
    hide Step;
  }

  lemma {:induction false} RunEndsExactly(maxLength: nat, maxSize: nat, ops: seq<Op>)
    requires maxLength >= 2 && MARGIN <= maxSize < HALF && FitsMemory(maxLength, ops)
    ensures Run([], 0, maxLength, maxSize, ops) ==
            if WithinMargin(maxLength, ops) then Returned(After([], maxLength, ops), ReleasedAlong(maxLength, ops)) else Failed(Hang)
    ensures WithinMargin(maxLength, ops) ==>
              ReleasedAlong(maxLength, ops) + Bytes(After([], maxLength, ops)) < QUARTER + MARGIN
  {
    assert Bytes([]) == 0;
    hide Bytes, OwnEviction, Step, ReleasedByLookup, Apply, Distinct;
    if ops == [] {
      assert Run([], 0, maxLength, maxSize, ops) == Returned([], 0);
    } else {
      var k := |ops| - 1;
      RunNext([], 0, maxLength, maxSize, ops);
      hide Run;
      RunEndsExactly(maxLength, maxSize, ops[..k]);
      if WithinMargin(maxLength, ops[..k]) {
        RunKeeps([], maxLength, ops[..k]);
        StepReturnsExactly(After([], maxLength, ops[..k]), ReleasedAlong(maxLength, ops[..k]), maxLength, maxSize, ops[k]);
      }
    }
  }

  lemma {:induction false} SameAnswers(maxLength: nat, maxSize: nat, ops: seq<Op>)
    requires maxLength >= 2 && MARGIN <= maxSize < HALF && FitsMemory(maxLength, ops) && WithinMargin(maxLength, ops)
    ensures Replies([], 0, maxLength, maxSize, ops) == Answers([], maxLength, ops)
  {
    RunEndsExactly(maxLength, maxSize, ops);
    hide Bytes, Step, Answer, After, ReleasedAlong, RunOf;
    if ops != [] {
      RunEndsExactly(maxLength, maxSize, ops[..|ops| - 1]);
      SameAnswers(maxLength, maxSize, ops[..|ops| - 1]);
    }
  }

  /** For a budget of at least 1024 bytes: a run returns exactly when it stays within the margin, and then it
      ends in the state of the cache without a budget; otherwise some store never returns. */
  lemma RunReturnsExactly(maxLength: nat, maxSize: nat, ops: seq<Op>)
    requires maxLength >= 2 && MARGIN <= maxSize < HALF && FitsMemory(maxLength, ops)
    ensures Run([], 0, maxLength, maxSize, ops) ==
            if WithinMargin(maxLength, ops) then Returned(After([], maxLength, ops), ReleasedAlong(maxLength, ops)) else Failed(Hang)
    ensures WithinMargin(maxLength, ops) ==> Replies([], 0, maxLength, maxSize, ops) == Answers([], maxLength, ops)
    ensures WithinMargin(maxLength, ops) ==>
              ReleasedAlong(maxLength, ops) + Bytes(After([], maxLength, ops)) < QUARTER + MARGIN
  {
    hide *;
    RunEndsExactly(maxLength, maxSize, ops);
    if WithinMargin(maxLength, ops) {
      SameAnswers(maxLength, maxSize, ops);
    }
  }

  /** The k-th answer of a run is that of the k-th call, in the state that the calls before it left: the looked up
      records, or nothing for a store. */
  lemma {:induction false} RepliesExactly(s: Lru, released: nat, maxLength: nat, maxSize: nat, ops: seq<Op>, k: nat)
    requires k < |ops| && Run(s, released, maxLength, maxSize, ops[..k + 1]).Returned?
    ensures var replies, before := Replies(s, released, maxLength, maxSize, ops), Run(s, released, maxLength, maxSize, ops[..k]);
            && k < |replies| <= |ops| && before.Returned?
            && replies[k] == if ops[k].Lookup? then Get(before.lru, ops[k].name, ops[k].now).1 else None
    ensures Run(s, released, maxLength, maxSize, ops).Returned? ==> |Replies(s, released, maxLength, maxSize, ops)| == |ops|
    decreases |ops|
  {
    hide Step;
    var n := |ops| - 1;
    if k == n {
      assert ops[..k + 1] == ops;
      AllAnswered(s, released, maxLength, maxSize, ops[..n]);
    } else {
      assert ops[..n][..k + 1] == ops[..k + 1] && ops[..n][..k] == ops[..k] && ops[..n][k] == ops[k];
      RepliesExactly(s, released, maxLength, maxSize, ops[..n], k);
    }
  }

  lemma {:induction false} AllAnswered(s: Lru, released: nat, maxLength: nat, maxSize: nat, ops: seq<Op>)
    requires Run(s, released, maxLength, maxSize, ops).Returned?
    ensures |Replies(s, released, maxLength, maxSize, ops)| == |ops|
  {
    hide Step;
    if ops != [] {
      AllAnswered(s, released, maxLength, maxSize, ops[..|ops| - 1]);
    }
  }

  /** On a run that returns, the cache holds what the cache without a budget holds, so Retention applies to it. */
  lemma RetentionWithBudget(maxLength: nat, maxSize: nat, before: seq<Op>, use: Op, after: seq<Op>, name: string)
    requires maxLength >= 12 && MARGIN <= maxSize < HALF && Uses(After([], maxLength, before), use, name)
    requires var s := After([], maxLength, before + [use]);
             LeftAlone(s, maxLength, after, name) && |UsedNames(s, maxLength, after)| <= maxLength - 12
    requires FitsMemory(maxLength, before + [use] + after) && WithinMargin(maxLength, before + [use] + after)
    ensures var end := Run([], 0, maxLength, maxSize, before + [use] + after);
            && end.Returned? && Cached(end.lru, name)
            && end.lru[Position(end.lru, name)] == After([], maxLength, before + [use])[0]
  {
    hide UsedNames, LeftAlone, Uses, After, ReleasedAlong, Run, WithinMargin, FitsMemory;
    RunReturnsExactly(maxLength, maxSize, before + [use] + after);
    Retention(maxLength, before, use, after, name);
  }

  // ----- runs that hang -----

  // ----- names that were never stored -----

  lemma {:induction false} DrainKeepsFront(s: Lru, released: nat, maxSize: nat)
    requires Drain(s, released, maxSize).Returned?
    ensures var room := Drain(s, released, maxSize).lru; |room| <= |s| && room == s[..|room|]
    decreases |s|
  {
    hide OverBudget, Bytes;
    if OverBudget(Used(released), maxSize) {
      DrainKeepsFront(Evict(s), released + Bytes(Victims(s)), maxSize);
    }
  }

  lemma RoomKeepsFront(s: Lru, released: nat, maxLength: nat, maxSize: nat)
    requires RoomFor(s, released, maxLength, maxSize).Returned?
    ensures var room := RoomFor(s, released, maxLength, maxSize).lru; |room| <= |s| && room == s[..|room|]
  {
    hide Drain;
    DrainKeepsFront(MakeRoom(s, maxLength), released + OwnEviction(s, maxLength), maxSize);
  }

  lemma AbsentStays(s: Lru, released: nat, maxLength: nat, maxSize: nat, op: Op, name: string)
    requires (forall i :: 0 <= i < |s| ==> s[i].name != name) && (op.Lookup? || op.name != name)
    ensures var end := Step(s, released, maxLength, maxSize, op);
            end.Returned? ==> forall i :: 0 <= i < |end.lru| ==> end.lru[i].name != name
  {
    hide RoomFor, Expired, Live, Position;
    if op.Lookup? {
      hide Get;
      forall i | 0 <= i < |Get(s, op.name, op.now).0| ensures Get(s, op.name, op.now).0[i].name != name {
        LookedUp(s, op.name, op.now, i);
      }
    } else if RoomFor(s, released, maxLength, maxSize).Returned? {
      RoomKeepsFront(s, released, maxLength, maxSize);
    }
  }

  /** A name that no call stored is in no entry, whatever was evicted and whatever expired ... */
  lemma {:induction false} NeverStoredIsAbsent(maxLength: nat, maxSize: nat, ops: seq<Op>, name: string)
    requires forall j :: 0 <= j < |ops| ==> ops[j].Lookup? || ops[j].name != name
    ensures var end := Run([], 0, maxLength, maxSize, ops);
            end.Returned? ==> forall i :: 0 <= i < |end.lru| ==> end.lru[i].name != name
  {
    hide Step;
    if ops != [] {
      var n := |ops| - 1;
      NeverStoredIsAbsent(maxLength, maxSize, ops[..n], name);
      var before := Run([], 0, maxLength, maxSize, ops[..n]);
      if before.Returned? {
        AbsentStays(before.lru, before.released, maxLength, maxSize, ops[n], name);
      }
    }
  }

  /** ... so a lookup of it misses, and changes nothing. */
  lemma NeverStoredIsMissed(maxLength: nat, maxSize: nat, ops: seq<Op>, name: string, now: int)
    requires forall j :: 0 <= j < |ops| ==> ops[j].Lookup? || ops[j].name != name
    ensures var end := Run([], 0, maxLength, maxSize, ops);
            end.Returned? ==> Get(end.lru, name, now) == (end.lru, None)
  {
    hide Run;
    NeverStoredIsAbsent(maxLength, maxSize, ops, name);
  }

  lemma {:induction false} AllLive(data: seq<RecordData>, now: int)
    requires forall i :: 0 <= i < |data| ==> data[i].ttl >= now
    ensures Live(data, now) == data
  {
    if data != [] {
      AllLive(data[..|data| - 1], now);
    }
  }

  lemma LiveStore(name: string, data: seq<RecordData>, now: int)
    requires data != [] && forall i :: 0 <= i < |data| ==> data[i].ttl >= now && data[i].name == name
    ensures Legal(Store(name, data, now)) && EntryOf(Store(name, data, now)) == Entry(name, data, |data| * RECORD_BYTES)
  {
    hide Live;
    AllLive(data, now);
  }

  /** Seventeen records that expire are enough to hang a cache of any length and budget: the lookup that finds
      them expired releases 1088 bytes, and the next store never returns. */
  lemma ExpiredEntryHangs(maxLength: nat, maxSize: nat) returns (ops: seq<Op>)
    requires maxLength >= 2 && MARGIN <= maxSize < HALF
    ensures |ops| == 3 && ops[1].Lookup? && forall i :: 0 <= i < |ops| ==> Legal(ops[i])
    ensures Run([], 0, maxLength, maxSize, ops[..2]) == Returned([], 1088)
    ensures Run([], 0, maxLength, maxSize, ops) == Failed(Hang)
  {
    hide Live, EntryOf, Run, StoreStep;
    var data, other := seq(17, _ => RecordData("a", Addresses.ZERO, 0)), [RecordData("b", Addresses.ZERO, 1)];
    ops := [Store("a", data, 0), Lookup("a", 1), Store("b", other, 1)];
    LiveStore("a", data, 0);
    LiveStore("b", other, 1);
    assert Expired(data, 1);
    ThreeSteps(maxLength, maxSize, ops, Entry("a", data, 1088));
  }

  lemma ThreeSteps(maxLength: nat, maxSize: nat, ops: seq<Op>, e: Entry)
    requires maxLength >= 2 && MARGIN <= maxSize < HALF && |ops| == 3
    requires ops[0].Store? && EntryOf(ops[0]) == e && e.bytes == 1088
    requires ops[1].Lookup? && ops[1].name == e.name && Expired(e.records, ops[1].now) && ops[2].Store?
    ensures Run([], 0, maxLength, maxSize, ops[..2]) == Returned([], 1088)
    ensures Run([], 0, maxLength, maxSize, ops) == Failed(Hang)
  {
    hide EntryOf, Expired, OverBudget, Drain;
    FirstStoreFails(maxLength, maxSize, e);
    assert ops[..1][..0] == [] && ops[..2][..1] == ops[..1] && ops[..3][..2] == ops[..2] && ops[..3] == ops;
    assert Run([], 0, maxLength, maxSize, []) == Returned([], 0);
    assert Run([], 0, maxLength, maxSize, ops[..1]) == Returned([e], 0);
    assert Without([e], 0) == [];
    assert Run([], 0, maxLength, maxSize, ops[..2]) == Returned([], 1088);
    DrainPastMargin(MakeRoom([], maxLength), 1088, maxSize);
  }

  /** The cache after n stores of new names of one record each, while no more than one eviction happened. */
  function Newest(n: nat, maxLength: nat): Lru
    requires maxLength >= 12
  {
    if n < maxLength then Filled(n) else Filled(n)[..n - EVICTED]
  }

  lemma NewestNone(maxLength: nat)
    requires maxLength >= 12
    ensures Newest(0, maxLength) == []
  {
  }

  lemma {:induction false} EvenBytes(s: Lru)
    requires forall i :: 0 <= i < |s| ==> s[i].bytes == RECORD_BYTES
    ensures Bytes(s) == |s| * RECORD_BYTES
  {
    if s != [] {
      EvenBytes(s[..|s| - 1]);
    }
  }

  lemma FreshEntry(i: nat)
    ensures EntryOf(Fresh(i)) == Entry(Nth(i), [RecordData(Nth(i), Addresses.ZERO, 0)], RECORD_BYTES)
  {
    AllLive([RecordData(Nth(i), Addresses.ZERO, 0)], 0);
  }

  lemma NewestIsEven(n: nat, maxLength: nat)
    requires maxLength >= 12
    ensures forall i :: 0 <= i < |Newest(n, maxLength)| ==>
              |Newest(n, maxLength)[i].name| == n - 1 - i && Newest(n, maxLength)[i].bytes == RECORD_BYTES
    ensures |Newest(n, maxLength)| == if n < maxLength then n else n - EVICTED
  {
  }

  lemma EvenVictims(s: Lru)
    requires forall i :: 0 <= i < |s| ==> s[i].bytes == RECORD_BYTES
    ensures Bytes(Victims(s)) == (|s| - |Evict(s)|) * RECORD_BYTES
  {
    hide Bytes;
    EvenBytes(Victims(s));
  }

  lemma SetNewName(s: Lru, maxLength: nat, e: Entry)
    requires !Cached(MakeRoom(s, maxLength), e.name)
    ensures Set(s, maxLength, e) == [e] + MakeRoom(s, maxLength)
  {
  }

  lemma FilledNext(n: nat)
    requires n > 0
    ensures Filled(n) == [EntryOf(Fresh(n - 1))] + Filled(n - 1)
  {
    FreshEntry(n - 1);
  }

  lemma NewestSplits(n: nat, maxLength: nat, e: Entry)
    requires maxLength >= 12 && 0 < n < maxLength + EVICTED && Filled(n) == [e] + Filled(n - 1)
    ensures Newest(n, maxLength) == [e] + MakeRoom(Newest(n - 1, maxLength), maxLength)
  {
    hide Filled;
    if n >= maxLength {
      assert Newest(n, maxLength) == [e] + Filled(n - 1)[..n - 1 - EVICTED];
    }
  }

  /** Storing the next new name. */
  lemma NewestNext(n: nat, maxLength: nat)
    requires maxLength >= 12 && 0 < n < maxLength + EVICTED
    ensures Set(Newest(n - 1, maxLength), maxLength, EntryOf(Fresh(n - 1))) == Newest(n, maxLength)
  {
    var s := Newest(n - 1, maxLength);
    NewestIsEven(n - 1, maxLength);
    AbsentByLength(MakeRoom(s, maxLength), Nth(n - 1));
    FilledNext(n);
    assert EntryOf(Fresh(n - 1)).name == Nth(n - 1);
    hide Nth, EntryOf, Fresh, Cached, Set, Filled;
    var e := EntryOf(Fresh(n - 1));
    SetNewName(s, maxLength, e);
    hide Newest, MakeRoom, Evict;
    NewestSplits(n, maxLength, e);
  }

  lemma NewestEviction(n: nat, maxLength: nat)
    requires maxLength >= 12 && 0 < n < maxLength + EVICTED
    ensures OwnEviction(Newest(n - 1, maxLength), maxLength) == if n == maxLength then EVICTED * RECORD_BYTES else 0
    ensures |Newest(n - 1, maxLength)| < maxLength
  {
    hide Bytes;
    NewestIsEven(n - 1, maxLength);
    EvenVictims(Newest(n - 1, maxLength));
  }

  lemma FreshStoreStep(n: nat, maxLength: nat, maxSize: nat)
    requires maxLength >= 12 && MARGIN <= maxSize < HALF && 0 < n < maxLength + EVICTED && maxLength < 0x1_0000_0000
    ensures StoreStep(Newest(n - 1, maxLength), if n - 1 < maxLength then 0 else EVICTED * RECORD_BYTES, maxLength, maxSize, EntryOf(Fresh(n - 1)))
            == Returned(Newest(n, maxLength), if n < maxLength then 0 else EVICTED * RECORD_BYTES)
  {
    var s := Newest(n - 1, maxLength);
    NewestIsEven(n - 1, maxLength);
    EvenBytes(s);
    NewestNext(n, maxLength);
    NewestEviction(n, maxLength);
    hide Bytes, Newest, OwnEviction, StoreStep, Set, Fresh, EntryOf;
    StoreReturnsExactly(s, if n - 1 < maxLength then 0 else EVICTED * RECORD_BYTES, maxLength, maxSize, EntryOf(Fresh(n - 1)));
  }

  lemma SecondEviction(maxLength: nat, maxSize: nat)
    requires maxLength >= 12 && MARGIN <= maxSize < HALF && maxLength < 0x1_0000_0000
    ensures var n := maxLength + EVICTED - 1;
            StoreStep(Newest(n, maxLength), EVICTED * RECORD_BYTES, maxLength, maxSize, EntryOf(Fresh(n))) == Failed(Hang)
  {
    var n := maxLength + EVICTED - 1;
    var s := Newest(n, maxLength);
    NewestIsEven(n, maxLength);
    EvenBytes(s);
    EvenVictims(s);
    hide Bytes, StoreStep, Set, Fresh, EntryOf, Newest;
    StoreReturnsExactly(s, EVICTED * RECORD_BYTES, maxLength, maxSize, EntryOf(Fresh(n)));
  }

  lemma RunOfStores(n: nat, maxLength: nat, maxSize: nat)
    requires n > 0
    ensures var before := Run([], 0, maxLength, maxSize, Stores(0, n - 1));
            Run([], 0, maxLength, maxSize, Stores(0, n)) ==
            if before.Failed? then before else StoreStep(before.lru, before.released, maxLength, maxSize, EntryOf(Fresh(n - 1)))
  {
    hide StoreStep, EntryOf;
    assert Stores(0, n)[..n - 1] == Stores(0, n - 1) && Stores(0, n)[n - 1] == Fresh(n - 1);
  }

  /** A cache that is only ever given new names of one record each returns from exactly the stores before its
      second eviction, the maxLength + 10th, and never from that one. */
  lemma {:induction false} FreshStoresReturn(n: nat, maxLength: nat, maxSize: nat)
    requires 12 <= maxLength < 0x1_0000_0000 && MARGIN <= maxSize < HALF
    ensures Run([], 0, maxLength, maxSize, Stores(0, n)) ==
            if n < maxLength + EVICTED then Returned(Newest(n, maxLength), if n < maxLength then 0 else EVICTED * RECORD_BYTES)
            else Failed(Hang)
  {
    hide StoreStep, Newest, Fresh, EntryOf, Set;
    if n == 0 {
      NewestNone(maxLength);
    } else {
      FreshStoresReturn(n - 1, maxLength, maxSize);
      RunOfStores(n, maxLength, maxSize);
      hide Run, Stores;
      if n < maxLength + EVICTED {
        FreshStoreStep(n, maxLength, maxSize);
      } else if n == maxLength + EVICTED {
        SecondEviction(maxLength, maxSize);
      }
    }
  }

  lemma TightStore(maxLength: nat, maxSize: nat)
    requires 12 <= maxLength < 0x1_0000_0000 && MARGIN <= maxSize < HALF
    ensures var s, e := Filled(maxLength - 1), EntryOf(Fresh(maxLength - 2));
            StoreStep(s, 0, maxLength, maxSize, e) == Returned(Set(s, maxLength, e), EVICTED * RECORD_BYTES)
  {
    var s := Filled(maxLength - 1);
    EvenBytes(s);
    EvenVictims(s);
    hide Bytes, StoreStep, Set, EntryOf, Filled, Fresh, Victims;
    StoreReturnsExactly(s, 0, maxLength, maxSize, EntryOf(Fresh(maxLength - 2)));
  }

  /** The run that shows the bound of Retention tight returns, with its one eviction within the margin. */
  lemma TightRunReturns(maxLength: nat, maxSize: nat)
    requires 12 <= maxLength < 0x1_0000_0000 && MARGIN <= maxSize < HALF
    ensures var ops := Stores(0, maxLength - 1) + [Fresh(maxLength - 2)];
            Run([], 0, maxLength, maxSize, ops) == Returned(After([], maxLength, ops), EVICTED * RECORD_BYTES)
  {
    hide StoreStep, Set, EntryOf, Filled, Stores;
    var n := maxLength - 1;
    var ops := Stores(0, n) + [Fresh(n - 1)];
    assert ops[..|ops| - 1] == Stores(0, n);
    FreshStoresReturn(n, maxLength, maxSize);
    AfterStores(maxLength, n);
    TightStore(maxLength, maxSize);
  }
}
