/** src/cache.c with its statements in the order they are written.  LruCache states what pop_back and
    remove_record are for; here pop_back clears the valid flag before it resets the hash node, whose comparator
    stops the process on such a record (src/cache.c:270-282, 587-590), and remove_record subtracts and releases
    records[last] after the list was relinked (src/cache.c:325-326). */
module CacheAsWritten {
  import opened Options
  import opened Sequences
  import Addresses
  import opened LruSpec
  import opened LruLinks
  import B = CacheBudget
  import C = LruCache
  import H = HashTable

  // ----- what the code as written does to the entries -----

  /** push_front and the filling: any pop_back on a cache with entries stops the process. */
  function StoreStep(s: Lru, released: nat, maxLength: nat, maxSize: nat, e: Entry): B.Outcome {
    if s != [] && (|s| >= maxLength - 1 || B.OverBudget(B.Used(released), maxSize)) then B.Failed(B.Stop)
    else if B.OverBudget(B.Used(released), maxSize) then B.Failed(B.Hang)
    else if |s| >= maxLength - 1 then B.Failed(B.NoSpace)
    else B.Returned([e] + Remove(s, e.name), released)
  }

  /** A lookup; removing one entry of several frees the records of another. */
  function LookupStep(s: Lru, released: nat, name: string, now: int): B.Outcome {
    var k := Position(s, name);
    if k < |s| && |s| > 1 && Expired(s[k].records, now) then B.Failed(B.Damage)
    else B.Returned(LruSpec.Get(s, name, now).0, released)
  }

  function Step(s: Lru, released: nat, maxLength: nat, maxSize: nat, op: Op): B.Outcome {
    if op.Lookup? then LookupStep(s, released, op.name, op.now) else StoreStep(s, released, maxLength, maxSize, EntryOf(op))
  }

  function Written(maxLength: nat, maxSize: nat): B.Call {
    (s: Lru, released: nat, op: Op) => Step(s, released, maxLength, maxSize, op)
  }

  /** A run up to the first call that does not return in order. */
  function Run(s: Lru, released: nat, maxLength: nat, maxSize: nat, ops: seq<Op>): B.Outcome {
    B.RunOf(Written(maxLength, maxSize), s, released, ops)
  }

  function Replies(s: Lru, released: nat, maxLength: nat, maxSize: nat, ops: seq<Op>): seq<Option<seq<RecordData>>> {
    B.RepliesOf(Written(maxLength, maxSize), s, released, ops)
  }

  // ----- when the code as written is correct -----

  /** With a budget of at least 1024 bytes, of which nothing is ever given back, a store stops the process exactly
      when the cache holds maxLength - 1 entries, and otherwise does what it should. */
  lemma StoreStopsExactly(s: Lru, maxLength: nat, maxSize: nat, e: Entry)
    requires maxLength >= 2 && |s| < maxLength && B.MARGIN <= maxSize < B.HALF
    ensures StoreStep(s, 0, maxLength, maxSize, e) ==
            if |s| == maxLength - 1 then B.Failed(B.Stop) else B.Returned(Set(s, maxLength, e), 0)
  {
    B.GuardMeaning(0, maxSize);
  }

  /** With less, every store fails: the first pass of the loop over an empty cache is repeated for ever, and one over
      entries stops the process. */
  lemma SmallBudgetFails(s: Lru, maxLength: nat, maxSize: nat, e: Entry)
    requires maxLength >= 1 && |s| < maxLength && maxSize < 1024
    ensures StoreStep(s, 0, maxLength, maxSize, e) == B.Failed(if s == [] then B.Hang else B.Stop)
  {
    B.GuardMeaning(0, maxSize);
  }

  /** The call neither stores into a cache of maxLength - 1 entries nor finds an entry expired beside others. */
  predicate InOrder(s: Lru, maxLength: nat, op: Op) {
    if op.Lookup? then FindsExpired(s, op, op.name) ==> |s| == 1 else |s| < maxLength - 1
  }

  /** What becomes of the first call of a run that is not in order. */
  function Trouble(maxLength: nat, ops: seq<Op>): Option<B.Failure> {
    if ops == [] then None
    else
      var k := |ops| - 1;
      var before := Trouble(maxLength, ops[..k]);
      if before.Some? then before
      else if InOrder(After([], maxLength, ops[..k]), maxLength, ops[k]) then None
      else Some(if ops[k].Lookup? then B.Damage else B.Stop)
  }

  predicate StaysInOrder(maxLength: nat, ops: seq<Op>) {
    ops == []
    || (var k := |ops| - 1;
        StaysInOrder(maxLength, ops[..k]) && InOrder(After([], maxLength, ops[..k]), maxLength, ops[k]))
  }

  lemma {:induction false} NoTrouble(maxLength: nat, ops: seq<Op>)
    ensures Trouble(maxLength, ops).None? <==> StaysInOrder(maxLength, ops)
  {
    if ops != [] {
      NoTrouble(maxLength, ops[..|ops| - 1]);
    }
  }

  lemma StepInOrder(s: Lru, maxLength: nat, maxSize: nat, op: Op)
    requires maxLength >= 2 && |s| < maxLength && B.MARGIN <= maxSize < B.HALF
    ensures Step(s, 0, maxLength, maxSize, op) ==
            if InOrder(s, maxLength, op) then B.Returned(Apply(s, maxLength, op), 0)
            else B.Failed(if op.Lookup? then B.Damage else B.Stop)
  {
    if !op.Lookup? {
      StoreStopsExactly(s, maxLength, maxSize, EntryOf(op));
    }
  }

  /** A whole run of the code as written returns from every call in order exactly when no store meets a full
      cache and no lookup finds an expired entry beside others.  Then it answers and ends as the abstract cache
      does, with `used_size` still 0; otherwise the first such store stops the process, or the first such lookup
      damages the cache. */
  lemma {:induction false} RunCompletesExactly(maxLength: nat, maxSize: nat, ops: seq<Op>)
    requires maxLength >= 2 && B.MARGIN <= maxSize < B.HALF
    ensures Run([], 0, maxLength, maxSize, ops).Returned? <==> StaysInOrder(maxLength, ops)
    ensures Run([], 0, maxLength, maxSize, ops) ==
            if Trouble(maxLength, ops).Some? then B.Failed(Trouble(maxLength, ops).value) else B.Returned(After([], maxLength, ops), 0)
    ensures StaysInOrder(maxLength, ops) ==> Replies([], 0, maxLength, maxSize, ops) == Answers([], maxLength, ops)
  {
    hide Step, Apply, Answer, InOrder;
    NoTrouble(maxLength, ops);
    if ops != [] {
      var k := |ops| - 1;
      RunCompletesExactly(maxLength, maxSize, ops[..k]);
      NoTrouble(maxLength, ops[..k]);
      if StaysInOrder(maxLength, ops[..k]) {
        RunKeeps([], maxLength, ops[..k]);
        StepInOrder(After([], maxLength, ops[..k]), maxLength, maxSize, ops[k]);
      }
    }
  }

  /** Storing maxLength - 1 new names is in order, and storing one more stops the process. */
  lemma FirstEvictionStops(maxLength: nat, maxSize: nat)
    requires 2 <= maxLength && B.MARGIN <= maxSize < B.HALF
    ensures Run([], 0, maxLength, maxSize, Stores(0, maxLength - 1)) == B.Returned(Filled(maxLength - 1), 0)
    ensures Run([], 0, maxLength, maxSize, Stores(0, maxLength)) == B.Failed(B.Stop)
  {
    hide Set, EntryOf, Apply, Answer, StoreStep;
    FillsInOrder(maxLength, maxLength - 1);
    RunCompletesExactly(maxLength, maxSize, Stores(0, maxLength - 1));
    AfterStores(maxLength, maxLength - 1);
    assert Stores(0, maxLength)[..maxLength - 1] == Stores(0, maxLength - 1);
    StoreStopsExactly(Filled(maxLength - 1), maxLength, maxSize, EntryOf(Fresh(maxLength - 1)));
  }

  lemma {:induction false} FillsInOrder(maxLength: nat, n: nat)
    requires n < maxLength
    ensures StaysInOrder(maxLength, Stores(0, n))
  {
    hide Apply;
    if n > 0 {
      FillsInOrder(maxLength, n - 1);
      assert Stores(0, n)[..n - 1] == Stores(0, n - 1);
      AfterStores(maxLength, n - 1);
    }
  }

  lemma LegalFresh(i: nat)
    ensures Legal(Fresh(i))
  {
    B.LiveStore(Nth(i), [RecordData(Nth(i), Addresses.ZERO, 0)], 0);
  }

  lemma ExpiredBesideAnother()
    ensures FindsExpired(Filled(2), Lookup(Nth(0), 1), Nth(0)) && |Filled(2)| == 2
  {
    var s := Filled(2);
    assert s[0].name == Nth(1) && Filled(1) == s[1..] && s[1] == Filled(1)[0] && s[1].name == Nth(0);
    PositionIs(s, Nth(0), 1);
  }

  lemma TroubleAtLast(maxLength: nat, stores: seq<Op>, last: Op)
    requires maxLength >= 3 && stores == Stores(0, 2) && last.Lookup? && !InOrder(After([], maxLength, stores), maxLength, last)
    ensures Trouble(maxLength, stores).None? && Trouble(maxLength, stores + [last]) == Some(B.Damage)
  {
    hide Stores, After, InOrder;
    FillsInOrder(maxLength, 2);
    NoTrouble(maxLength, stores);
    assert (stores + [last])[..|stores|] == stores;
  }

  function TwoThenExpired(): seq<Op> { Stores(0, 2) + [Lookup(Nth(0), 1)] }

  lemma TwoThenExpiredIsLegal()
    ensures |TwoThenExpired()| == 3 && TwoThenExpired()[2].Lookup?
    ensures forall i :: 0 <= i < 3 ==> Legal(TwoThenExpired()[i])
  {
    hide Fresh;
    LegalFresh(0);
    LegalFresh(1);
  }

  /** Three calls are enough to damage a cache of length 3 or more: two names are stored, and the first is looked up
      after it expired. */
  lemma SecondNameIsDamaged(maxLength: nat, maxSize: nat) returns (ops: seq<Op>)
    requires 3 <= maxLength && B.MARGIN <= maxSize < B.HALF
    ensures |ops| == 3 && ops[2].Lookup? && forall i :: 0 <= i < |ops| ==> Legal(ops[i])
    ensures Run([], 0, maxLength, maxSize, ops[..2]).Returned? && |After([], maxLength, ops[..2])| == 2
    ensures Run([], 0, maxLength, maxSize, ops) == B.Failed(B.Damage)
  {
    ops := TwoThenExpired();
    TwoThenExpiredIsLegal();
    assert ops[..2] == Stores(0, 2);
    hide Stores, Fresh, Nth, Filled, FindsExpired, Run, Legal, Trouble, StaysInOrder, After;
    AfterStores(maxLength, 2);
    ExpiredBesideAnother();
    TroubleAtLast(maxLength, Stores(0, 2), Lookup(Nth(0), 1));
    RunCompletesExactly(maxLength, maxSize, Stores(0, 2));
    RunCompletesExactly(maxLength, maxSize, ops);
    hide InOrder;
  }

  // ----- the operations on the real structures -----

  /** compare_record_with_label with its process stop. */
  function Verdict(rs: seq<Slot>): (int, string) -> H.Verdict {
    (s: int, name: string) =>
      if !(0 <= s < |rs|) || !rs[s].valid then H.Halt
      else if rs[s].data != [] && rs[s].data[0].name == name then H.Same else H.Different
  }

  function Invalidated(rs: seq<Slot>, s: int): (r: seq<Slot>)
    requires 0 <= s < |rs|
    ensures |r| == |rs|
  {
    rs[s := rs[s].(valid := false)]
  }

  /** The records a chain refers to are listed, and only the slot's own node carries its label. */
  lemma VerdictOn(rs: seq<Slot>, buckets: H.Buckets<int>, hash: string -> nat, keys: map<int, string>, index: map<string, int>,
                  ord: seq<int>, n: nat, k: nat, b: nat, i: nat)
    requires C.IndexOf(buckets, hash, keys, index, ord) && C.Flags(rs, ord, n) && C.AllLabelled(rs, keys, ord)
    requires k < |ord| && ord[k] in keys && 0 <= ord[k] < |rs| && b < |buckets| && i < |buckets[b]|
    ensures buckets[b][i].Some?
    ensures Verdict(Invalidated(rs, ord[k]))(buckets[b][i].value, keys[ord[k]])
            == if buckets[b][i].value == ord[k] then H.Halt else H.Different
  {
    assert H.Holds(buckets, hash, keys, index, b, i);
    var s := buckets[b][i].value;
    var j :| 0 <= j < |ord| && ord[j] == s;
    assert C.Labelled(rs, keys, ord[j]);
  }

  /** Once the slot is invalid, searching its own label meets it, and stops, before anything else matches. */
  lemma ResetMustStop(rs: seq<Slot>, buckets: H.Buckets<int>, hash: string -> nat, keys: map<int, string>, index: map<string, int>,
                      ord: seq<int>, n: nat, k: nat)
    requires C.IndexOf(buckets, hash, keys, index, ord) && C.Flags(rs, ord, n) && C.AllLabelled(rs, keys, ord)
    requires k < |ord| && ord[k] in keys && 0 <= ord[k] < |rs|
    ensures |buckets| > 0 && forall i :: 0 <= i < |buckets[hash(keys[ord[k]]) % |buckets|]| ==> buckets[hash(keys[ord[k]]) % |buckets|][i].Some?
    ensures var chain, verdict := buckets[hash(keys[ord[k]]) % |buckets|], Verdict(Invalidated(rs, ord[k]));
            forall at: nat :: H.FirstDecision(chain, verdict, keys[ord[k]], at) ==>
              at < |chain| && verdict(chain[at].value, keys[ord[k]]) == H.Halt
  {
    hide C.Flags, C.AllLabelled, Verdict, Invalidated;
    var name := keys[ord[k]];
    var b := hash(name) % |buckets|;
    var chain, verdict := buckets[b], Verdict(Invalidated(rs, ord[k]));
    forall i | 0 <= i < |chain|
      ensures chain[i].Some? && verdict(chain[i].value, name) == if chain[i].value == ord[k] then H.Halt else H.Different
    {
      VerdictOn(rs, buckets, hash, keys, index, ord, n, k, b, i);
    }
    var j :| 0 <= j < |chain| && chain[j] == Some(index[name]);
    forall at: nat | H.FirstDecision(chain, verdict, name, at) ensures at < |chain| && verdict(chain[at].value, name) == H.Halt {
      assert verdict(chain[j].value, name) == H.Halt;
    }
  }

  lemma SlotToRemove(rs: seq<Slot>, stack: seq<int>, top: int, keys: map<int, string>, ord: seq<int>, n: nat, k: nat)
    requires C.Partition(rs, stack, top, ord, n) && C.AllLabelled(rs, keys, ord) && k < |ord|
    ensures |rs| == n + 1 && 0 < ord[k] < n && rs[0].size == 0
    ensures ord[k] in keys && rs[ord[k]].data != [] && rs[ord[k]].data[0].name == keys[ord[k]]
  {
    assert C.Labelled(rs, keys, ord[k]);
  }

  /** One round of pop_back's loop on a cache with entries: the flag is cleared, the slot is returned to the
      stack, and resetting its hash node stops the process.  Nothing after that is reached. */
  method DropLast(c: C.Cache) returns (stopped: bool)
    requires c.Valid() && c.length > 0
    modifies c, c.records, c.stack, c.table, c.table.Repr
    ensures stopped && c.table.Repr == old(c.table.Repr)
  {
    hide C.FreeStack, Linked, C.AllLabelled, C.IndexOf, C.Flags, H.Table.Valid, Verdict, B.Used;
    ghost var k := |c.order| - 1;
    c.BeforeCut(k);
    ghost var rs, slot := c.records[..], c.order[k];
    SlotToRemove(rs, c.stack[..], c.stackTop, c.keys, c.order, c.maxLength, k);
    ghost var name := c.keys[slot];
    H.SizeOf(c.table);
    ResetMustStop(rs, c.table.buckets, c.table.hash, c.keys, c.index, c.order, c.maxLength, k);
    hide C.IndexOf, C.Partition, C.Ends, C.Labelled, NoRepeats, H.Cut;
    assert c.table.Pos(name) == c.table.hash(name) % |c.table.buckets|;
    c.records[c.last] := c.records[c.last].(valid := false);
    assert c.records[..] == Invalidated(rs, slot);
    c.StackPush(c.last, c.order, k);
    assert c.records[c.last].data[0].name == name;
    ghost var at;
    stopped, at := H.ResetOrStop(c.table, Verdict(c.records[..]), c.records[c.last].data[0].name);
  }

  /** pop_back: it stops the process on any cache with entries, and changes nothing on an empty one. */
  method PopBack(c: C.Cache) returns (stopped: bool)
    requires c.Valid()
    modifies c, c.records, c.stack, c.table, c.table.Repr
    ensures (stopped <==> old(c.length) > 0) && c.table.Repr == old(c.table.Repr)
    ensures !stopped ==> c.Valid() && c.Contents() == old(c.Contents()) && c.released == old(c.released)
    ensures !stopped ==> c.length == 0
  {
    hide C.Ends, C.Partition, C.AllLabelled, C.IndexOf, C.View, H.Table.Valid;
    var t := 0;
    while t < EVICTED && c.length == 0
      invariant t <= EVICTED
      invariant c.Valid() && c.Contents() == old(c.Contents()) && c.released == old(c.released) && c.table.Repr == old(c.table.Repr)
      invariant c.length == old(c.length)
    {
      t := t + 1;
    }
    if c.length > 0 {
      stopped := DropLast(c);
    } else {
      stopped := false;
    }
  }

  /** push_front's two ways of making room.  A pop_back in the second loop either stops the process or changes
      nothing, and then the loop never ends. */
  method MakeSpace(c: C.Cache) returns (failure: Option<B.Failure>)
    requires c.Valid()
    modifies c, c.records, c.stack, c.table, c.table.Repr
    ensures failure == if old(c.length) > 0 && (old(c.length) >= c.maxLength - 1 || B.OverBudget(old(c.usedSize), c.maxSize)) then Some(B.Stop)
                       else if B.OverBudget(old(c.usedSize), c.maxSize) then Some(B.Hang) else None
    ensures c.table.Repr == old(c.table.Repr)
    ensures failure.None? ==> c.Valid() && c.Contents() == old(c.Contents()) && c.released == old(c.released)
  {
    hide C.Ends, C.Partition, C.AllLabelled, C.IndexOf, C.View, H.Table.Valid, B.OverBudget, B.Used;
    if c.IsFull() {
      var stopped := PopBack(c);
      if stopped {
        return Some(B.Stop);
      }
    }
    assert c.usedSize == old(c.usedSize);
    if B.OverBudget(c.usedSize, c.maxSize) {
      var stopped := PopBack(c);
      return Some(if stopped then B.Stop else B.Hang);
    }
    return None;
  }

  method PushFront(c: C.Cache, name: string) returns (slot: int, failure: Option<B.Failure>)
    requires c.Valid()
    modifies c, c.records, c.stack, c.table, c.table.Repr
    ensures fresh(c.table.Repr - old(c.table.Repr)) && (slot == -1 <==> failure.Some?)
    ensures forall e: Entry :: e.name == name ==>
              failure == B.FailureOf(StoreStep(old(c.Contents()), old(c.released), c.maxLength, c.maxSize, e))
    ensures slot != -1 ==> c.Reserved(slot, name) && c.released == old(c.released) && c.Contents()[1..] == Remove(old(c.Contents()), name)
  {
    hide C.Ends, C.Partition, C.AllLabelled, C.IndexOf, C.View, H.Table.Valid, B.OverBudget, B.Used, Remove;
    failure := MakeSpace(c);
    if failure.Some? {
      return -1, failure;
    }
    slot := c.Reserve(name);
    failure := if slot == -1 then Some(B.NoSpace) else None;
  }

  /** The records of the last entry are gone. */
  function LastEmptied(s: Lru): Lru {
    if s == [] then s else s[|s| - 1 := s[|s| - 1].(records := [], bytes := 0)]
  }

  /** The bytes booked for the entry that loses its records when the k-th is removed. */
  function BytesLost(s: Lru, k: nat): nat
    requires k < |s|
  {
    if |s| == 1 then 0 else Without(s, k)[|s| - 2].bytes
  }

  /** What removing one of several entries does besides: the last of the others keeps its name but has no records, its
      booked bytes are the ones released, and all entries before it are as they were. */
  lemma RemovalExactly(s: Lru, k: nat)
    requires k < |s| && |s| > 1
    ensures var r, j := LastEmptied(Without(s, k)), if k == |s| - 1 then |s| - 2 else |s| - 1;
            && |r| == |s| - 1
            && r[|s| - 2] == Entry(s[j].name, [], 0) && BytesLost(s, k) == s[j].bytes
            && forall i :: 0 <= i < |s| - 2 ==> r[i] == s[if i < k then i else i + 1]
  {
  }

  lemma AloneLosesNothing(s: Lru, k: nat)
    requires k < |s|
    ensures |s| == 1 ==> BytesLost(s, k) == 0
  {
  }

  /** The slot that remove_record releases: the last of the list without the removed one. */
  function Substitute(ord: seq<int>): int {
    if ord == [] then 0 else ord[|ord| - 1]
  }

  /** The writes of remove_record to the records of the relinked array. */
  function Mangled(rs: seq<Slot>, slot: int, other: int): (r: seq<Slot>)
    requires 0 <= slot < |rs| && 0 <= other < |rs|
    ensures |r| == |rs|
  {
    Invalidated(rs[other := rs[other].(data := [], size := 0)], slot)
  }

  lemma MangledKeepsShape(rs: seq<Slot>, first: int, last: int, keys: map<int, string>, ord: seq<int>, n: nat, k: nat)
    requires k < |ord| && NoRepeats(ord) && C.Flags(rs, ord, n)
    requires C.Ends(rs, first, last, Without(ord, k)) && C.AllLabelled(rs, keys, ord)
    ensures |rs| == n + 1 && 0 < ord[k] < n && 0 <= Substitute(Without(ord, k)) < n
    ensures var rs', ord' := Mangled(rs, ord[k], Substitute(Without(ord, k))), Without(ord, k);
            && C.Ends(rs', first, last, ord') && C.Flags(rs', ord', n)
            && (C.AllLabelled(rs', keys - {ord[k]}, ord') <==> ord' == [])
  {
    hide Linked, Bounded, C.AllLabelled, C.Labelled;
    var ord' := Without(ord, k);
    var other := Substitute(ord');
    C.OrderWithout(ord, k);
    assert ord' != [] ==> other in ord';
    var rs' := Mangled(rs, ord[k], other);
    MangledBounds(rs, ord[k], other);
    PayloadChange(rs, rs', [0] + ord');
    MangledLabels(rs, keys, ord, k);
  }

  lemma MangledBounds(rs: seq<Slot>, slot: int, other: int)
    requires Bounded(rs) && 0 <= slot < |rs| && 0 <= other < |rs|
    ensures Bounded(Mangled(rs, slot, other)) && SameLinks(rs, Mangled(rs, slot, other))
  {
  }

  lemma MangledLabels(rs: seq<Slot>, keys: map<int, string>, ord: seq<int>, k: nat)
    requires k < |ord| && 0 <= ord[k] < |rs| && 0 <= Substitute(Without(ord, k)) < |rs|
    ensures var rs', ord' := Mangled(rs, ord[k], Substitute(Without(ord, k))), Without(ord, k);
            C.AllLabelled(rs', keys - {ord[k]}, ord') <==> ord' == []
  {
    var rs', ord' := Mangled(rs, ord[k], Substitute(Without(ord, k))), Without(ord, k);
    if ord' != [] {
      assert !C.Labelled(rs', keys - {ord[k]}, ord'[|ord'| - 1]);
    }
  }

  lemma MangledView(rs: seq<Slot>, cut: seq<Slot>, keys: map<int, string>, ord: seq<int>, k: nat)
    requires k < |ord| && C.Viewable(rs, keys, ord) && NoRepeats(ord) && SamePayload(rs, cut)
    requires |rs| > 0 && 0 !in ord
    ensures |cut| == |rs| && 0 <= ord[k] < |cut| && 0 <= Substitute(Without(ord, k)) < |cut|
    ensures var rs', ord' := Mangled(cut, ord[k], Substitute(Without(ord, k))), Without(ord, k);
            && C.Viewable(rs', keys - {ord[k]}, ord')
            && C.View(rs', keys - {ord[k]}, ord') == LastEmptied(Without(C.View(rs, keys, ord), k))
    ensures cut[Substitute(Without(ord, k))].size ==
            if |ord| == 1 then cut[0].size else Without(C.View(rs, keys, ord), k)[|ord| - 2].bytes
  {
    var ord' := Without(ord, k);
    C.OrderWithout(ord, k);
    WithoutHasNoRepeats(ord, k);
  }

  /** The end of remove_record, after the list was relinked and the hash node reset. */
  method Discard(c: C.Cache, slot: int, ghost k: nat)
    requires k < |c.order| && c.order[k] == slot && NoRepeats(c.order) && c.Slots(c.order) && c.Booked()
    requires 0 < slot < c.records.Length && slot < c.maxLength && c.last == Substitute(Without(c.order, k)) && 0 <= c.last < c.records.Length
    modifies c.records, c.stack, c`stackTop, c`usedSize, c`released, c`length, c`order
    ensures c.records[..] == Mangled(old(c.records[..]), slot, c.last)
    ensures c.order == Without(old(c.order), k) && c.length == |c.order| && c.Booked()
    ensures c.released == old(c.released) + old(c.records[c.last].size)
    ensures C.FreeStack(c.stack[..], c.stackTop, c.order, c.maxLength)
  {
    hide C.FreeStack, C.Flags, B.Used, B.Wrap;
    ghost var rs := c.records[..];
    B.UsedAfter(c.released, c.records[c.last].size);
    c.usedSize, c.released := B.Wrap(c.usedSize - c.records[c.last].size), c.released + c.records[c.last].size;
    c.records[c.last] := c.records[c.last].(data := [], size := 0);
    c.records[slot] := c.records[slot].(valid := false);
    assert c.records[..] == Mangled(rs, slot, c.last);
    c.length := c.length - 1;
    c.StackPush(slot, c.order, k);
    c.order := Without(c.order, k);
  }

  /** The array that RemoveRecord writes. */
  ghost function Mangle(rs: seq<Slot>, ord: seq<int>, k: nat): (r: seq<Slot>)
    requires k < |ord| && C.InRange(rs, ord)
    ensures |r| == |rs|
  {
    Mangled(C.CutSlot(rs, ord, k), ord[k], Substitute(Without(ord, k)))
  }

  lemma MangleKeepsShape(rs: seq<Slot>, first: int, last: int, stack: seq<int>, top: int, keys: map<int, string>, ord: seq<int>, n: nat, k: nat)
    requires C.Ends(rs, first, last, ord) && C.Partition(rs, stack, top, ord, n) && C.AllLabelled(rs, keys, ord) && k < |ord|
    requires C.InRange(rs, ord) && NoRepeats(ord)
    requires var cut := C.CutSlot(rs, ord, k);
             SamePayload(rs, cut) && C.AllLabelled(cut, keys, ord) && C.Partition(cut, stack, top, ord, n)
    requires k + 1 < |ord| ==> C.Ends(C.CutSlot(rs, ord, k), if k == 0 then ord[1] else first, last, Without(ord, k))
    requires k + 1 == |ord| ==> C.Ends(C.CutSlot(rs, ord, k), first, C.Before(ord, k), Without(ord, k))
    ensures var rs', ord' := Mangle(rs, ord, k), Without(ord, k);
            && C.Ends(rs', if k == 0 && 1 < |ord| then ord[1] else first, Substitute(ord'), ord')
            && C.Flags(rs', ord', n) && (C.AllLabelled(rs', keys - {ord[k]}, ord') <==> ord' == [])
            && Substitute(ord') == (if k + 1 == |ord| then C.Before(ord, k) else last)
  {
    hide C.FreeStack, Linked, C.AllLabelled, C.CutSlot, SamePayload, Bounded, Mangled, C.Labelled, NoRepeats;
    MangledKeepsShape(C.CutSlot(rs, ord, k), if k == 0 && 1 < |ord| then ord[1] else first,
                      if k + 1 == |ord| then C.Before(ord, k) else last, keys, ord, n, k);
  }

  lemma MangleView(rs: seq<Slot>, keys: map<int, string>, ord: seq<int>, k: nat)
    requires k < |ord| && C.InRange(rs, ord) && C.Viewable(rs, keys, ord) && NoRepeats(ord) && SamePayload(rs, C.CutSlot(rs, ord, k))
    ensures var rs', ord' := Mangle(rs, ord, k), Without(ord, k);
            && C.Viewable(rs', keys - {ord[k]}, ord')
            && C.View(rs', keys - {ord[k]}, ord') == LastEmptied(Without(C.View(rs, keys, ord), k))
    ensures 0 <= Substitute(Without(ord, k)) < |rs|
    ensures C.CutSlot(rs, ord, k)[Substitute(Without(ord, k))].size ==
            if |ord| == 1 then rs[0].size else BytesLost(C.View(rs, keys, ord), k)
    ensures C.CutSlot(rs, ord, k)[ord[k]].data == rs[ord[k]].data
  {
    hide C.CutSlot, Mangled, C.View, Substitute, LastEmptied;
    MangledView(rs, C.CutSlot(rs, ord, k), keys, ord, k);
  }

  /** The other entries keep their records exactly when there are none. */
  lemma LostExactly(rs: seq<Slot>, keys: map<int, string>, ord: seq<int>, k: nat)
    requires k < |ord| && C.Viewable(rs, keys, ord) && C.AllLabelled(rs, keys, ord)
    ensures var rest := Without(C.View(rs, keys, ord), k); LastEmptied(rest) == rest <==> |ord| == 1
  {
    var rest := Without(C.View(rs, keys, ord), k);
    if rest != [] {
      var i := if k == |ord| - 1 then |ord| - 2 else |ord| - 1;
      assert C.Labelled(rs, keys, ord[i]);
      assert rest[|rest| - 1].records == rs[ord[i]].data;
    }
  }

  /** The beginning of remove_record: relink around the record and reset its hash node. */
  method Detach(c: C.Cache, slot: int, ghost k: nat)
    requires c.Valid() && k < |c.order| && c.order[k] == slot && C.InRange(c.records[..], c.order) && NoRepeats(c.order)
    modifies c`first, c`last, c`keys, c`index, c.records, c.table, c.table.Repr
    ensures c.records[..] == C.CutSlot(old(c.records[..]), c.order, k)
    ensures c.first == if k == 0 && 1 < |c.order| then c.order[1] else old(c.first)
    ensures c.last == if k + 1 == |c.order| then C.Before(c.order, k) else old(c.last)
    ensures c.keys == old(c.keys) - {slot} && c.Indexed(Without(c.order, k)) && c.table.Repr == old(c.table.Repr)
    ensures c.Slots(c.order)
  {
    hide C.FreeStack, C.Ends, C.Flags, C.IndexOf, C.AllLabelled, C.CutSlot, H.Table.Valid, C.Labelled, NoRepeats, SamePayload;
    c.BeforeCut(k);
    SlotToRemove(C.CutSlot(c.records[..], c.order, k), c.stack[..], c.stackTop, c.keys, c.order, c.maxLength, k);
    c.Relink(slot, k);
    c.Unindex(c.records[slot].data[0].name, k);
  }

  /** remove_record: right when the record was the only one; otherwise the last of the others loses its records,
      and the cache is no longer valid. */
  method RemoveRecord(c: C.Cache, slot: int, ghost k: nat)
    requires c.Valid() && k < |c.order| && c.order[k] == slot
    modifies c, c.records, c.stack, c.table, c.table.Repr
    ensures c.Shape() && c.table.Repr == old(c.table.Repr)
    ensures c.Contents() == LastEmptied(Without(old(c.Contents()), k))
    ensures c.Valid() <==> old(c.length) == 1
    ensures c.Contents() == Without(old(c.Contents()), k) <==> old(c.length) == 1
    ensures c.released == old(c.released) + BytesLost(old(c.Contents()), k)
  {
    hide C.FreeStack, C.Ends, C.Flags, C.IndexOf, C.AllLabelled, C.CutSlot, C.View, H.Table.Valid, B.Used, Mangled, Substitute, C.Labelled, NoRepeats, C.Viewable;
    hide SamePayload, BytesLost, LastEmptied;
    c.BeforeCut(k);
    AloneLosesNothing(c.Contents(), k);
    LostExactly(c.records[..], c.keys, c.order, k);
    MangleKeepsShape(c.records[..], c.first, c.last, c.stack[..], c.stackTop, c.keys, c.order, c.maxLength, k);
    MangleView(c.records[..], c.keys, c.order, k);
    SlotToRemove(c.records[..], c.stack[..], c.stackTop, c.keys, c.order, c.maxLength, k);
    Detach(c, slot, k);
    Discard(c, slot, k);
  }

  /** _get_cache_A_record. */
  method Get(c: C.Cache, name: string, now: int) returns (answer: Option<seq<RecordData>>, failure: Option<B.Failure>)
    requires c.Valid()
    modifies c, c.records, c.stack, c.table, c.table.Repr
    ensures c.table.Repr == old(c.table.Repr) && (c.Valid() <==> failure.None?)
    ensures var end := LookupStep(old(c.Contents()), old(c.released), name, now);
            && failure == B.FailureOf(end)
            && (failure.None? ==> end == B.Returned(c.Contents(), c.released) && answer == LruSpec.Get(old(c.Contents()), name, now).1)
    ensures var s, k := old(c.Contents()), Position(old(c.Contents()), name);
            failure.Some? <==> && k < |s| && |s| > 1
                               && s[k].records != [] && s[k].records[0].ttl < now && s[k].records[0].ttl != 1099511627776
  {
    hide C.FreeStack, Linked, C.Partition, C.AllLabelled, C.IndexOf, H.Table.Valid, LastEmptied, B.Used;
    var slot, k := c.Find(name);
    failure := None;
    if slot.None? {
      return None, None;
    }
    answer := Some(c.records[slot.value].data);
    if Expired(c.records[slot.value].data, now) {
      var alone := c.length == 1;
      assert alone ==> BytesLost(c.Contents(), k) == 0;
      RemoveRecord(c, slot.value, k);
      return None, if alone then None else Some(B.Damage);
    }
    if slot.value != c.first {
      c.MoveToFront(slot.value, k);
    } else {
      assert [c.Contents()[0]] + Without(c.Contents(), 0) == c.Contents();
    }
  }

  /** _set_cache_A_multi_record. */
  method SetMulti(c: C.Cache, name: string, data: seq<RecordData>, now: int) returns (failure: Option<B.Failure>)
    requires c.Valid() && forall j :: 0 <= j < |data| ==> data[j].name == name
    modifies c, c.records, c.stack, c.table, c.table.Repr
    ensures fresh(c.table.Repr - old(c.table.Repr))
    ensures var end := StoreStep(old(c.Contents()), old(c.released), c.maxLength, c.maxSize, EntryOf(Store(name, data, now)));
            && failure == B.FailureOf(end)
            && (failure.None? ==> (c.Valid() <==> Live(data, now) != []) && c.Shape() && end == B.Returned(c.Contents(), c.released))
  {
    hide C.Ends, C.Partition, C.AllLabelled, C.IndexOf, C.View, H.Table.Valid, B.OverBudget, B.Used;
    var slot;
    ghost var e := EntryOf(Store(name, data, now));
    slot, failure := PushFront(c, name);
    assert e.name == name && failure == B.FailureOf(StoreStep(old(c.Contents()), old(c.released), c.maxLength, c.maxSize, e));
    if failure.None? {
      c.FillMulti(slot, name, data, now);
    }
  }

  /** _set_cache_A_record. */
  method SetOne(c: C.Cache, name: string, data: RecordData, now: int) returns (size: nat, failure: Option<B.Failure>)
    requires c.Valid() && data.name == name
    modifies c, c.records, c.stack, c.table, c.table.Repr
    ensures fresh(c.table.Repr - old(c.table.Repr))
    ensures var e := EntryOf(StoreOne(name, data, now));
            var end := StoreStep(old(c.Contents()), old(c.released), c.maxLength, c.maxSize, e);
            && failure == B.FailureOf(end)
            && (failure.None? ==> (c.Valid() <==> Live([data], now) != []) && c.Shape() && end == B.Returned(c.Contents(), c.released) && size == e.bytes)
  {
    hide C.Ends, C.Partition, C.AllLabelled, C.IndexOf, C.View, H.Table.Valid, B.OverBudget, B.Used;
    var slot;
    size := 0;
    ghost var e := EntryOf(StoreOne(name, data, now));
    slot, failure := PushFront(c, name);
    assert e.name == name && failure == B.FailureOf(StoreStep(old(c.Contents()), old(c.released), c.maxLength, c.maxSize, e));
    if failure.None? {
      size := c.FillOne(slot, name, data, now);
    }
  }

  method Perform(c: C.Cache, op: Op) returns (answer: Option<seq<RecordData>>, failure: Option<B.Failure>)
    requires c.Valid() && Legal(op)
    modifies c, c.records, c.stack, c.table, c.table.Repr
    ensures fresh(c.table.Repr - old(c.table.Repr)) && (failure.None? ==> c.Valid())
    ensures var end := Step(old(c.Contents()), old(c.released), c.maxLength, c.maxSize, op);
            && failure == B.FailureOf(end)
            && (failure.None? ==> end == B.Returned(c.Contents(), c.released) && answer == Answer(old(c.Contents()), op))
  {
    hide C.Ends, C.Partition, C.AllLabelled, C.IndexOf, C.View, H.Table.Valid, StoreStep, LookupStep, C.Cache.Shape;
    match op
    case Lookup(name, now) =>
      answer, failure := Get(c, name, now);
    case Store(name, data, now) =>
      failure := SetMulti(c, name, data, now);
      answer := None;
    case StoreOne(name, record, now) =>
      var size;
      size, failure := SetOne(c, name, record, now);
      answer := None;
      assert [record][0] == record;
  }

  /** Any run of lookups and stores on the code as written: each call that returns answers as the abstract run
      does, and the first that does not return in order is the abstract run's. */
  method RunAll(c: C.Cache, ops: seq<Op>) returns (answers: seq<Option<seq<RecordData>>>, failure: Option<B.Failure>)
    requires c.Valid() && forall i :: 0 <= i < |ops| ==> Legal(ops[i])
    modifies c, c.records, c.stack, c.table, c.table.Repr
    ensures var end := Run(old(c.Contents()), old(c.released), c.maxLength, c.maxSize, ops);
            failure == B.FailureOf(end) && (end.Returned? ==> c.Valid() && end == B.Returned(c.Contents(), c.released))
    ensures answers == Replies(old(c.Contents()), old(c.released), c.maxLength, c.maxSize, ops)
  {
    hide C.Ends, C.Partition, C.AllLabelled, C.IndexOf, C.View, Legal, Answer, H.Table.Valid, Step, C.Cache.Shape;
    answers := [];
    failure := None;
    ghost var s, r0 := c.Contents(), c.released;
    assert ops[..0] == [];
    for i := 0 to |ops|
      invariant c.Valid() && fresh(c.table.Repr - old(c.table.Repr)) && failure.None?
      invariant Run(s, r0, c.maxLength, c.maxSize, ops[..i]) == B.Returned(c.Contents(), c.released)
      invariant answers == Replies(s, r0, c.maxLength, c.maxSize, ops[..i])
    {
      assert ops[..i + 1][..i] == ops[..i];
      var answer;
      answer, failure := Perform(c, ops[i]);
      if failure.Some? {
        B.StaysFailed(Written(c.maxLength, c.maxSize), s, r0, ops, i + 1);
        return;
      }
      answers := answers + [answer];
    }
    assert ops[..|ops|] == ops;
  }
}
