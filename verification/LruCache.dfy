/** The record cache of src/cache.c: a doubly linked list threaded through an array, a stack of free slots
    and a hash index, kept in agreement by every operation. */
module LruCache {
  import opened Options
  import opened Sequences
  import opened LruSpec
  import opened LruLinks
  import B = CacheBudget
  import H = HashTable

  /** LRU_BUFFER_LENGTH and CACHE_SIZE of include/cache.h. */
  const DEFAULT_LENGTH: nat := 1000
  const DEFAULT_SIZE: nat := 102400

  ghost predicate IsFree(stack: seq<int>, top: int, s: int) {
    exists i :: 1 <= i <= top && i < |stack| && stack[i] == s
  }

  /** stack[1..top] are the free slots: together with the list's slots they partition 1..n-1; stack[0]
      keeps the value n written by init_cache and is never handed out. */
  ghost predicate FreeStack(stack: seq<int>, top: int, order: seq<int>, n: nat) {
    && |stack| == n && 0 <= top < n && stack[0] == n
    && top + |order| == n - 1
    && (forall i :: 1 <= i <= top ==> 1 <= stack[i] < n && stack[i] !in order)
    && (forall i, j :: 1 <= i < j <= top ==> stack[i] != stack[j])
    && (forall s :: 1 <= s < n ==> s in order || IsFree(stack, top, s))
  }

  lemma InitialStack(stack: seq<int>, n: nat)
    requires n >= 1 && |stack| == n && forall i :: 0 <= i < n ==> stack[i] == n - i
    ensures FreeStack(stack, n - 1, [], n)
  {
    var top := n - 1;
    forall s | 1 <= s < n ensures IsFree(stack, top, s) {
      assert stack[n - s] == s;
    }
  }

  /** What init_cache leaves. */
  lemma InitialState(rs: seq<Slot>, stack: seq<int>, n: nat)
    requires n >= 1 && |rs| == n + 1 && |stack| == n && forall i :: 0 <= i < n ==> stack[i] == n - i
    requires rs[0] == Slot([], 0, -1, -1, true) && forall i :: 1 <= i <= n ==> rs[i] == Slot([], 0, 0, 0, false)
    ensures Ends(rs, -1, -1, []) && Partition(rs, stack, n - 1, [], n)
  {
    InitialStack(stack, n);
  }

  /** The index of an empty table. */
  lemma InitialIndex(size: nat, hash: string -> nat)
    requires size > 0
    ensures IndexOf(seq(size, _ => []), hash, map[], map[], [])
  {
    H.EmptyRefines<string, int>(size, hash, map[]);
  }

  lemma NothingListed(rs: seq<Slot>)
    ensures AllLabelled(rs, map[], []) && Viewable(rs, map[], []) && View(rs, map[], []) == []
  {
  }

  lemma ReturnSlot(stack: seq<int>, top: int, order: seq<int>, n: nat, k: nat)
    requires FreeStack(stack, top, order, n) && k < |order| && 1 <= order[k] < n
    requires forall i, j :: 0 <= i < j < |order| ==> order[i] != order[j]
    ensures FreeStack(stack[top + 1 := order[k]], top + 1, Without(order, k), n)
  {
    var stack', top', order' := stack[top + 1 := order[k]], top + 1, Without(order, k);
    forall s | 1 <= s < n ensures s in order' || IsFree(stack', top', s) {
      if s == order[k] {
        assert stack'[top'] == s;
      } else if s in order {
        var i :| 0 <= i < |order| && order[i] == s;
        assert order'[if i < k then i else i - 1] == s;
      } else {
        var i :| 1 <= i <= top && stack[i] == s;
        assert stack'[i] == s;
      }
    }
  }

  lemma TakeSlot(stack: seq<int>, top: int, order: seq<int>, n: nat)
    requires FreeStack(stack, top, order, n) && top > 0
    ensures FreeStack(stack, top - 1, [stack[top]] + order, n)
  {
    var top', order' := top - 1, [stack[top]] + order;
    forall s | 1 <= s < n ensures s in order' || IsFree(stack, top', s) {
      if s !in order' {
        assert s !in order;
        var i :| 1 <= i <= top && stack[i] == s;
        assert i != top;
      }
    }
  }

  /** compare_record_with_label: it stops the process on an invalid record, so that is its precondition. */
  function Comparator(rs: seq<Slot>): (int, string) --> bool {
    (s: int, name: string) requires 0 <= s < |rs| && rs[s].valid && rs[s].data != [] => rs[s].data[0].name == name
  }

  ghost predicate Viewable(rs: seq<Slot>, keys: map<int, string>, order: seq<int>) {
    forall i :: 0 <= i < |order| ==> 0 <= order[i] < |rs| && order[i] in keys
  }

  /** The entries of the listed slots, in list order. */
  ghost function View(rs: seq<Slot>, keys: map<int, string>, order: seq<int>): (r: Lru)
    requires Viewable(rs, keys, order)
    ensures |r| == |order|
    ensures forall i :: 0 <= i < |order| ==> r[i] == Entry(keys[order[i]], rs[order[i]].data, rs[order[i]].size)
  {
    seq(|order|, i requires 0 <= i < |order| => Entry(keys[order[i]], rs[order[i]].data, rs[order[i]].size))
  }

  /** The list in the array, with `first` and `last` naming its ends. */
  ghost predicate Ends(rs: seq<Slot>, first: int, last: int, ord: seq<int>) {
    && Bounded(rs) && Linked(rs, [0] + ord)
    && (ord != [] ==> first == ord[0] && last == ord[|ord| - 1])
  }

  /** The listed slots are the valid ones; the sentinel never has data. */
  ghost predicate Flags(rs: seq<Slot>, ord: seq<int>, n: nat) {
    && |rs| == n + 1 && rs[0].data == [] && rs[0].size == 0
    && (forall i :: 0 <= i < |ord| ==> 1 <= ord[i] < n)
    && (forall s :: 1 <= s <= n ==> (rs[s].valid <==> s in ord))
  }

  /** The listed slots are the valid ones, and with the free stack they partition 1..n-1. */
  ghost predicate Partition(rs: seq<Slot>, stack: seq<int>, top: int, ord: seq<int>, n: nat) {
    n >= 1 && FreeStack(stack, top, ord, n) && Flags(rs, ord, n)
  }

  /** The slot has data, all of it under the slot's own label. */
  ghost predicate Labelled(rs: seq<Slot>, keys: map<int, string>, s: int) {
    && 0 <= s < |rs| && s in keys
    && rs[s].data != [] && rs[s].size > 0
    && forall j :: 0 <= j < |rs[s].data| ==> rs[s].data[j].name == keys[s]
  }

  ghost predicate AllLabelled(rs: seq<Slot>, keys: map<int, string>, ord: seq<int>) {
    forall i :: 0 <= i < |ord| ==> Labelled(rs, keys, ord[i])
  }

  /** The comparator decides label equality on the listed slots, so its process stop is unreachable. */
  lemma ComparatorDecides(rs: seq<Slot>, stack: seq<int>, top: int, keys: map<int, string>, ord: seq<int>, n: nat)
    requires Partition(rs, stack, top, ord, n) && AllLabelled(rs, keys, ord) && forall s :: s in keys ==> s in ord
    ensures H.Decides(Comparator(rs), keys)
  {
    forall s | s in keys ensures 0 <= s < |rs| && rs[s].valid && rs[s].data != [] && rs[s].data[0].name == keys[s] {
      var i :| 0 <= i < |ord| && ord[i] == s;
      assert Labelled(rs, keys, ord[i]);
    }
  }

  function Cleared(rs: seq<Slot>, s: int): (r: seq<Slot>)
    requires 0 <= s < |rs|
    ensures |r| == |rs|
  {
    rs[s := rs[s].(data := [], size := 0, valid := false)]
  }

  /** Clearing the k-th slot, once cut from the list, keeps everything else in place. */
  lemma ClearSlot(rs: seq<Slot>, first: int, last: int, keys: map<int, string>, ord: seq<int>, n: nat, k: nat)
    requires k < |ord| && NoRepeats(ord) && Flags(rs, ord, n)
    requires Ends(rs, first, last, Without(ord, k)) && AllLabelled(rs, keys, ord)
    ensures |rs| == n + 1 && 1 <= ord[k] < n && ord[k] in keys && rs[ord[k]].data != [] && rs[ord[k]].data[0].name == keys[ord[k]]
    ensures var rs' := Cleared(rs, ord[k]);
            && Ends(rs', first, last, Without(ord, k)) && Flags(rs', Without(ord, k), n)
            && AllLabelled(rs', keys - {ord[k]}, Without(ord, k))
  {
    var rs', ord' := Cleared(rs, ord[k]), Without(ord, k);
    PayloadChange(rs, rs', [0] + ord');
    OrderWithout(ord, k);
    forall i | 0 <= i < |ord'| ensures Labelled(rs', keys - {ord[k]}, ord'[i]) {
      assert Labelled(rs, keys, ord[if i < k then i else i + 1]);
    }
  }

  /** The links around the k-th listed slot, as the list operations read them. */
  lemma Neighbours(rs: seq<Slot>, first: int, last: int, ord: seq<int>, k: nat)
    requires Ends(rs, first, last, ord) && k < |ord|
    ensures NoRepeats(ord) && 0 < |rs| && forall i :: 0 <= i < |ord| ==> 0 < ord[i] < |rs|
    ensures rs[ord[k]].next == if k + 1 < |ord| then ord[k + 1] else -1
    ensures rs[ord[k]].last == Before(ord, k)
    ensures ord[k] == first <==> k == 0
    ensures ord[k] == last <==> k == |ord| - 1
    ensures Without([0] + ord, k + 1) == [0] + Without(ord, k)
  {
    PathHasNoRepeats(rs, ord);
    var p := [0] + ord;
    assert p[k + 1] == ord[k];
    assert rs[p[k + 1]].next == Successor(p, k + 1);
    assert rs[p[k + 1]].last == Predecessor(p, k + 1);
  }

  /** The slot before the k-th listed one; the sentinel before the first. */
  function Before(ord: seq<int>, k: nat): int
    requires k < |ord|
  {
    if k > 0 then ord[k - 1] else 0
  }

  /** The records array after the k-th listed slot is cut out by rewriting its neighbours' links. */
  ghost function CutSlot(rs: seq<Slot>, ord: seq<int>, k: nat): seq<Slot>
    requires k < |ord| && 0 < |rs| && forall i :: 0 <= i < |ord| ==> 0 < ord[i] < |rs|
  {
    if k + 1 < |ord| then SetLast(SetNext(rs, Before(ord, k), ord[k + 1]), ord[k + 1], Before(ord, k))
    else SetNext(rs, Before(ord, k), -1)
  }

  lemma CutSlotStaysBounded(rs: seq<Slot>, ord: seq<int>, k: nat)
    requires Bounded(rs) && k < |ord| && forall i :: 0 <= i < |ord| ==> 0 < ord[i] < |rs|
    ensures Bounded(CutSlot(rs, ord, k)) && SamePayload(rs, CutSlot(rs, ord, k))
  {
  }

  lemma CutSlotLinked(rs: seq<Slot>, ord: seq<int>, k: nat)
    requires Linked(rs, [0] + ord) && k < |ord| && 0 < |rs| && forall i :: 0 <= i < |ord| ==> 0 < ord[i] < |rs|
    ensures Linked(CutSlot(rs, ord, k), [0] + Without(ord, k))
  {
    hide Linked, SamePayload;
    var p := [0] + ord;
    assert p[k] == Before(ord, k);
    assert Without(p, k + 1) == [0] + Without(ord, k);
    if k + 1 < |ord| {
      assert p[k + 2] == ord[k + 1];
      CutMiddleWrites(rs, p, k + 1);
    } else {
      CutEndWrite(rs, p);
    }
  }

  lemma CutSlotKeepsList(rs: seq<Slot>, first: int, last: int, ord: seq<int>, k: nat)
    requires Ends(rs, first, last, ord) && k < |ord|
    requires 0 < |rs| && forall i :: 0 <= i < |ord| ==> 0 < ord[i] < |rs|
    ensures SamePayload(rs, CutSlot(rs, ord, k))
    ensures k + 1 < |ord| ==> Ends(CutSlot(rs, ord, k), if k == 0 then ord[1] else first, last, Without(ord, k))
    ensures k + 1 == |ord| ==> Ends(CutSlot(rs, ord, k), first, Before(ord, k), Without(ord, k))
  {
    hide Linked, Bounded, SamePayload, CutSlot;
    CutSlotStaysBounded(rs, ord, k);
    CutSlotLinked(rs, ord, k);
  }

  /** The records array after an unlisted slot is linked in front of the list. */
  ghost function FrontSlot(rs: seq<Slot>, ord: seq<int>, s: int): seq<Slot>
    requires 0 < s < |rs| && forall i :: 0 <= i < |ord| ==> 0 < ord[i] < |rs|
  {
    var rs' := SetLast(SetNext(SetNext(rs, 0, s), s, if ord != [] then ord[0] else -1), s, 0);
    if ord != [] then SetLast(rs', ord[0], s) else rs'
  }

  lemma FrontSlotStaysBounded(rs: seq<Slot>, ord: seq<int>, s: int)
    requires Bounded(rs) && 0 < s < |rs| && forall i :: 0 <= i < |ord| ==> 0 < ord[i] < |rs|
    ensures Bounded(FrontSlot(rs, ord, s)) && SamePayload(rs, FrontSlot(rs, ord, s))
  {
  }

  lemma FrontSlotWrites(rs: seq<Slot>, ord: seq<int>, s: int)
    requires 0 < s < |rs| && s !in ord && NoRepeats(ord) && forall i :: 0 <= i < |ord| ==> 0 < ord[i] < |rs|
    ensures var p, rs' := [0] + ord, FrontSlot(rs, ord, s);
            && |rs'| == |rs| && s !in p
            && rs'[s].next == Successor(p, 0) && rs'[s].last == 0
            && rs'[0].next == s && rs'[0].last == rs[0].last
            && (|p| > 1 ==> rs'[p[1]].last == s && rs'[p[1]].next == rs[p[1]].next)
            && forall i {:trigger rs'[p[i]]} :: 2 <= i < |p| ==> rs'[p[i]] == rs[p[i]]
  {
    assert forall i :: 1 < i <= |ord| ==> ([0] + ord)[i] == ord[i - 1];
  }

  lemma FrontSlotKeepsList(rs: seq<Slot>, first: int, last: int, ord: seq<int>, s: int)
    requires Ends(rs, first, last, ord) && 0 < s < |rs| && s !in ord
    requires forall i :: 0 <= i < |ord| ==> 0 < ord[i] < |rs|
    ensures SamePayload(rs, FrontSlot(rs, ord, s))
    ensures Ends(FrontSlot(rs, ord, s), s, if ord == [] then s else last, [s] + ord)
  {
    hide Bounded, SamePayload, FrontSlot, Linked, NoRepeats;
    FrontSlotStaysBounded(rs, ord, s);
    PathHasNoRepeats(rs, ord);
    FrontSlotWrites(rs, ord, s);
    LinkFront(rs, [0] + ord, s, FrontSlot(rs, ord, s));
    assert InFront([0] + ord, s) == [0] + ([s] + ord);
  }

  ghost predicate InRange(rs: seq<Slot>, ord: seq<int>) {
    0 < |rs| && forall i :: 0 <= i < |ord| ==> 0 < ord[i] < |rs|
  }

  /** The records array after the k-th listed slot is cut out and linked in front. */
  ghost function Moved(rs: seq<Slot>, ord: seq<int>, k: nat): (r: seq<Slot>)
    requires k < |ord| && InRange(rs, ord)
    ensures |r| == |rs|
  {
    FrontSlot(CutSlot(rs, ord, k), Without(ord, k), ord[k])
  }

  lemma MovedKeepsList(rs: seq<Slot>, first: int, last: int, ord: seq<int>, k: nat)
    requires Ends(rs, first, last, ord) && 0 < k < |ord| && InRange(rs, ord)
    ensures SamePayload(rs, Moved(rs, ord, k)) && ord[k] !in Without(ord, k)
    ensures var last' := if k + 1 == |ord| then Before(ord, k) else last;
            && Ends(CutSlot(rs, ord, k), first, last', Without(ord, k))
            && Ends(Moved(rs, ord, k), ord[k], last', [ord[k]] + Without(ord, k))
  {
    hide Linked;
    Neighbours(rs, first, last, ord, k);
    CutSlotKeepsList(rs, first, last, ord, k);
    OrderWithout(ord, k);
    FrontSlotKeepsList(CutSlot(rs, ord, k), first, if k + 1 == |ord| then Before(ord, k) else last, Without(ord, k), ord[k]);
  }

  /** The entries left after a slot was cut out of the list and cleared. */
  lemma ViewAfterForget(rs: seq<Slot>, cut: seq<Slot>, keys: map<int, string>, ord: seq<int>, k: nat)
    requires k < |ord| && Viewable(rs, keys, ord) && NoRepeats(ord) && SamePayload(rs, cut)
    ensures |cut| == |rs| && 0 <= ord[k] < |cut|
    ensures var cleared := Cleared(cut, ord[k]);
            && Viewable(cleared, keys - {ord[k]}, Without(ord, k))
            && View(cleared, keys - {ord[k]}, Without(ord, k)) == Without(View(rs, keys, ord), k)
    ensures cut[ord[k]].size == View(rs, keys, ord)[k].bytes
  {
  }

  lemma AllLabelledSamePayload(rs: seq<Slot>, rs': seq<Slot>, keys: map<int, string>, ord: seq<int>)
    requires AllLabelled(rs, keys, ord) && SamePayload(rs, rs')
    ensures AllLabelled(rs', keys, ord) && Viewable(rs, keys, ord)
  {
    forall i | 0 <= i < |ord| ensures Labelled(rs', keys, ord[i]) && ord[i] in keys {
      assert Labelled(rs, keys, ord[i]);
    }
  }

  /** The hash buckets index exactly the listed slots, each under its own label. */
  ghost predicate IndexOf(buckets: H.Buckets<int>, hash: string -> nat, keys: map<int, string>, index: map<string, int>, ord: seq<int>) {
    && (forall s :: s in keys <==> s in ord)
    && (forall s :: s in keys ==> keys[s] in index && index[keys[s]] == s)
    && H.Refines(buckets, hash, keys, index)
  }

  lemma PathHasNoRepeats(rs: seq<Slot>, order: seq<int>)
    requires Linked(rs, [0] + order)
    ensures NoRepeats(order)
    ensures forall i :: 0 <= i < |order| ==> 0 < order[i] < |rs|
  {
    var p := [0] + order;
    assert forall i :: 0 <= i < |order| ==> order[i] == p[i + 1];
  }

  lemma OrderWithout(order: seq<int>, k: nat)
    requires k < |order| && NoRepeats(order)
    ensures forall s :: s in Without(order, k) <==> s in order && s != order[k]
  {
    var r := Without(order, k);
    forall s | s in order && s != order[k] ensures s in r {
      var i :| 0 <= i < |order| && order[i] == s;
      assert r[if i < k then i else i - 1] == s;
    }
  }

  /** Resetting a slot's label in the hash table takes exactly that slot out of the index. */
  lemma UnindexSlot(buckets: H.Buckets<int>, hash: string -> nat, keys: map<int, string>, index: map<string, int>, order: seq<int>,
                    k: nat, compare: (int, string) --> bool, at: nat)
    requires IndexOf(buckets, hash, keys, index, order) && H.Decides(compare, keys)
    requires k < |order| && NoRepeats(order) && order[k] in keys
    requires var chain := buckets[hash(keys[order[k]]) % |buckets|];
             H.Comparable(chain, compare, keys[order[k]]) && H.FirstMatch(chain, compare, keys[order[k]], at)
    ensures var p := hash(keys[order[k]]) % |buckets|;
            IndexOf(buckets[p := H.Cut(buckets[p], at)], hash, keys - {order[k]}, index - {keys[order[k]]}, Without(order, k))
  {
    var slot, name := order[k], keys[order[k]];
    var p := hash(name) % |buckets|;
    H.ResetAgrees(buckets, hash, keys, index, compare, name, at);
    H.RefinesSameKeys(buckets[p := H.Cut(buckets[p], at)], hash, keys, keys - {slot}, index - {name});
    OrderWithout(order, k);
  }

  /** A name is in the index exactly when an entry carries it, and then at the entry's own slot. */
  lemma IndexFindsEntry(rs: seq<Slot>, buckets: H.Buckets<int>, hash: string -> nat, keys: map<int, string>, index: map<string, int>,
                        ord: seq<int>, name: string)
    requires IndexOf(buckets, hash, keys, index, ord) && Viewable(rs, keys, ord) && NoRepeats(ord)
    ensures var k := Position(View(rs, keys, ord), name);
            (name in index <==> k < |ord|) && (name in index ==> ord[k] == index[name])
  {
    var s := View(rs, keys, ord);
    if name in index {
      var k :| 0 <= k < |ord| && ord[k] == index[name];
      PositionIs(s, name, k);
    }
  }

  /** Moving the k-th slot to the front of the order moves its entry to the front. */
  lemma ViewAfterMove(rs: seq<Slot>, rs': seq<Slot>, keys: map<int, string>, ord: seq<int>, k: nat)
    requires k < |ord| && Viewable(rs, keys, ord) && SamePayload(rs, rs')
    ensures Viewable(rs', keys, [ord[k]] + Without(ord, k))
    ensures View(rs', keys, [ord[k]] + Without(ord, k)) == [View(rs, keys, ord)[k]] + Without(View(rs, keys, ord), k)
  {
  }

  /** The free stack and the valid flags do not depend on the order of the list. */
  lemma PartitionAfterMove(rs: seq<Slot>, rs': seq<Slot>, stack: seq<int>, top: int, ord: seq<int>, n: nat, k: nat)
    requires k < |ord| && NoRepeats(ord) && Partition(rs, stack, top, ord, n) && SamePayload(rs, rs')
    ensures Partition(rs', stack, top, [ord[k]] + Without(ord, k), n)
  {
    OrderWithout(ord, k);
    var ord' := [ord[k]] + Without(ord, k);
    assert forall s :: s in ord' <==> s in ord;
  }

  lemma LabelledAfterMove(rs: seq<Slot>, rs': seq<Slot>, keys: map<int, string>, ord: seq<int>, k: nat)
    requires k < |ord| && AllLabelled(rs, keys, ord) && SamePayload(rs, rs')
    ensures AllLabelled(rs', keys, [ord[k]] + Without(ord, k))
  {
    var ord' := [ord[k]] + Without(ord, k);
    forall i | 0 <= i < |ord'| ensures Labelled(rs', keys, ord'[i]) {
      assert Labelled(rs, keys, ord[if i == 0 then k else if i <= k then i - 1 else i]);
    }
  }

  lemma IndexAfterMove(buckets: H.Buckets<int>, hash: string -> nat, keys: map<int, string>, index: map<string, int>, ord: seq<int>, k: nat)
    requires k < |ord| && NoRepeats(ord) && IndexOf(buckets, hash, keys, index, ord)
    ensures IndexOf(buckets, hash, keys, index, [ord[k]] + Without(ord, k))
  {
    OrderWithout(ord, k);
  }

  function Marked(rs: seq<Slot>, s: int): (r: seq<Slot>)
    requires 0 <= s < |rs|
    ensures |r| == |rs|
  {
    rs[s := rs[s].(data := [], size := 0, valid := true)]
  }

  /** Marking a free slot valid, with no data yet, and linking it in front. */
  lemma AllocateSlot(rs: seq<Slot>, first: int, last: int, keys: map<int, string>, ord: seq<int>, n: nat, s: int, name: string)
    requires Ends(rs, first, last, ord) && Flags(rs, ord, n) && AllLabelled(rs, keys, ord) && 1 <= s < n && s !in ord
    ensures 0 < s < |rs| && InRange(rs, ord)
    ensures var marked := Marked(rs, s);
            var rs', keys' := FrontSlot(marked, ord, s), keys[s := name];
            && Ends(marked, first, last, ord)
            && Ends(rs', s, if ord == [] then s else last, [s] + ord)
            && Flags(rs', [s] + ord, n)
            && AllLabelled(rs', keys', ord) && rs'[s].data == [] && rs'[s].size == 0
            && Viewable(rs, keys, ord) && View(rs', keys', ord) == View(rs, keys, ord)
  {
    hide Linked;
    var marked := Marked(rs, s);
    PayloadChange(rs, marked, [0] + ord);
    FrontSlotKeepsList(marked, first, last, ord, s);
    var rs', keys' := FrontSlot(marked, ord, s), keys[s := name];
    assert forall x :: x in [s] + ord <==> x == s || x in ord;
    forall i | 0 <= i < |ord| ensures Labelled(rs', keys', ord[i]) && ord[i] in keys {
      assert Labelled(rs, keys, ord[i]);
    }
  }

  lemma IndexAfterInsert(buckets: H.Buckets<int>, hash: string -> nat, keys: map<int, string>, index: map<string, int>, ord: seq<int>,
                         name: string, slot: int, compare: (int, string) --> bool, at: nat)
    requires IndexOf(buckets, hash, keys, index, ord) && H.Decides(compare, keys) && slot !in ord
    requires var chain := buckets[hash(name) % |buckets|];
             H.Comparable(chain, compare, name) && H.FirstMatch(chain, compare, name, at) && at == |chain|
    ensures name !in index
    ensures var p := hash(name) % |buckets|;
            IndexOf(buckets[p := buckets[p] + [Some(slot)]], hash, keys[slot := name], index[name := slot], [slot] + ord)
  {
    H.LookupAgrees(buckets, hash, keys, index, compare, name);
    H.SetAgrees(buckets, hash, keys, index, compare, name, slot, at);
    assert forall x :: x in [slot] + ord <==> x == slot || x in ord;
  }

  /** A slot with data of the right label completes a list whose other slots are labelled. */
  lemma FillFront(rs: seq<Slot>, keys: map<int, string>, ord: seq<int>, data: seq<RecordData>, size: nat)
    requires ord != [] && NoRepeats(ord) && Viewable(rs, keys, ord) && AllLabelled(rs, keys, ord[1..])
    requires (forall j :: 0 <= j < |data| ==> data[j].name == keys[ord[0]]) && (data != [] ==> size > 0)
    ensures var rs' := rs[ord[0] := rs[ord[0]].(data := data, size := size)];
            && (AllLabelled(rs', keys, ord) <==> data != [])
            && SameLinks(rs, rs')
            && Viewable(rs', keys, ord) && View(rs', keys, ord) == [Entry(keys[ord[0]], data, size)] + View(rs, keys, ord)[1..]
  {
    var rs' := rs[ord[0] := rs[ord[0]].(data := data, size := size)];
    forall i | 0 < i < |ord| ensures Labelled(rs', keys, ord[i]) {
      assert Labelled(rs, keys, ord[1..][i - 1]);
    }
    if data == [] {
      assert !Labelled(rs', keys, ord[0]);
    }
  }

  lemma ViewTail(rs: seq<Slot>, keys: map<int, string>, slot: int, ord: seq<int>)
    requires Viewable(rs, keys, ord) && 0 <= slot < |rs| && slot in keys
    ensures Viewable(rs, keys, [slot] + ord) && View(rs, keys, [slot] + ord)[1..] == View(rs, keys, ord)
    ensures ([slot] + ord)[1..] == ord
  {
  }

  class Cache {
    const maxLength: nat
    const maxSize: nat
    const records: array<Slot>
    const stack: array<int>
    const table: H.Table<string, int>
    var stackTop: int
    var length: nat
    var usedSize: nat
    var first: int
    var last: int
    ghost var order: seq<int>
    ghost var keys: map<int, string>
    ghost var index: map<string, int>
    ghost var released: nat

    ghost predicate Links(ord: seq<int>)
      reads `first, `last, records
    {
      Ends(records[..], first, last, ord)
    }

    ghost predicate Slots(ord: seq<int>)
      reads `length, `stackTop, records, stack
    {
      length == |ord| && Partition(records[..], stack[..], stackTop, ord, maxLength)
    }

    ghost predicate Indexed(ord: seq<int>)
      reads `keys, `index, table, table.Repr
    {
      table.Valid() && IndexOf(table.buckets, table.hash, keys, index, ord)
    }

    /** `used_size` is minus the bytes released so far, as a size_t. */
    ghost predicate Booked()
      reads `usedSize, `released
    {
      usedSize == B.Used(released)
    }

    lemma UsedIsBooked()
      requires Booked()
      ensures usedSize == B.Used(released)
    {
    }

    /** List, free stack and hash index agree; nothing is said about the data of the slots. */
    ghost predicate Shape()
      reads this, records, stack, table, table.Repr
    {
      Links(order) && Slots(order) && Indexed(order) && Booked()
    }

    ghost predicate Valid()
      reads this, records, stack, table, table.Repr
    {
      Shape() && AllLabelled(records[..], keys, order)
    }

    ghost function Contents(): (r: Lru)
      reads this, records, stack, table, table.Repr
      requires Shape()
      ensures |r| == length
    {
      View(records[..], keys, order)
    }

    constructor (recordLength: int, maxBytes: int, tableSize: nat, hash: string -> nat)
      requires tableSize > 0
      ensures Valid() && Contents() == [] && released == 0
      ensures maxLength == if recordLength <= 0 then 1000 else recordLength
      ensures maxSize == if maxBytes <= 0 then 102400 else maxBytes
      ensures fresh(records) && fresh(stack) && fresh(table) && fresh(table.Repr)
    {
      var n: nat := if recordLength <= 0 then DEFAULT_LENGTH else recordLength;
      maxLength := n;
      maxSize := if maxBytes <= 0 then DEFAULT_SIZE else maxBytes;
      records := new Slot[n + 1](_ => Slot([], 0, 0, 0, false));
      stack := new int[n](i => n - i);
      table := new H.Table<string, int>(tableSize, hash);
      stackTop := n - 1;
      length, usedSize := 0, 0;
      first, last := -1, -1;
      order, keys, index, released := [], map[], map[], 0;
      new;
      records[0] := Slot([], 0, -1, -1, true);
      hide Ends, Partition, IndexOf, AllLabelled, H.Refines, H.Table.Valid, B.Used, View, FreeStack;
      B.NothingReleased();
      InitialIndex(tableSize, hash);
      NothingListed(records[..]);
      ghost var rs, st := records[..], stack[..];
      assert rs[0] == Slot([], 0, -1, -1, true) && forall i :: 1 <= i <= n ==> rs[i] == Slot([], 0, 0, 0, false);
      InitialState(rs, st, n);
    }

    /** cache_stack_pop: it fails exactly when every slot is listed, and otherwise the slot it returns is free
        and no longer on the stack. */
    method StackPop(ghost ord: seq<int>) returns (x: int)
      requires FreeStack(stack[..], stackTop, ord, maxLength)
      modifies this`stackTop
      ensures x == -1 <==> |ord| >= maxLength - 1
      ensures x == -1 ==> FreeStack(stack[..], stackTop, ord, maxLength)
      ensures x != -1 ==> 1 <= x < maxLength && x !in ord && FreeStack(stack[..], stackTop, [x] + ord, maxLength)
    {
      if stackTop > 0 {
        TakeSlot(stack[..], stackTop, ord, maxLength);
        x := stack[stackTop];
        stackTop := stackTop - 1;
      } else {
        x := -1;
      }
    }

    /** cache_stack_push: a listed slot becomes free; any other number is ignored. */
    method StackPush(x: int, ghost ord: seq<int>, ghost k: nat)
      requires FreeStack(stack[..], stackTop, ord, maxLength)
      requires 0 <= x < maxLength ==> x > 0 && k < |ord| && ord[k] == x && NoRepeats(ord)
      modifies this`stackTop, stack
      ensures 0 <= x < maxLength ==> FreeStack(stack[..], stackTop, Without(ord, k), maxLength)
      ensures !(0 <= x < maxLength) ==> stackTop == old(stackTop) && stack[..] == old(stack[..])
    {
      if 0 <= x < maxLength {
        ReturnSlot(stack[..], stackTop, ord, maxLength, k);
        stackTop := stackTop + 1;
        stack[stackTop] := x;
      }
    }

    /** linklist_remove_node, on the k-th listed slot. */
    method UnlinkNode(slot: int, ghost k: nat)
      requires Links(order) && k < |order| && order[k] == slot
      requires 0 < records.Length && forall i :: 0 <= i < |order| ==> 0 < order[i] < records.Length
      modifies records, this`last
      ensures records[..] == CutSlot(old(records[..]), order, k)
      ensures last == if k + 1 == |order| then Before(order, k) else old(last)
    {
      hide Linked;
      Neighbours(records[..], first, last, order, k);
      ghost var rs := records[..];
      var next, prev := records[slot].next, records[slot].last;
      if next > 0 {
        records[prev] := records[prev].(next := next);
        records[next] := records[next].(last := prev);
        assert records[..] == SetLast(SetNext(rs, prev, next), next, prev);
      } else {
        last := prev;
        records[prev] := records[prev].(next := -1);
        assert records[..] == SetNext(rs, prev, -1);
      }
    }

    /** The hash part of dropping the k-th slot: reset_hash_node on the slot's own label. */
    method Unindex(name: string, ghost k: nat)
      requires Slots(order) && Indexed(order) && AllLabelled(records[..], keys, order)
      requires NoRepeats(order) && k < |order| && order[k] in keys && keys[order[k]] == name
      modifies table, table.Repr, this`keys, this`index
      ensures keys == old(keys) - {order[k]} && Indexed(Without(order, k)) && table.Repr == old(table.Repr)
    {
      hide Linked, FreeStack, Partition, H.Refines, H.Linked;
      ComparatorDecides(records[..], stack[..], stackTop, keys, order, maxLength);
      var compare := Comparator(records[..]);
      H.LookupAgrees(table.buckets, table.hash, keys, index, compare, name);
      ghost var buckets := table.buckets;
      var removed, at := table.Reset(compare, name);
      UnindexSlot(buckets, table.hash, keys, index, order, k, compare, at);
      keys, index := keys - {order[k]}, index - {name};
    }

    /** What pop_back and remove_record do to a slot already cut from the list: take it out of the hash
        index, subtract its size, release its data, clear its valid flag and return it to the free stack.
        The index is updated while the slot is still valid, as the comparator demands. */
    method Forget(slot: int, ghost k: nat)
      requires k < |order| && order[k] == slot && NoRepeats(order) && Booked()
      requires Links(Without(order, k)) && Slots(order) && Indexed(order) && AllLabelled(records[..], keys, order)
      modifies this, records, stack, table, table.Repr
      ensures Valid() && order == Without(old(order), k) && keys == old(keys) - {slot} && table.Repr == old(table.Repr)
      ensures 0 <= slot < records.Length && records[..] == Cleared(old(records[..]), slot)
      ensures released == old(released) + old(records[slot].size)
    {
      hide FreeStack, Ends, Flags, AllLabelled, IndexOf, H.Table.Valid, B.Used, B.Wrap;
      ClearSlot(records[..], first, last, keys, order, maxLength, k);
      Unindex(records[slot].data[0].name, k);
      B.UsedAfter(released, records[slot].size);
      usedSize, released := B.Wrap(usedSize - records[slot].size), released + records[slot].size;
      records[slot] := records[slot].(data := [], size := 0, valid := false);
      length := length - 1;
      StackPush(slot, order, k);
      order := Without(order, k);
    }

    /** Make ready to forget the k-th slot: the facts about cutting it out, before the links are written. */
    lemma BeforeCut(k: nat)
      requires Valid() && k < |order|
      ensures NoRepeats(order) && 0 < records.Length && (forall i :: 0 <= i < |order| ==> 0 < order[i] < records.Length)
      ensures var cut := CutSlot(records[..], order, k);
              && Viewable(records[..], keys, order) && SamePayload(records[..], cut)
              && AllLabelled(cut, keys, order) && Partition(cut, stack[..], stackTop, order, maxLength)
              && (k + 1 < |order| ==> Ends(cut, if k == 0 then order[1] else first, last, Without(order, k)))
              && (k + 1 == |order| ==> Ends(cut, first, Before(order, k), Without(order, k)))
      ensures records[order[k]].last == Before(order, k)
      ensures records[order[k]].next == if k + 1 < |order| then order[k + 1] else -1
      ensures order[k] == first <==> k == 0
      ensures order[k] == last <==> k == |order| - 1
    {
      hide FreeStack, Linked, IndexOf, H.Table.Valid;
      Neighbours(records[..], first, last, order, k);
      CutSlotKeepsList(records[..], first, last, order, k);
      AllLabelledSamePayload(records[..], CutSlot(records[..], order, k), keys, order);
    }

    /** One round of pop_back's loop on a non-empty list: drop the least recent entry. */
    method DropLast()
      requires Valid() && length > 0
      modifies this, records, stack, table, table.Repr
      ensures Valid() && Contents() == old(Contents()[..|Contents()| - 1]) && table.Repr == old(table.Repr)
      ensures released == old(released + Contents()[|Contents()| - 1].bytes)
    {
      hide FreeStack, Linked, Partition, IndexOf, AllLabelled, H.Table.Valid;
      ghost var k := |order| - 1;
      ghost var rs := records[..];
      BeforeCut(k);
      ViewAfterForget(rs, CutSlot(rs, order, k), keys, order, k);
      var slot := last;
      var nextToLast := records[slot].last;
      records[nextToLast] := records[nextToLast].(next := -1);
      assert records[..] == CutSlot(rs, order, k);
      last := nextToLast;
      Forget(slot, k);
      if length == 1 {
        first := last;
      } else if length == 0 {
        first, last := 0, 0;
      }
    }

    /** pop_back: drop up to LRU_POP_ITEM least recent entries. */
    method PopBack()
      requires Valid()
      modifies this, records, stack, table, table.Repr
      ensures Valid() && table.Repr == old(table.Repr)
      ensures Contents() == Evict(old(Contents())) && released == old(released) + B.Bytes(B.Victims(old(Contents())))
    {
      hide Ends, Partition, IndexOf, AllLabelled, View, H.Table.Valid, B.Bytes;
      ghost var s := Contents();
      B.NoBytes();
      assert s[|s|..] == [];
      var t := 0;
      while t < EVICTED
        invariant t <= EVICTED && Valid() && table.Repr == old(table.Repr)
        invariant var left := |s| - if |s| < t then |s| else t;
                  Contents() == s[..left] && released == old(released) + B.Bytes(s[left..])
      {
        if length > 0 {
          B.BytesFrom(s, length - 1);
          DropLast();
        }
        t := t + 1;
      }
    }

    /** The relinking of remove_record, by the record's place in the list. */
    method Relink(slot: int, ghost k: nat)
      requires Links(order) && k < |order| && order[k] == slot && InRange(records[..], order)
      modifies records, this`first, this`last
      ensures records[..] == CutSlot(old(records[..]), order, k)
      ensures last == if k + 1 == |order| then Before(order, k) else old(last)
      ensures first == if k == 0 && k + 1 < |order| then order[1] else old(first)
    {
      hide Linked;
      Neighbours(records[..], first, last, order, k);
      ghost var rs := records[..];
      if slot == last {
        var substitute := records[last].last;
        records[substitute] := records[substitute].(next := -1);
        last := substitute;
      } else if slot == first {
        var substitute := records[first].next;
        records[substitute] := records[substitute].(last := 0);
        records[0] := records[0].(next := substitute);
        first := substitute;
        assert records[..] == SetLast(SetNext(rs, 0, substitute), substitute, 0);
      } else {
        UnlinkNode(slot, k);
      }
    }

    /** remove_record: relink around the record and forget it. */
    method RemoveRecord(slot: int, ghost k: nat)
      requires Valid() && k < |order| && order[k] == slot
      modifies this, records, stack, table, table.Repr
      ensures Valid() && Contents() == Without(old(Contents()), k) && table.Repr == old(table.Repr)
      ensures released == old(released) + old(Contents())[k].bytes
    {
      hide FreeStack, Linked, Partition, IndexOf, AllLabelled, CutSlot, SamePayload, View, H.Table.Valid;
      ghost var rs := records[..];
      BeforeCut(k);
      ViewAfterForget(rs, CutSlot(rs, order, k), keys, order, k);
      Relink(slot, k);
      Forget(slot, k);
    }

    /** `get`: the slot found through the hash index, if any. */
    method Find(name: string) returns (slot: Option<int>, ghost k: nat)
      requires Valid()
      ensures slot.Some? <==> Cached(Contents(), name)
      ensures k == Position(Contents(), name)
      ensures slot == if k < |order| then Some(order[k]) else None
      ensures slot.Some? ==> 0 < slot.value < records.Length && records[slot.value].data == Contents()[k].records
      ensures slot.Some? ==> (slot.value == first <==> k == 0)
    {
      hide FreeStack, Linked, H.Linked;
      PathHasNoRepeats(records[..], order);
      ComparatorDecides(records[..], stack[..], stackTop, keys, order, maxLength);
      var compare := Comparator(records[..]);
      H.LookupAgrees(table.buckets, table.hash, keys, index, compare, name);
      IndexFindsEntry(records[..], table.buckets, table.hash, keys, index, order, name);
      k := Position(Contents(), name);
      var node, found, at := table.Get(compare, name);
      slot := if found then node.record else None;
    }

    /** The linking part of push_front: the slot becomes the first of the list. */
    method LinkInFront(slot: int, ghost ord: seq<int>)
      requires Links(ord) && length == |ord| + 1
      requires 0 < slot < records.Length && slot !in ord
      requires forall i :: 0 <= i < |ord| ==> 0 < ord[i] < records.Length
      modifies records, this`first, this`last
      ensures records[..] == FrontSlot(old(records[..]), ord, slot)
      ensures first == slot && last == if ord == [] then slot else old(last)
    {
      hide Linked;
      if length > 1 {
        records[slot] := records[slot].(next := first);
        records[slot] := records[slot].(last := 0);
        records[first] := records[first].(last := slot);
        records[0] := records[0].(next := slot);
        first := slot;
      } else {
        records[slot] := records[slot].(next := -1);
        records[slot] := records[slot].(last := 0);
        records[0] := records[0].(next := slot);
        first, last := slot, slot;
      }
    }

    /** The state that MoveToFront is about to write keeps every part of the invariant. */
    lemma BeforeMove(k: nat)
      requires Valid() && 0 < k < |order|
      ensures NoRepeats(order) && InRange(records[..], order) && order[k] !in Without(order, k)
      ensures var last' := if k + 1 == |order| then Before(order, k) else last;
              && Ends(CutSlot(records[..], order, k), first, last', Without(order, k))
              && Ends(Moved(records[..], order, k), order[k], last', [order[k]] + Without(order, k))
      ensures var rs', ord' := Moved(records[..], order, k), [order[k]] + Without(order, k);
              && Partition(rs', stack[..], stackTop, ord', maxLength)
              && AllLabelled(rs', keys, ord')
              && IndexOf(table.buckets, table.hash, keys, index, ord')
              && SamePayload(records[..], rs')
              && Viewable(rs', keys, ord') && View(rs', keys, ord') == [Contents()[k]] + Without(Contents(), k)
    {
      hide FreeStack, Linked, Partition, AllLabelled, IndexOf, CutSlot, Moved, FrontSlot, SamePayload, View, H.Table.Valid;
      Neighbours(records[..], first, last, order, k);
      MovedKeepsList(records[..], first, last, order, k);
      var rs' := Moved(records[..], order, k);
      AllLabelledSamePayload(records[..], rs', keys, order);
      ViewAfterMove(records[..], rs', keys, order, k);
      PartitionAfterMove(records[..], rs', stack[..], stackTop, order, maxLength, k);
      LabelledAfterMove(records[..], rs', keys, order, k);
      IndexAfterMove(table.buckets, table.hash, keys, index, order, k);
    }

    /** A hit that is not already first: cut the slot out and link it in front. */
    method MoveToFront(slot: int, ghost k: nat)
      requires Valid() && 0 < k < |order| && order[k] == slot
      modifies records, this`first, this`last, this`order
      ensures Valid() && Contents() == [old(Contents())[k]] + Without(old(Contents()), k)
      ensures SamePayload(old(records[..]), records[..]) && order[0] == slot
    {
      hide FreeStack, Ends, Partition, AllLabelled, IndexOf, SamePayload, CutSlot, FrontSlot, View, H.Table.Valid;
      BeforeMove(k);
      ghost var ord' := Without(order, k);
      UnlinkNode(slot, k);
      LinkInFront(slot, ord');
      order := [slot] + ord';
    }

    /** _get_cache_A_record. */
    method Get(name: string, now: int) returns (r: Option<seq<RecordData>>)
      requires Valid()
      modifies this, records, stack, table, table.Repr
      ensures Valid() && table.Repr == old(table.Repr)
      ensures (Contents(), r) == LruSpec.Get(old(Contents()), name, now)
      ensures var s, k := old(Contents()), Position(old(Contents()), name);
              && (r.None? <==> k == |s| || (s[k].records != [] && s[k].records[0].ttl < now && s[k].records[0].ttl != 1099511627776))
              && (r.None? ==> Contents() == if k < |s| then Without(s, k) else s)
              && (r.Some? ==> r.value == s[k].records && Contents() == [s[k]] + Without(s, k))
      ensures released == old(released) + B.ReleasedByLookup(old(Contents()), name, now)
    {
      hide FreeStack, Linked, Partition, AllLabelled, IndexOf, H.Table.Valid;
      var slot, k := Find(name);
      if slot.None? {
        return None;
      }
      r := Some(records[slot.value].data);
      if Expired(records[slot.value].data, now) {
        RemoveRecord(slot.value, k);
        return None;
      }
      if slot.value != first {
        MoveToFront(slot.value, k);
      } else {
        assert [Contents()[0]] + Without(Contents(), 0) == Contents();
      }
    }

    /** The hash table has just got a node with a NULL record for an unknown name. */
    ghost predicate Pending(name: string, node: H.Node<int>, at: nat, buckets: H.Buckets<int>, compare: (int, string) --> bool)
      reads `keys, `index, `order, table, table.Repr
    {
      && table.Valid() && |buckets| == table.size
      && IndexOf(buckets, table.hash, keys, index, order) && H.Decides(compare, keys)
      && var p := table.Pos(name);
         && at == |buckets[p]| && H.Comparable(buckets[p], compare, name) && H.FirstMatch(buckets[p], compare, name, at)
         && table.buckets == buckets[p := buckets[p] + [None]]
         && node == table.chains[p][at + 1]
    }

    /** The writes of push_front for a new label: point the new hash node at the free slot, mark the slot
        valid and link it in front. */
    method Enlist(slot: int, node: H.Node<int>, ghost pos: nat, ghost at: nat)
      requires length == |order| && 0 < slot < records.Length && slot !in order && InRange(records[..], order)
      requires Links(order) && Ends(Marked(records[..], slot), first, last, order)
      requires table.Valid() && pos < table.size && at < |table.buckets[pos]| && node == table.chains[pos][at + 1]
      modifies records, this`length, this`first, this`last, table`buckets, node`record
      ensures records[..] == FrontSlot(Marked(old(records[..]), slot), order, slot)
      ensures first == slot && last == (if order == [] then slot else old(last)) && length == old(length) + 1
      ensures table.Valid() && table.buckets == old(table.buckets)[pos := old(table.buckets)[pos][at := Some(slot)]]
    {
      hide Ends, FrontSlot, H.Table.Valid;
      table.Assign(node, slot, pos, at);
      records[slot] := records[slot].(data := [], size := 0, valid := true);
      length := length + 1;
      assert records[..] == Marked(old(records[..]), slot);
      LinkInFront(slot, order);
    }

    /** The branch of push_front for a new label: take a free slot, point the new hash node at it, mark it
        valid and link it in front.  Without a free slot the process exits. */
    method Allocate(name: string, node: H.Node<int>, ghost at: nat, ghost buckets: H.Buckets<int>, ghost compare: (int, string) --> bool) returns (slot: int)
      requires Links(order) && Slots(order) && AllLabelled(records[..], keys, order) && Booked()
      requires Pending(name, node, at, buckets, compare)
      modifies records, this`stackTop, this`length, this`first, this`last, this`order, this`keys, this`index, table`buckets, node`record
      ensures slot == -1 <==> old(length) >= maxLength - 1
      ensures Viewable(old(records[..]), old(keys), old(order))
      ensures slot != -1 ==> Reserved(slot, name) && Contents()[1..] == View(old(records[..]), old(keys), old(order))
    {
      hide FreeStack, Ends, Flags, AllLabelled, FrontSlot, View, IndexOf, H.Refines, H.Linked, H.Table.Valid, Labelled, Marked, B.Used;
      AllLabelledSamePayload(records[..], records[..], keys, order);
      slot := StackPop(order);
      if slot < 0 {
        return -1;
      }
      ghost var ord, pos := order, table.Pos(name);
      AllocateSlot(records[..], first, last, keys, ord, maxLength, slot, name);
      IndexAfterInsert(buckets, table.hash, keys, index, ord, name, slot, compare, at);
      ghost var chain := buckets[pos];
      assert (chain + [None])[at := Some(slot)] == chain + [Some(slot)];
      Enlist(slot, node, pos, at);
      assert table.buckets == buckets[pos := buckets[pos] + [Some(slot)]];
      keys, index, order := keys[slot := name], index[name := slot], [slot] + ord;
      ViewTail(records[..], keys, slot, ord);
    }

    predicate IsFull()
      reads `length
    {
      length >= maxLength - 1
    }

    /** A slot is reserved for the name at the front of the list; every other slot has its data. */
    ghost predicate Reserved(slot: int, name: string)
      reads this, records, stack, table, table.Repr
    {
      && Shape()
      && order != [] && order[0] == slot && slot in keys && keys[slot] == name
      && 0 <= slot < records.Length && (records[slot].size > 0 || records[slot].data == [])
      && AllLabelled(records[..], keys, order[1..])
    }

    /** The set_hashnode call of push_front: find the name's node, or add one with a NULL record. */
    method Register(name: string) returns (node: H.Node<int>, found: bool, ghost at: nat, ghost compare: (int, string) --> bool)
      requires Valid()
      modifies table, table.Repr
      ensures fresh(table.Repr - old(table.Repr)) && node in table.Repr
      ensures found <==> Cached(old(Contents()), name)
      ensures found ==> Valid() && Contents() == old(Contents()) && node.record == Some(order[Position(Contents(), name)])
      ensures found ==> (order[Position(Contents(), name)] == first <==> Position(Contents(), name) == 0)
      ensures !found ==> Pending(name, node, at, old(table.buckets), compare)
    {
      hide FreeStack, Linked, Partition, AllLabelled, H.Linked, H.Refines;
      PathHasNoRepeats(records[..], order);
      ComparatorDecides(records[..], stack[..], stackTop, keys, order, maxLength);
      var comparator := Comparator(records[..]);
      compare := comparator;
      H.LookupAgrees(table.buckets, table.hash, keys, index, compare, name);
      IndexFindsEntry(records[..], table.buckets, table.hash, keys, index, order, name);
      ghost var buckets := table.buckets;
      node, found, at := table.Set(comparator, name, None);
      if found {
        assert table.buckets == buckets;
      }
    }

    /** Both of push_front's ways of making room: one pop_back in a full cache, then as many as the byte budget
        asks for.  With nothing left to drop the second loop never ends. */
    method MakeSpace() returns (hung: bool)
      requires Valid()
      modifies this, records, stack, table, table.Repr
      ensures Valid() && table.Repr == old(table.Repr)
      ensures var room := B.RoomFor(old(Contents()), old(released), maxLength, maxSize);
              (hung <==> room.Failed?) && (!hung ==> room == B.Returned(Contents(), released))
    {
      hide Ends, Partition, AllLabelled, IndexOf, View, H.Table.Valid, B.Bytes, B.OverBudget, Booked, Evict, B.Victims;
      if IsFull() {
        PopBack();
      }
      ghost var room := B.Drain(Contents(), released, maxSize);
      while B.OverBudget(usedSize, maxSize)
        invariant Valid() && table.Repr == old(table.Repr)
        invariant B.Drain(Contents(), released, maxSize) == room
        decreases length
      {
        UsedIsBooked();
        if length == 0 {
          return true;
        }
        EvictShrinks(Contents());
        PopBack();
      }
      UsedIsBooked();
      return false;
    }

    /** The branch of push_front for a known label. */
    method BringForward(slot: int, name: string, ghost k: nat)
      requires Valid() && k == Position(Contents(), name) && k < |order| && order[k] == slot && (slot == first <==> k == 0)
      modifies records, this`first, this`last, this`order
      ensures Reserved(slot, name) && Contents()[1..] == Remove(old(Contents()), name)
    {
      hide Ends, Partition, IndexOf, H.Table.Valid;
      if slot != first {
        MoveToFront(slot, k);
      }
      assert Contents()[0].name == name;
      forall i | 0 <= i < |order[1..]| ensures Labelled(records[..], keys, order[1..][i]) {
        assert Labelled(records[..], keys, order[i + 1]);
      }
    }

    /** The rest of push_front: find or allocate the name's slot and bring it to the front. */
    method Reserve(name: string) returns (slot: int)
      requires Valid()
      modifies this, records, stack, table, table.Repr
      ensures fresh(table.Repr - old(table.Repr)) && released == old(released)
      ensures slot == -1 <==> old(length) >= maxLength - 1 && !Cached(old(Contents()), name)
      ensures slot != -1 ==> Reserved(slot, name) && Contents()[1..] == Remove(old(Contents()), name)
    {
      hide Ends, Partition, AllLabelled, IndexOf, View, H.Table.Valid;
      ghost var k := Position(Contents(), name);
      ghost var buckets := table.buckets;
      var node, found, at, compare := Register(name);
      if found {
        slot := node.record.value;
        BringForward(slot, name, k);
      } else {
        slot := Allocate(name, node, at, buckets, compare);
      }
    }

    /** push_front. */
    method PushFront(name: string) returns (slot: int, failure: Option<B.Failure>)
      requires Valid()
      modifies this, records, stack, table, table.Repr
      ensures fresh(table.Repr - old(table.Repr)) && (slot == -1 <==> failure.Some?)
      ensures var room := B.RoomFor(old(Contents()), old(released), maxLength, maxSize);
              && failure == B.Refusal(room, maxLength, name)
              && (slot != -1 ==> Reserved(slot, name) && released == room.released && Contents()[1..] == Remove(room.lru, name))
    {
      hide Ends, Partition, AllLabelled, IndexOf, View, H.Table.Valid, B.RoomFor;
      var hung := MakeSpace();
      if hung {
        return -1, Some(B.Hang);
      }
      slot := Reserve(name);
      failure := if slot == -1 then Some(B.NoSpace) else None;
    }

    /** realse_A_record, for the reserved slot: drop the old data if there is any.  Its size is not subtracted. */
    method Release(slot: int)
      requires 0 <= slot < records.Length && (records[slot].size > 0 || records[slot].data == [])
      modifies records
      ensures records[..] == old(records[..])[slot := old(records[slot]).(data := [], size := 0)]
    {
      if records[slot].size > 0 {
        records[slot] := records[slot].(data := [], size := 0);
      }
    }

    /** add_A_multi_record: copy the records that have not expired, in order. */
    method AddMulti(slot: int, data: seq<RecordData>, now: int)
      requires 0 <= slot < records.Length && records[slot].data == [] && records[slot].size == 0
      modifies records
      ensures var live := Live(data, now);
              records[..] == old(records[..])[slot := old(records[slot]).(data := live, size := |live| * RECORD_BYTES)]
      ensures LosesNoUnexpired(data, records[slot].data, now) && records[slot].size == 64 * |records[slot].data|
    {
      assert data[..0] == [] && Live([], now) == [];
      ghost var before, live := records[..], [];
      hide Live, LosesNoUnexpired;
      for i := 0 to |data|
        invariant live == Live(data[..i], now)
        invariant records[..] == before[slot := before[slot].(data := live, size := |live| * RECORD_BYTES)]
      {
        LiveNext(data, i, now);
        if now <= data[i].ttl {
          records[slot] := records[slot].(data := records[slot].data + [data[i]], size := records[slot].size + RECORD_BYTES);
          live := live + [data[i]];
        }
      }
      assert data[..|data|] == data && records[slot].data == live;
      NoUnexpiredLost(data, now);
    }

    /** add_A_record: copy the one record and its label unless it has expired, and return the bytes booked. */
    method Add(slot: int, data: RecordData, now: int) returns (size: nat)
      requires 0 <= slot < records.Length && records[slot].data == [] && records[slot].size == 0
      modifies records
      ensures var e := EntryOf(StoreOne(data.name, data, now));
              size == e.bytes && size == (if data.ttl >= now then 64 + |data.name| + 1 else 0) && records[..] == old(records[..])[slot := old(records[slot]).(data := e.records, size := e.bytes)]
    {
      assert [data][..0] == [] && Live([data], now) == if data.ttl >= now then [data] else [];
      assert records[slot].(data := [], size := 0) == records[slot];
      if data.ttl < now {
        return 0;
      }
      var len := |data.name| + 1;
      records[slot] := records[slot].(data := [data], size := RECORD_BYTES + len);
      return records[slot].size;
    }

    /** Writing data into a reserved slot makes the cache valid again exactly when there is data. */
    lemma BeforeFill(slot: int, name: string, e: Entry)
      requires Reserved(slot, name) && e.name == name && forall j :: 0 <= j < |e.records| ==> e.records[j].name == name
      requires e.records != [] ==> e.bytes > 0
      ensures 0 <= slot < records.Length
      ensures var rs' := records[..][slot := records[slot].(data := e.records, size := e.bytes)];
              && Ends(rs', first, last, order) && Partition(rs', stack[..], stackTop, order, maxLength)
              && (AllLabelled(rs', keys, order) <==> e.records != [])
              && Viewable(rs', keys, order) && View(rs', keys, order) == [e] + Contents()[1..]
    {
      hide Linked, FreeStack, H.Table.Valid;
      var rs' := records[..][slot := records[slot].(data := e.records, size := e.bytes)];
      PathHasNoRepeats(records[..], order);
      FillFront(records[..], keys, order, e.records, e.bytes);
      PayloadChange(records[..], rs', [0] + order);
    }

    /** The end of a store: `record->size` still books old data, which is released before the new is added. */
    method FillMulti(slot: int, name: string, data: seq<RecordData>, now: int)
      requires Reserved(slot, name) && forall j :: 0 <= j < |data| ==> data[j].name == name
      modifies records
      ensures Shape() && (Valid() <==> Live(data, now) != [])
      ensures Contents() == [EntryOf(Store(name, data, now))] + old(Contents())[1..]
    {
      hide Ends, Partition, AllLabelled, IndexOf, View, H.Table.Valid, B.Used;
      ghost var e := EntryOf(Store(name, data, now));
      assert e.name == name && e.records == Live(data, now) && e.bytes == |Live(data, now)| * RECORD_BYTES;
      hide EntryOf, Live, Reserved;
      BeforeFill(slot, name, e);
      ghost var rs := records[..];
      Release(slot);
      AddMulti(slot, data, now);
      assert records[..] == rs[slot := rs[slot].(data := e.records, size := e.bytes)];
    }

    method FillOne(slot: int, name: string, data: RecordData, now: int) returns (size: nat)
      requires Reserved(slot, name) && data.name == name
      modifies records
      ensures Shape() && (Valid() <==> Live([data], now) != []) && size == EntryOf(StoreOne(name, data, now)).bytes
      ensures Contents() == [EntryOf(StoreOne(name, data, now))] + old(Contents())[1..]
    {
      hide Ends, Partition, AllLabelled, IndexOf, View, H.Table.Valid, B.Used;
      ghost var e := EntryOf(StoreOne(name, data, now));
      BeforeFill(slot, name, e);
      ghost var rs := records[..];
      Release(slot);
      size := Add(slot, data, now);
      assert records[..] == rs[slot := rs[slot].(data := e.records, size := e.bytes)];
    }

    /** _set_cache_A_multi_record, for any records that carry the key.  When it returns, the list, the free stack
        and the index agree, and the cache is valid again exactly when some record has not expired. */
    method SetMulti(name: string, data: seq<RecordData>, now: int) returns (failure: Option<B.Failure>)
      requires Valid() && forall j :: 0 <= j < |data| ==> data[j].name == name
      modifies this, records, stack, table, table.Repr
      ensures fresh(table.Repr - old(table.Repr))
      ensures var end := B.StoreStep(old(Contents()), old(released), maxLength, maxSize, EntryOf(Store(name, data, now)));
              && failure == B.FailureOf(end)
              && (failure.None? ==> Shape() && (Valid() <==> Live(data, now) != []) && end == B.Returned(Contents(), released))
    {
      hide Ends, Partition, AllLabelled, IndexOf, View, H.Table.Valid, B.RoomFor, B.Used;
      var slot;
      slot, failure := PushFront(name);
      if failure.None? {
        FillMulti(slot, name, data, now);
      }
    }

    /** _set_cache_A_record: the same for a single record; the result is the bytes booked, 0 when it has expired. */
    method SetOne(name: string, data: RecordData, now: int) returns (size: nat, failure: Option<B.Failure>)
      requires Valid() && data.name == name
      modifies this, records, stack, table, table.Repr
      ensures fresh(table.Repr - old(table.Repr))
      ensures var end := B.StoreStep(old(Contents()), old(released), maxLength, maxSize, EntryOf(StoreOne(name, data, now)));
              && failure == B.FailureOf(end)
              && (failure.None? ==> Shape() && (Valid() <==> size > 0) && end == B.Returned(Contents(), released))
      ensures failure.None? ==> size == EntryOf(StoreOne(name, data, now)).bytes == if data.ttl >= now then 64 + |data.name| + 1 else 0
    {
      hide Ends, Partition, AllLabelled, IndexOf, View, H.Table.Valid, B.RoomFor, B.Used;
      var slot;
      size := 0;
      slot, failure := PushFront(name);
      if failure.None? {
        size := FillOne(slot, name, data, now);
        assert [data][..0] == [] && Live([data], now) == if data.ttl >= now then [data] else [];
      }
    }

    /** One of test_normal's loops: up to `length` links from a slot, stopping at -1. */
    method Walk(start: int, forward: bool) returns (end: int, count: nat)
      requires Bounded(records[..]) && 0 <= start < records.Length
      ensures 0 <= end < records.Length
      ensures var r := Visited(records[..], start, length, forward);
              count + 1 == |r| && end == r[count]
    {
      end, count := start, 0;
      while count < length && (if forward then records[end].next else records[end].last) >= 0
        invariant 0 <= end < records.Length && count <= length
        invariant |Visited(records[..], start, count, forward)| == count + 1
        invariant end == Visited(records[..], start, count, forward)[count]
      {
        end := if forward then records[end].next else records[end].last;
        count := count + 1;
      }
      StoppedEarly(records[..], start, count, length, forward);
    }

    /** test_normal: walk forward and back, and report whether the list is in order. */
    method TestNormal() returns (ok: bool)
      requires Bounded(records[..])
      ensures ok <==> Normal(records[..], first, last, length)
    {
      var end, count := Walk(0, true);
      if count != length || records[end].next > 0 {
        return false;
      }
      var back;
      back, count := Walk(end, false);
      if count != length {
        return false;
      }
      return !(length > 1 && (first != records[0].next || last != end));
    }

    /** Every valid cache passes the repository's own test. */
    lemma ValidIsNormal()
      requires Shape()
      ensures Bounded(records[..]) && Normal(records[..], first, last, length)
    {
      LinkedIsNormal(records[..], [0] + order, first, last, length);
    }

    /** List slots and stack[1..stackTop] partition 1..maxLength-1, so a cache that is not full has a free slot
        to hand out and a full one has something to drop. */
    lemma SlotConservation(s: int)
      requires Shape() && 1 <= s < maxLength
      ensures s in order <==> !exists i :: 1 <= i <= stackTop && stack[i] == s
      ensures stackTop + length == maxLength - 1 && stack[0] == maxLength
      ensures !IsFull() <==> stackTop > 0
      ensures forall i, j :: 1 <= i < j <= stackTop ==> stack[i] != stack[j]
    {
      hide Ends, IndexOf, H.Table.Valid;
      var st := stack[..];
      assert IsFree(st, stackTop, s) ==> exists i :: 1 <= i <= stackTop && st[i] == s;
    }

    /** The chain positions that hold a slot. */
    ghost predicate NodeOf(b: int, i: int, s: int)
      reads table
    {
      0 <= b < |table.buckets| && 0 <= i < |table.buckets[b]| && table.buckets[b][i] == Some(s)
    }

    /** Every chain node refers to a valid listed slot, in the bucket of that slot's own label. */
    lemma EveryNodeIsListed(b: nat, i: nat) returns (s: int)
      requires Valid() && b < |table.buckets| && i < |table.buckets[b]|
      ensures s in order && 1 <= s < maxLength && records[s].valid && NodeOf(b, i, s)
      ensures records[s].data != [] && b == table.hash(records[s].data[0].name) % table.size
    {
      hide Ends, FreeStack, H.Linked;
      assert H.Holds(table.buckets, table.hash, keys, index, b, i);
      s := table.buckets[b][i].value;
      var k :| 0 <= k < |order| && order[k] == s;
      assert Labelled(records[..], keys, order[k]);
    }

    /** Every listed slot has exactly one chain node. */
    lemma EverySlotHasOneNode(s: int) returns (b: nat, i: nat)
      requires Valid() && s in order
      ensures NodeOf(b, i, s) && forall b', i' :: NodeOf(b', i', s) ==> b' == b && i' == i
    {
      hide Ends, Partition, AllLabelled, H.Linked;
      b := table.hash(keys[s]) % table.size;
      assert Some(index[keys[s]]) in table.buckets[b];
      i :| 0 <= i < |table.buckets[b]| && table.buckets[b][i] == Some(s);
      forall b', i' | NodeOf(b', i', s) ensures b' == b && i' == i {
        assert H.Holds(table.buckets, table.hash, keys, index, b', i');
      }
    }

    /** One operation of a run. */
    method Perform(op: Op) returns (answer: Option<seq<RecordData>>, failure: Option<B.Failure>)
      requires Valid() && Legal(op)
      modifies this, records, stack, table, table.Repr
      ensures fresh(table.Repr - old(table.Repr))
      ensures var end := B.Step(old(Contents()), old(released), maxLength, maxSize, op);
              && failure == B.FailureOf(end)
              && (failure.None? ==> Valid() && end == B.Returned(Contents(), released) && answer == Answer(old(Contents()), op))
    {
      hide Ends, Partition, AllLabelled, IndexOf, View, H.Table.Valid, B.StoreStep;
      match op
      case Lookup(name, now) =>
        answer := Get(name, now);
        failure := None;
      case Store(name, data, now) =>
        failure := SetMulti(name, data, now);
        answer := None;
      case StoreOne(name, record, now) =>
        var size;
        size, failure := SetOne(name, record, now);
        answer := None;
        assert [record][0] == record;
    }

    /** Any run of lookups and stores, whatever the clock: each call that returns answers as the abstract run
        does, and the run ends, returns or hangs where the abstract run does. */
    method Run(ops: seq<Op>) returns (answers: seq<Option<seq<RecordData>>>, failure: Option<B.Failure>)
      requires Valid() && forall i :: 0 <= i < |ops| ==> Legal(ops[i])
      modifies this, records, stack, table, table.Repr
      ensures fresh(table.Repr - old(table.Repr))
      ensures var end := B.Run(old(Contents()), old(released), maxLength, maxSize, ops);
              failure == B.FailureOf(end) && (end.Returned? ==> Valid() && end == B.Returned(Contents(), released))
      ensures answers == B.Replies(old(Contents()), old(released), maxLength, maxSize, ops)
    {
      hide Ends, Partition, AllLabelled, IndexOf, View, Legal, Apply, Answer, H.Table.Valid, B.Step;
      answers := [];
      ghost var s, r0 := Contents(), released;
      assert ops[..0] == [];
      for i := 0 to |ops|
        invariant Valid() && fresh(table.Repr - old(table.Repr))
        invariant B.Run(s, r0, maxLength, maxSize, ops[..i]) == B.Returned(Contents(), released)
        invariant answers == B.Replies(s, r0, maxLength, maxSize, ops[..i])
      {
        assert ops[..i + 1][..i] == ops[..i];
        var answer;
        answer, failure := Perform(ops[i]);
        if failure.Some? {
          B.StaysFailed(B.Intended(maxLength, maxSize), s, r0, ops, i + 1);
          return;
        }
        answers := answers + [answer];
      }
      assert ops[..|ops|] == ops;
      failure := None;
    }
  }
}
