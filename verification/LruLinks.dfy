/** The doubly linked list that src/cache.c threads through its record array, as facts about array contents.
    A path is the sentinel slot 0 followed by the list's slots from most to least recent. */
module LruLinks {
  import opened LruSpec
  import opened Sequences

  /** One struct record; `data` is the chain of record_data nodes, empty once released, `size` what the
      cache books for it. */
  datatype Slot = Slot(data: seq<RecordData>, size: nat, next: int, last: int, valid: bool)

  function Successor(p: seq<int>, i: nat): int
    requires i < |p|
  {
    if i + 1 < |p| then p[i + 1] else -1
  }

  function Predecessor(p: seq<int>, i: nat): int
    requires i < |p|
  {
    if i > 0 then p[i - 1] else -1
  }

  ghost predicate NoRepeats(p: seq<int>) {
    forall i, j :: 0 <= i < j < |p| ==> p[i] != p[j]
  }

  lemma WithoutHasNoRepeats(p: seq<int>, k: nat)
    requires k < |p| && NoRepeats(p)
    ensures NoRepeats(Without(p, k))
  {
  }

  lemma InFrontHasNoRepeats(p: seq<int>, s: int)
    requires p != [] && NoRepeats(p) && s !in p
    ensures NoRepeats(InFront(p, s))
  {
  }

  /** Following `next` from slot 0 visits exactly the path and ends at -1; the `last` links are its reverse. */
  ghost predicate Linked(rs: seq<Slot>, p: seq<int>) {
    && p != [] && p[0] == 0
    && (forall i :: 0 <= i < |p| ==> 0 <= p[i] < |rs|)
    && NoRepeats(p)
    && (forall i {:trigger rs[p[i]]} :: 0 <= i < |p| ==> rs[p[i]].next == Successor(p, i))
    && (forall i {:trigger rs[p[i]]} :: 0 <= i < |p| ==> rs[p[i]].last == Predecessor(p, i))
  }

  /** All links stay inside the array. */
  ghost predicate Bounded(rs: seq<Slot>) {
    rs != [] && forall i :: 0 <= i < |rs| ==> -1 <= rs[i].next < |rs| && -1 <= rs[i].last < |rs|
  }

  /** Only links differ. */
  ghost predicate SamePayload(rs: seq<Slot>, rs': seq<Slot>) {
    && |rs'| == |rs|
    && forall i :: 0 <= i < |rs| ==> rs'[i].data == rs[i].data && rs'[i].size == rs[i].size && rs'[i].valid == rs[i].valid
  }

  /** The same links, whatever the payload. */
  ghost predicate SameLinks(rs: seq<Slot>, rs': seq<Slot>) {
    && |rs'| == |rs|
    && forall i :: 0 <= i < |rs| ==> rs'[i].next == rs[i].next && rs'[i].last == rs[i].last
  }

  function SetNext(rs: seq<Slot>, i: nat, v: int): seq<Slot>
    requires i < |rs|
  {
    rs[i := rs[i].(next := v)]
  }

  function SetLast(rs: seq<Slot>, i: nat, v: int): seq<Slot>
    requires i < |rs|
  {
    rs[i := rs[i].(last := v)]
  }

  /** The path with a slot put in front, right after the sentinel. */
  function InFront(p: seq<int>, s: int): (r: seq<int>)
    requires p != []
    ensures |r| == |p| + 1 && r[0] == p[0] && r[1] == s
    ensures forall i :: 2 <= i < |r| ==> r[i] == p[i - 1]
  {
    [p[0], s] + p[1..]
  }

  lemma CutMiddle(rs: seq<Slot>, p: seq<int>, k: nat, rs': seq<Slot>)
    requires Linked(rs, p) && 0 < k && k + 1 < |p| && |rs'| == |rs|
    requires forall i {:trigger rs'[p[i]]} :: 0 <= i < |p| ==> rs'[p[i]].next == if i == k - 1 then p[k + 1] else rs[p[i]].next
    requires forall i {:trigger rs'[p[i]]} :: 0 <= i < |p| ==> rs'[p[i]].last == if i == k + 1 then p[k - 1] else rs[p[i]].last
    ensures Linked(rs', Without(p, k))
  {
    hide NoRepeats;
    WithoutHasNoRepeats(p, k);
    var p' := Without(p, k);
    forall i | 0 <= i < |p'| ensures rs'[p'[i]].next == Successor(p', i) {
      var j := if i < k then i else i + 1;
      assert p'[i] == p[j] && rs[p[j]].next == Successor(p, j);
    }
    forall i | 0 <= i < |p'| ensures rs'[p'[i]].last == Predecessor(p', i) {
      var j := if i < k then i else i + 1;
      assert p'[i] == p[j] && rs[p[j]].last == Predecessor(p, j);
    }
  }

  /** The two writes that cut a slot out of the middle of the list. */
  lemma CutMiddleWrites(rs: seq<Slot>, p: seq<int>, k: nat)
    requires Linked(rs, p) && 0 < k && k + 1 < |p|
    ensures var rs' := SetLast(SetNext(rs, p[k - 1], p[k + 1]), p[k + 1], p[k - 1]);
            Linked(rs', Without(p, k)) && SamePayload(rs, rs')
  {
    var rs' := SetLast(SetNext(rs, p[k - 1], p[k + 1]), p[k + 1], p[k - 1]);
    CutMiddle(rs, p, k, rs');
  }

  lemma CutEndAt(rs: seq<Slot>, p: seq<int>, i: nat)
    requires Linked(rs, p) && |p| > 1 && i < |p| - 1
    ensures Successor(Without(p, |p| - 1), i) == if i == |p| - 2 then -1 else rs[p[i]].next
    ensures Predecessor(Without(p, |p| - 1), i) == rs[p[i]].last
  {
    hide NoRepeats;
    assert rs[p[i]].next == Successor(p, i);
  }

  lemma CutEnd(rs: seq<Slot>, p: seq<int>, rs': seq<Slot>)
    requires Linked(rs, p) && |p| > 1 && |rs'| == |rs|
    requires forall i {:trigger rs'[p[i]]} :: 0 <= i < |p| ==> rs'[p[i]].next == if i == |p| - 2 then -1 else rs[p[i]].next
    requires forall i {:trigger rs'[p[i]]} :: 0 <= i < |p| ==> rs'[p[i]].last == rs[p[i]].last
    ensures Linked(rs', Without(p, |p| - 1))
  {
    hide NoRepeats, Successor, Predecessor;
    WithoutHasNoRepeats(p, |p| - 1);
    var p' := Without(p, |p| - 1);
    forall i | 0 <= i < |p'| ensures rs'[p'[i]].next == Successor(p', i) && rs'[p'[i]].last == Predecessor(p', i) {
      CutEndAt(rs, p, i);
      assert p'[i] == p[i];
    }
  }

  /** The write that cuts the last slot off the list. */
  lemma CutEndWrite(rs: seq<Slot>, p: seq<int>)
    requires Linked(rs, p) && |p| > 1
    ensures var rs' := SetNext(rs, p[|p| - 2], -1);
            Linked(rs', Without(p, |p| - 1)) && SamePayload(rs, rs')
  {
    CutEnd(rs, p, SetNext(rs, p[|p| - 2], -1));
  }

  lemma LinkFront(rs: seq<Slot>, p: seq<int>, s: nat, rs': seq<Slot>)
    requires Linked(rs, p) && s < |rs| && s !in p && |rs'| == |rs|
    requires rs'[s].next == Successor(p, 0) && rs'[s].last == 0
    requires rs'[0].next == s && rs'[0].last == rs[0].last
    requires |p| > 1 ==> rs'[p[1]].last == s && rs'[p[1]].next == rs[p[1]].next
    requires forall i {:trigger rs'[p[i]]} :: 2 <= i < |p| ==> rs'[p[i]] == rs[p[i]]
    ensures Linked(rs', InFront(p, s))
  {
    hide NoRepeats;
    InFrontHasNoRepeats(p, s);
    var p' := InFront(p, s);
    forall i | 0 <= i < |p'|
      ensures rs'[p'[i]].next == Successor(p', i) && rs'[p'[i]].last == Predecessor(p', i)
    {
      if i > 1 {
        assert p'[i] == p[i - 1] && rs[p[i - 1]].next == Successor(p, i - 1) && rs[p[i - 1]].last == Predecessor(p, i - 1);
      }
    }
  }

  lemma PayloadChange(rs: seq<Slot>, rs': seq<Slot>, p: seq<int>)
    requires Linked(rs, p) && SameLinks(rs, rs')
    ensures Linked(rs', p)
  {
  }

  // ----- the walks of test_normal -----

  /** The slots visited from `start` in at most n steps along `next` (forward) or `last`, stopping at -1. */
  ghost function Visited(rs: seq<Slot>, start: nat, n: nat, forward: bool): (r: seq<int>)
    requires Bounded(rs) && start < |rs|
    ensures 1 <= |r| <= n + 1 && forall i :: 0 <= i < |r| ==> 0 <= r[i] < |rs|
  {
    if n == 0 then [start]
    else
      var r := Visited(rs, start, n - 1, forward);
      var to := if forward then rs[r[|r| - 1]].next else rs[r[|r| - 1]].last;
      if |r| < n || to < 0 then r else r + [to]
  }

  /** A walk that meets -1 after `count` steps goes no further. */
  lemma {:induction false} StoppedEarly(rs: seq<Slot>, start: nat, count: nat, n: nat, forward: bool)
    requires Bounded(rs) && start < |rs| && count <= n
    requires var r := Visited(rs, start, count, forward);
             |r| == count + 1 && (count == n || (if forward then rs[r[count]].next else rs[r[count]].last) < 0)
    ensures Visited(rs, start, n, forward) == Visited(rs, start, count, forward)
  {
    if count < n {
      StoppedEarly(rs, start, count, n - 1, forward);
    }
  }

  /** What test_normal accepts: `length` steps forward from slot 0 that end there, as many steps back, and
      `first` and `last` naming the ends of a list of two or more. */
  ghost predicate Normal(rs: seq<Slot>, first: int, last: int, length: nat)
    requires Bounded(rs)
  {
    var there := Visited(rs, 0, length, true);
    var end := there[|there| - 1];
    && |there| == length + 1 && rs[end].next <= 0
    && |Visited(rs, end, length, false)| == length + 1
    && (length > 1 ==> first == rs[0].next && last == end)
  }

  lemma {:induction false} ForwardWalk(rs: seq<Slot>, p: seq<int>, n: nat)
    requires Bounded(rs) && Linked(rs, p) && n < |p|
    ensures Visited(rs, 0, n, true) == p[..n + 1]
  {
    if n > 0 {
      ForwardWalk(rs, p, n - 1);
      assert rs[p[n - 1]].next == Successor(p, n - 1);
    }
  }

  lemma {:induction false} BackwardWalk(rs: seq<Slot>, p: seq<int>, n: nat)
    requires Bounded(rs) && Linked(rs, p) && n < |p|
    ensures var r := Visited(rs, p[|p| - 1], n, false);
            |r| == n + 1 && r[n] == p[|p| - 1 - n]
  {
    if n > 0 {
      BackwardWalk(rs, p, n - 1);
      assert rs[p[|p| - n]].last == Predecessor(p, |p| - n);
    }
  }

  /** A walk of |r| - 1 links. */
  ghost predicate Walks(rs: seq<Slot>, r: seq<int>, start: int, forward: bool) {
    && r != [] && r[0] == start
    && (forall i :: 0 <= i < |r| ==> 0 <= r[i] < |rs|)
    && forall i :: 0 <= i < |r| - 1 ==> r[i + 1] == if forward then rs[r[i]].next else rs[r[i]].last
  }

  /** A walk visits what the links lead to, and ends early only at -1. */
  lemma {:induction false} VisitedExactly(rs: seq<Slot>, start: nat, n: nat, forward: bool)
    requires Bounded(rs) && start < |rs|
    ensures var r := Visited(rs, start, n, forward);
            && Walks(rs, r, start, forward)
            && (|r| < n + 1 ==> (if forward then rs[r[|r| - 1]].next else rs[r[|r| - 1]].last) == -1)
  {
    if n > 0 {
      VisitedExactly(rs, start, n - 1, forward);
    }
  }

  lemma {:induction false} WalkIsVisited(rs: seq<Slot>, r: seq<int>, start: nat, n: nat, forward: bool)
    requires Bounded(rs) && start < |rs| && Walks(rs, r, start, forward) && n < |r|
    ensures Visited(rs, start, n, forward) == r[..n + 1]
    decreases n
  {
    if n > 0 {
      WalkIsVisited(rs, r, start, n - 1, forward);
      assert r[n - 1 + 1] == if forward then rs[r[n - 1]].next else rs[r[n - 1]].last;
    }
  }

  lemma OneWalk(rs: seq<Slot>, r: seq<int>, start: nat, forward: bool)
    requires Bounded(rs) && start < |rs| && Walks(rs, r, start, forward)
    ensures Visited(rs, start, |r| - 1, forward) == r
  {
    WalkIsVisited(rs, r, start, |r| - 1, forward);
    assert r[..|r|] == r;
  }

  /** What the test accepts, whatever the links are: exactly the lists along which `length` links lead forward from slot
      0 to a last one, and `length` links back from there, and whose ends the cache knows when there are two or more. */
  lemma NormalExactly(rs: seq<Slot>, first: int, last: int, length: nat)
    requires Bounded(rs)
    ensures Normal(rs, first, last, length)
            <==> exists p, q :: Walks(rs, p, 0, true) && |p| == length + 1 && rs[p[length]].next <= 0
                                && Walks(rs, q, p[length], false) && |q| == length + 1
                                && (length > 1 ==> first == rs[0].next && last == p[length])
  {
    VisitedExactly(rs, 0, length, true);
    var there := Visited(rs, 0, length, true);
    var end := there[|there| - 1];
    VisitedExactly(rs, end, length, false);
    hide Visited, Walks;
    forall p, q | Walks(rs, p, 0, true) && |p| == length + 1 && Walks(rs, q, p[length], false) && |q| == length + 1
      ensures p == there && q == Visited(rs, end, length, false)
    {
      OneWalk(rs, p, 0, true);
      OneWalk(rs, q, end, false);
    }
  }

  /** A well formed list passes exactly with its own length and ends. */
  lemma LinkedIsNormal(rs: seq<Slot>, p: seq<int>, first: int, last: int, length: nat)
    requires Bounded(rs) && Linked(rs, p)
    ensures Normal(rs, first, last, length) <==> length == |p| - 1 && (length > 1 ==> first == p[1] && last == p[|p| - 1])
  {
    var m := |p| - 1;
    ForwardWalk(rs, p, if length < m then length else m);
    BackwardWalk(rs, p, m);
    assert p[..|p|] == p;
    assert rs[p[m]].next == Successor(p, m) == -1;
    assert rs[p[0]].next == Successor(p, 0);
    if length > m {
      StoppedEarly(rs, 0, m, length, true);
    } else if length < m {
      assert rs[p[length]].next == Successor(p, length) && p[length + 1] != p[0];
    }
  }
}
