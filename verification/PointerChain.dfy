/** When fetch_label of src/common.c comes to an end.  It follows every pointer without a check, so a message decides
    whether it does. */
module PointerChain {
  import opened Options
  import opened Rfc1035
  import opened NameCodec

  /** How the segment of a name ends: at a zero byte, at a pointer, or outside the message. */
  datatype Stop = Zero | Jump(target: nat) | Outside

  function StopOf(msg: seq<byte>, pos: nat): Stop
    decreases |msg| - pos
  {
    if pos >= |msg| then Outside
    else if msg[pos] == 0 then Zero
    else if msg[pos] >= 64 then if pos + 1 >= |msg| then Outside else Jump(PointerAt(msg, pos))
    else if pos + 1 + msg[pos] as int > |msg| then Outside
    else StopOf(msg, pos + 1 + msg[pos] as int)
  }

  /** Where the n-th segment begins: the name itself, then the targets of its pointers. */
  function Chain(msg: seq<byte>, src: nat, n: nat): Option<nat> {
    if n == 0 then Some(src)
    else
      match Chain(msg, src, n - 1)
      case None => None
      case Some(p) => if StopOf(msg, p).Jump? then Some(StopOf(msg, p).target) else None
  }

  /** No segment of the chain runs out of the message. */
  ghost predicate StaysInside(msg: seq<byte>, src: nat) {
    forall n: nat :: Chain(msg, src, n).Some? ==> StopOf(msg, Chain(msg, src, n).value) != Outside
  }

  /** Some number of hops is enough for the fetch. */
  ghost predicate Ends(msg: seq<byte>, src: nat) {
    exists hops: nat :: Fetched(msg, src, hops).Some?
  }

  /** No segment is come to twice. */
  ghost predicate NoTargetRepeats(msg: seq<byte>, src: nat) {
    forall i: nat, j: nat :: i < j && Chain(msg, src, j).Some? ==> Chain(msg, src, i) != Chain(msg, src, j)
  }

  /** A fetch ends in its segment or goes on where that jumps to. */
  lemma {:induction false} FetchedBySegment(msg: seq<byte>, pos: nat, hops: nat)
    ensures Fetched(msg, pos, hops).Some? <==>
            match StopOf(msg, pos)
            case Zero => true
            case Jump(target) => hops > 0 && Fetched(msg, target, hops - 1).Some?
            case Outside => false
    decreases |msg| - pos
  {
    hide PointerAt;
    if pos < |msg| && 0 < msg[pos] < 64 && pos + 1 + msg[pos] as int <= |msg| {
      FetchedBySegment(msg, pos + 1 + msg[pos] as int, hops);
    }
  }

  /** What the fetch returns: the text length of the last segment, wherever the pointers lead.  The labels before a
      pointer do not count. */
  lemma {:induction false} LastLengthBySegment(msg: seq<byte>, pos: nat, hops: nat)
    requires Fetched(msg, pos, hops).Some?
    ensures StopOf(msg, pos) == Zero ==>
              LastLength(msg, pos, hops) == |WithDots(Fetched(msg, pos, hops).value.labels)| && !Fetched(msg, pos, hops).value.pointer
    ensures StopOf(msg, pos).Jump? ==>
              && Fetched(msg, pos, hops).value.pointer && hops > 0 && Fetched(msg, StopOf(msg, pos).target, hops - 1).Some?
              && LastLength(msg, pos, hops) == LastLength(msg, StopOf(msg, pos).target, hops - 1)
    decreases |msg| - pos
  {
    hide PointerAt;
    if 0 < msg[pos] < 64 {
      FetchedLabel(msg, pos, hops);
      LastLengthBySegment(msg, pos + 1 + msg[pos] as int, hops);
      var n := Fetched(msg, pos, hops).value;
      assert n.labels == [n.labels[0]] + n.labels[1..];
    }
  }

  lemma {:induction false} ChainFromTarget(msg: seq<byte>, src: nat, n: nat)
    requires StopOf(msg, src).Jump?
    ensures Chain(msg, src, n + 1) == Chain(msg, StopOf(msg, src).target, n)
  {
    hide StopOf;
    if n > 0 {
      ChainFromTarget(msg, src, n - 1);
    } else {
      assert Chain(msg, src, 0) == Some(src);
    }
  }

  /** The n-th segment exists and ends in a zero byte. */
  predicate EndsAfter(msg: seq<byte>, src: nat, n: nat) {
    Chain(msg, src, n).Some? && StopOf(msg, Chain(msg, src, n).value) == Zero
  }

  /** The hops a fetch takes are the segments before the last. */
  lemma {:induction false} FetchedEndsAfter(msg: seq<byte>, src: nat, hops: nat) returns (n: nat)
    requires Fetched(msg, src, hops).Some?
    ensures n <= hops && EndsAfter(msg, src, n)
    decreases hops
  {
    hide Fetched, StopOf;
    FetchedBySegment(msg, src, hops);
    if StopOf(msg, src).Jump? {
      n := FetchedEndsAfter(msg, StopOf(msg, src).target, hops - 1);
      ChainFromTarget(msg, src, n);
      n := n + 1;
    } else {
      n := 0;
    }
  }

  lemma {:induction false} EndsAfterFetched(msg: seq<byte>, src: nat, n: nat)
    requires EndsAfter(msg, src, n)
    ensures Fetched(msg, src, n).Some?
    decreases n
  {
    hide Fetched, StopOf;
    FetchedBySegment(msg, src, n);
    if n > 0 {
      FirstJumps(msg, src, n);
      ChainFromTarget(msg, src, n - 1);
      EndsAfterFetched(msg, StopOf(msg, src).target, n - 1);
    }
  }

  lemma {:induction false} FirstJumps(msg: seq<byte>, src: nat, n: nat)
    requires n > 0 && Chain(msg, src, n).Some?
    ensures StopOf(msg, src).Jump?
  {
    hide StopOf;
    if n > 1 {
      FirstJumps(msg, src, n - 1);
    } else {
      assert Chain(msg, src, 0) == Some(src);
    }
  }

  /** From equal segments the chain goes on equally. */
  lemma {:induction false} Periodic(msg: seq<byte>, src: nat, i: nat, j: nat, k: nat)
    requires Chain(msg, src, i) == Chain(msg, src, j)
    ensures Chain(msg, src, i + k) == Chain(msg, src, j + k)
    decreases k
  {
    hide StopOf;
    if k > 0 {
      Periodic(msg, src, i, j, k - 1);
    }
  }

  lemma {:induction false} NothingAfterEnd(msg: seq<byte>, src: nat, n: nat, m: nat)
    requires EndsAfter(msg, src, n) && n < m
    ensures Chain(msg, src, m).None?
    decreases m
  {
    hide StopOf;
    if m > n + 1 {
      NothingAfterEnd(msg, src, n, m - 1);
    }
  }

  lemma EndedHasNoRepeats(msg: seq<byte>, src: nat, n: nat)
    requires EndsAfter(msg, src, n)
    ensures NoTargetRepeats(msg, src)
  {
    hide EndsAfter, StopOf, Chain;
    forall i: nat, j: nat | i < j && Chain(msg, src, j).Some? ensures Chain(msg, src, i) != Chain(msg, src, j) {
      if j > n {
        NothingAfterEnd(msg, src, n, j);
      } else if Chain(msg, src, i) == Chain(msg, src, j) {
        Periodic(msg, src, i, j, n - j);
        SameEnd(msg, src, i + (n - j), n);
        NothingAfterEnd(msg, src, i + (n - j), n);
        SomeAtEnd(msg, src, n);
      }
    }
  }

  lemma SameEnd(msg: seq<byte>, src: nat, i: nat, n: nat)
    requires EndsAfter(msg, src, n) && Chain(msg, src, i) == Chain(msg, src, n)
    ensures EndsAfter(msg, src, i)
  {
  }

  lemma SomeAtEnd(msg: seq<byte>, src: nat, n: nat)
    requires EndsAfter(msg, src, n)
    ensures Chain(msg, src, n).Some?
  {
  }

  /** As long as it has not ended, a chain that stays inside goes on, and inside the message. */
  lemma {:induction false} GoesOn(msg: seq<byte>, src: nat, n: nat)
    requires StaysInside(msg, src) && forall m: nat :: !EndsAfter(msg, src, m)
    ensures Chain(msg, src, n).Some? && Chain(msg, src, n).value < |msg|
  {
    if n > 0 {
      GoesOn(msg, src, n - 1);
      assert !EndsAfter(msg, src, n - 1);
    }
    hide Chain;
    assert Chain(msg, src, n).Some?;
  }

  /** The first n segments of the chain, as a set. */
  ghost function Seen(msg: seq<byte>, src: nat, n: nat): (r: set<nat>)
    requires forall i: nat :: i < n ==> Chain(msg, src, i).Some?
  {
    set i: nat | i < n :: Chain(msg, src, i).value
  }

  lemma {:induction false} DistinctSegments(msg: seq<byte>, src: nat, n: nat)
    requires forall i: nat :: i < n ==> Chain(msg, src, i).Some?
    requires NoTargetRepeats(msg, src)
    ensures |Seen(msg, src, n)| == n
  {
    hide Chain;
    if n > 0 {
      DistinctSegments(msg, src, n - 1);
      var p := Chain(msg, src, n - 1).value;
      assert Seen(msg, src, n) == Seen(msg, src, n - 1) + {p};
      forall i: nat | i < n - 1 ensures Chain(msg, src, i).value != p {
        assert Chain(msg, src, i) != Chain(msg, src, n - 1);
      }
    }
  }

  lemma {:induction false} NumbersBelow(n: nat, s: set<nat>)
    requires forall p :: p in s ==> p < n
    ensures |s| <= n
  {
    if n > 0 {
      NumbersBelow(n - 1, s - {n - 1});
    } else {
      assert s == {};
    }
  }

  /** fetch_label comes to an end if and only if no pointer of the name leads to a segment it was in before, for every
      message that the chain does not leave. */
  lemma EndsExactly(msg: seq<byte>, src: nat)
    requires StaysInside(msg, src)
    ensures Ends(msg, src) <==> NoTargetRepeats(msg, src)
  {
    hide Fetched, Chain, StopOf, NoTargetRepeats;
    if Ends(msg, src) {
      var hops: nat :| Fetched(msg, src, hops).Some?;
      var n := FetchedEndsAfter(msg, src, hops);
      EndedHasNoRepeats(msg, src, n);
    } else {
      forall m: nat ensures !EndsAfter(msg, src, m) {
        if EndsAfter(msg, src, m) {
          EndsAfterFetched(msg, src, m);
        }
      }
      var n := |msg| + 1;
      forall i: nat ensures Chain(msg, src, i).Some? && Chain(msg, src, i).value < |msg| {
        GoesOn(msg, src, i);
      }
      if NoTargetRepeats(msg, src) {
        DistinctSegments(msg, src, n);
        NumbersBelow(|msg|, Seen(msg, src, n));
      }
    }
  }

  /** A name of section 4.1.4 always ends. */
  lemma BackwardEnds(msg: seq<byte>, src: nat)
    requires NameAt(msg, src).Some?
    ensures Ends(msg, src)
  {
    WalkIsFetched(msg, src, src, src);
  }

  /** A pointer to itself. */
  const SELF: seq<byte> := [192, 0]

  /** It stays inside its message and never ends. */
  lemma SelfPointing()
    ensures StaysInside(SELF, 0) && !NoTargetRepeats(SELF, 0) && !Ends(SELF, 0)
  {
    assert PointerAt(SELF, 0) == 0 && StopOf(SELF, 0) == Jump(0);
    forall n: nat ensures Chain(SELF, 0, n) == Some(0) {
      AlwaysThere(n);
    }
    hide StopOf, Chain;
    assert Chain(SELF, 0, 0) == Chain(SELF, 0, 1);
    EndsExactly(SELF, 0);
  }

  lemma {:induction false} AlwaysThere(n: nat)
    requires StopOf(SELF, 0) == Jump(0)
    ensures Chain(SELF, 0, n) == Some(0)
  {
    hide StopOf;
    if n > 0 {
      AlwaysThere(n - 1);
    }
  }
}
