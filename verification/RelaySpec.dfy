/** What the relay of src/main.c does with client requests, told by acceptance numbers: the k-th accepted
    request is sent upstream under the id k % 1024, and a later reply or timeout settles it. */
module RelaySpec {
  import opened Options

  /** IDAadpter_SIZE. */
  const SIZE: nat := 1024

  /** DNS_TTL. */
  const TTL: int := 1000

  /** A client request: its own id, where it came from, its question type, and when it was accepted. */
  datatype Request = Request(oldId: nat, addr: nat, kind: nat, start: int)

  /** The two caches of replies. */
  datatype Family = A | AAAA

  /** A reply forwarded to a client: the acceptance it answers, the id and address it is sent with, and the
      cache that its answers are offered to. */
  datatype Delivery = Delivery(number: nat, id: nat, addr: nat, store: Option<Family>)

  /** The adapter keeps the question type in an unsigned char. */
  function Narrowed(r: Request): Request { r.(kind := r.kind % 256) }

  function StoreFor(kind: nat): Option<Family> {
    if kind == 1 then Some(A) else if kind == 28 then Some(AAAA) else None
  }

  /** What is sent for a reply to the request. */
  function DeliveryOf(number: nat, r: Request): Delivery {
    Delivery(number, r.oldId, r.addr, StoreFor(Narrowed(r).kind))
  }

  /** The whole history: `accepted[k]` is the k-th accepted request. */
  datatype History = History(accepted: seq<Request>, waiting: set<nat>, relayed: seq<Delivery>, timedOut: seq<nat>)

  /** A sweep reads the clock once for every slot. */
  datatype Event = Accept(request: Request) | Reply(id: nat) | Sweep(clock: seq<int>)

  const EMPTY := History([], {}, [], [])

  /** The upstream id given to an acceptance. */
  function IdOf(number: nat): (id: nat)
    ensures id < SIZE
  {
    number % SIZE
  }

  /** The slot that will serve the next acceptance is still taken by the one 1024 acceptances ago. */
  predicate Full(h: History) {
    |h.accepted| >= SIZE && |h.accepted| - SIZE in h.waiting
  }

  /** The most recent of the first n acceptances that was given the id, if any. */
  function Latest(n: nat, id: nat): (r: Option<nat>)
    requires id < SIZE
    ensures r.Some? ==> r.value < n && IdOf(r.value) == id && n <= r.value + SIZE
    ensures r.None? ==> n <= id
  {
    if n <= id then None else Some(n - 1 - (n - 1 - id) % SIZE)
  }

  predicate Late(r: Request, clock: int) { clock - r.start >= TTL }

  /** The waiting requests that a sweep over slots 0..upTo finds late, in slot order. */
  function FoundLate(h: History, clock: seq<int>, upTo: nat): (r: seq<nat>)
    requires upTo <= SIZE
    ensures forall i :: 0 <= i < |r| ==> r[i] < |h.accepted| && r[i] in h.waiting && IdOf(r[i]) < upTo
  {
    if upTo == 0 then []
    else
      var k := Latest(|h.accepted|, upTo - 1);
      FoundLate(h, clock, upTo - 1)
      + if k.Some? && k.value in h.waiting && upTo <= |clock| && Late(h.accepted[k.value], clock[upTo - 1]) then [k.value] else []
  }

  function Next(h: History, e: Event): History {
    match e
    case Accept(r) =>
      if Full(h) then h else h.(accepted := h.accepted + [r], waiting := h.waiting + {|h.accepted|})
    case Reply(id) =>
      var k := Latest(|h.accepted|, id % SIZE);
      if k.None? || k.value !in h.waiting then h
      else
        var r := h.accepted[k.value];
        h.(waiting := h.waiting - {k.value}, relayed := h.relayed + [DeliveryOf(k.value, r)])
    case Sweep(clock) =>
      var late := FoundLate(h, clock, SIZE);
      h.(waiting := h.waiting - (set k | k in late), timedOut := h.timedOut + late)
  }

  function Run(h: History, events: seq<Event>): History {
    if events == [] then h else Next(Run(h, events[..|events| - 1]), events[|events| - 1])
  }

  // ----- conservation -----

  function Numbers(relayed: seq<Delivery>): (r: seq<nat>)
    ensures |r| == |relayed|
  {
    seq(|relayed|, i requires 0 <= i < |relayed| => relayed[i].number)
  }

  /** How often acceptance number k is accounted for: still waiting, relayed, or timed out. */
  function Accounted(h: History, k: nat): nat {
    (if k in h.waiting then 1 else 0) + multiset(Numbers(h.relayed))[k] + multiset(h.timedOut)[k]
  }

  ghost predicate Conserved(h: History) {
    && (forall k: nat :: Accounted(h, k) == if k < |h.accepted| then 1 else 0)
    && (forall k :: k in h.waiting ==> k < |h.accepted| <= k + SIZE)
    && (forall j :: 0 <= j < |h.relayed| ==> Faithful(h, h.relayed[j]))
  }

  /** The delivery carries the id and address recorded when its own request was accepted; its answers go to
      the cache for A or AAAA records when the low byte of the request's own type says so. */
  predicate Faithful(h: History, d: Delivery) {
    && d.number < |h.accepted| && d.id == h.accepted[d.number].oldId && d.addr == h.accepted[d.number].addr
    && (d.store == Some(A) <==> h.accepted[d.number].kind % 256 == 1)
    && (d.store == Some(AAAA) <==> h.accepted[d.number].kind % 256 == 28)
  }

  lemma LatestIs(n: nat, k: nat)
    requires k < n <= k + SIZE
    ensures Latest(n, IdOf(k)) == Some(k)
  {
    var id := IdOf(k);
    var m := Latest(n, id);
    assert k % SIZE == id;
    assert m.Some?;
    assert (n - 1 - id) % SIZE == (n - 1 - k) % SIZE by {
      assert n - 1 - id == n - 1 - k + SIZE * (k / SIZE);
      ModShift(n - 1 - k, k / SIZE);
    }
  }

  lemma {:induction false} ModShift(a: nat, q: nat)
    ensures (a + SIZE * q) % SIZE == a % SIZE
    decreases q
  {
    if q > 0 {
      ModShift(a + SIZE, q - 1);
    }
  }

  ghost predicate NoRepeats(r: seq<nat>) {
    forall i, j :: 0 <= i < j < |r| ==> r[i] != r[j]
  }

  lemma {:induction false} LateOnes(h: History, clock: seq<int>, upTo: nat)
    requires upTo <= SIZE
    ensures NoRepeats(FoundLate(h, clock, upTo))
  {
    if upTo > 0 {
      LateOnes(h, clock, upTo - 1);
    }
  }

  /** A full sweep finds exactly the waiting requests that are late by the clock read for their slot. */
  lemma {:induction false} LateMembers(h: History, clock: seq<int>, upTo: nat, k: nat)
    requires upTo <= SIZE == |clock| && k < |h.accepted| <= k + SIZE
    ensures k in FoundLate(h, clock, upTo) <==> IdOf(k) < upTo && k in h.waiting && clock[k % 1024] - h.accepted[k].start >= 1000
  {
    LatestIs(|h.accepted|, k);
    if upTo > 0 {
      LateMembers(h, clock, upTo - 1, k);
    }
  }

  /** What a sweep decides, in the source's own terms: a request that was waiting is still waiting exactly when less
      than 1000 ticks have passed since its acceptance by the clock read at its place, and is timed out otherwise. */
  lemma SweepExactly(h: History, clock: seq<int>, k: nat)
    requires Conserved(h) && |clock| == 1024 && k < |h.accepted| <= k + 1024
    ensures var h' := Next(h, Sweep(clock));
            && (k in h'.waiting <==> k in h.waiting && clock[k % 1024] - h.accepted[k].start < 1000)
            && (k in h.waiting && clock[k % 1024] - h.accepted[k].start >= 1000 ==> k in h'.timedOut)
            && (k in h'.timedOut <==> k in h.timedOut || (k in h.waiting && clock[k % 1024] - h.accepted[k].start >= 1000))
            && h'.accepted == h.accepted && h'.relayed == h.relayed
  {
    hide Conserved, FoundLate, Latest;
    LateMembers(h, clock, SIZE, k);
  }

  /** A request accepted at 0 is timed out by a sweep whose clock reads 5000, and stays for one that reads 999. */
  lemma SweepWitness(r: Request)
    requires r.start == 0
    ensures var h := Run(EMPTY, [Accept(r)]);
            && 0 in h.waiting
            && 0 !in Next(h, Sweep(seq(1024, _ => 5000))).waiting && 0 in Next(h, Sweep(seq(1024, _ => 5000))).timedOut
            && 0 in Next(h, Sweep(seq(1024, _ => 999))).waiting
  {
    var h := Run(EMPTY, [Accept(r)]);
    assert [Accept(r)][..0] == [] && Run(EMPTY, []) == EMPTY;
    assert h.accepted == [r] && h.waiting == {0};
    Conservation([Accept(r)]);
    SweepExactly(h, seq(1024, _ => 5000), 0);
    SweepExactly(h, seq(1024, _ => 999), 0);
  }

  lemma {:induction false} CountedOnce(r: seq<nat>, k: nat)
    requires NoRepeats(r)
    ensures multiset(r)[k] == if k in r then 1 else 0
  {
    if r != [] {
      var n := |r| - 1;
      CountedOnce(r[..n], k);
      assert r == r[..n] + [r[n]];
    }
  }

  lemma AcceptConserves(h: History, r: Request)
    requires Conserved(h) && !Full(h)
    ensures Conserved(Next(h, Accept(r)))
  {
    var n, h' := |h.accepted|, Next(h, Accept(r));
    assert Accounted(h, n) == 0;
    forall k: nat ensures Accounted(h', k) == if k < |h'.accepted| then 1 else 0 {
      assert Accounted(h, k) == if k < n then 1 else 0;
    }
    forall j | 0 <= j < |h'.relayed| ensures Faithful(h', h'.relayed[j]) {
      assert Faithful(h, h.relayed[j]);
    }
  }

  lemma RelayConserves(h: History, id: nat, k: nat)
    requires Conserved(h) && Latest(|h.accepted|, id % SIZE) == Some(k) && k in h.waiting
    ensures Conserved(Next(h, Reply(id)))
  {
    var h' := Next(h, Reply(id));
    assert Numbers(h'.relayed) == Numbers(h.relayed) + [k];
    assert multiset(Numbers(h'.relayed)) == multiset(Numbers(h.relayed)) + multiset{k};
    forall x: nat ensures Accounted(h', x) == if x < |h'.accepted| then 1 else 0 {
      assert Accounted(h, x) == if x < |h.accepted| then 1 else 0;
    }
    forall j | 0 <= j < |h'.relayed| ensures Faithful(h', h'.relayed[j]) {
      assert j < |h.relayed| ==> Faithful(h, h.relayed[j]);
    }
  }

  lemma SweepConserves(h: History, clock: seq<int>)
    requires Conserved(h)
    ensures Conserved(Next(h, Sweep(clock)))
  {
    var late, h' := FoundLate(h, clock, SIZE), Next(h, Sweep(clock));
    LateOnes(h, clock, SIZE);
    assert multiset(h'.timedOut) == multiset(h.timedOut) + multiset(late);
    forall x: nat ensures Accounted(h', x) == if x < |h'.accepted| then 1 else 0 {
      assert Accounted(h, x) == if x < |h.accepted| then 1 else 0;
      CountedOnce(late, x);
    }
    forall j | 0 <= j < |h'.relayed| ensures Faithful(h', h'.relayed[j]) {
      assert Faithful(h, h.relayed[j]);
    }
  }

  lemma NextConserves(h: History, e: Event)
    requires Conserved(h)
    ensures Conserved(Next(h, e)) && h.accepted <= Next(h, e).accepted
  {
    match e
    case Accept(r) =>
      if !Full(h) {
        AcceptConserves(h, r);
      }
    case Reply(id) =>
      var k := Latest(|h.accepted|, id % SIZE);
      if k.Some? && k.value in h.waiting {
        RelayConserves(h, id, k.value);
      }
    case Sweep(clock) =>
      SweepConserves(h, clock);
  }

  /** Over every run, each accepted request is accounted for exactly once, as waiting, relayed or timed
      out, and no other number ever is; and every reply went out with its own request's id and address. */
  lemma {:induction false} Conservation(events: seq<Event>)
    ensures Conserved(Run(EMPTY, events))
  {
    if events != [] {
      Conservation(events[..|events| - 1]);
      NextConserves(Run(EMPTY, events[..|events| - 1]), events[|events| - 1]);
    } else {
      assert Numbers([]) == [];
    }
  }

  /** A reply under the id of a waiting request is sent to exactly that request's client. */
  lemma ReplyReachesOwner(events: seq<Event>, id: nat, k: nat)
    requires var h := Run(EMPTY, events); k in h.waiting && IdOf(k) == id % SIZE
    ensures var h, h' := Run(EMPTY, events), Next(Run(EMPTY, events), Reply(id));
            && k < |h.accepted|
            && h'.relayed == h.relayed + [DeliveryOf(k, h.accepted[k])]
            && h'.waiting == h.waiting - {k} && h'.timedOut == h.timedOut && h'.accepted == h.accepted
  {
    Conservation(events);
    LatestIs(|Run(EMPTY, events).accepted|, k);
  }

  // ----- reuse of upstream ids -----

  /** What IDAdapter_push returns. */
  function IdFor(h: History): int { if Full(h) then -1 else IdOf(|h.accepted|) }

  /** The id that each accept event of a run is answered with, -1 when it is refused. */
  function Issued(h: History, events: seq<Event>): seq<int> {
    if events == [] then []
    else
      var k := |events| - 1;
      var before := Run(h, events[..k]);
      Issued(h, events[..k])
      + if events[k].Accept? then [IdFor(before)] else []
  }

  function Granted(issued: seq<int>): seq<int> {
    if issued == [] then []
    else Granted(issued[..|issued| - 1]) + if issued[|issued| - 1] < 0 then [] else [issued[|issued| - 1]]
  }

  lemma GrantedConcat(a: seq<int>, b: seq<int>)
    requires |b| <= 1
    ensures Granted(a + b) == Granted(a) + Granted(b)
  {
    if b == [] {
      assert a + b == a;
    } else {
      assert (a + b)[..|a|] == a && b[..0] == [];
    }
  }

  /** The ids granted along a run are 0, 1, 2, ... modulo 1024, one for each acceptance. */
  lemma {:induction false} GrantedAreNumbered(events: seq<Event>)
    ensures var ids := Granted(Issued(EMPTY, events));
            |ids| == |Run(EMPTY, events).accepted| && forall j :: 0 <= j < |ids| ==> ids[j] == IdOf(j) == j % 1024
  {
    if events != [] {
      var k := |events| - 1;
      var before := Run(EMPTY, events[..k]);
      GrantedAreNumbered(events[..k]);
      var last := if events[k].Accept? then [IdFor(before)] else [];
      GrantedConcat(Issued(EMPTY, events[..k]), last);
      assert last != [] ==> last[..0] == [];
    }
  }

  lemma NumbersInRound(k: nat, k': nat, id: nat) returns (m: nat)
    requires k < k' && IdOf(k) == IdOf(k') && (k + SIZE < k' ==> IdOf(k + SIZE) != IdOf(k))
    requires id < SIZE && id != IdOf(k)
    ensures k' == k + SIZE && k < m < k' && IdOf(m) == id
    ensures forall j :: k < j < k' && IdOf(j) == id ==> j == m
  {
    hide IdOf;
    SameIdAfterRound(k);
    if k' < k + SIZE {
      SameIdWithinRound(k, k');
    }
    m := if id > IdOf(k) then k - IdOf(k) + id else k - IdOf(k) + id + SIZE;
    IdAt(k, id);
    forall j | k < j < k' && IdOf(j) == id ensures j == m {
      if j < m {
        SameIdWithinRound(j, m);
      } else if m < j {
        SameIdWithinRound(m, j);
      }
    }
  }

  lemma IdAt(k: nat, id: nat)
    requires id < SIZE
    ensures IdOf(k) <= k && IdOf(k - IdOf(k) + id) == IdOf(k - IdOf(k) + id + SIZE) == id
  {
  }

  /** In any run, between two consecutive grants of the same upstream id there are exactly 1023 others, and each
      other id is granted to exactly one of them. */
  lemma EachIdOncePerRound(events: seq<Event>, k: nat, k': nat, id: nat) returns (m: nat)
    requires var ids := Granted(Issued(EMPTY, events));
             k < k' < |ids| && ids[k] == ids[k'] && (forall j :: k < j < k' ==> ids[j] != ids[k]) && id < SIZE && id != ids[k]
    ensures k' == k + SIZE && k < m < k'
    ensures var ids := Granted(Issued(EMPTY, events));
            ids[m] == id && forall j :: k < j < k' && ids[j] == id ==> j == m
  {
    GrantedAreNumbered(events);
    var ids := Granted(Issued(EMPTY, events));
    hide IdOf, Granted, Issued, Run;
    assert k + SIZE < k' ==> ids[k + SIZE] != ids[k];
    m := NumbersInRound(k, k', id);
  }

  lemma SettledStays(h: History, e: Event, k: nat)
    requires k < |h.accepted| && k !in h.waiting
    ensures k < |Next(h, e).accepted| && k !in Next(h, e).waiting
  {
  }

  /** A late reply is harmless: once request k is settled, any further run with at most 1023 acceptances
      after k's leaves k settled, and a reply under its id is dropped there without reaching anyone. */
  lemma {:induction false} LateReplyIsDropped(h: History, more: seq<Event>, k: nat, id: nat)
    requires Conserved(h) && k < |h.accepted| && k !in h.waiting && IdOf(k) == id % SIZE
    requires |Run(h, more).accepted| <= k + SIZE
    ensures Conserved(Run(h, more)) && k < |Run(h, more).accepted| && k !in Run(h, more).waiting
    ensures Next(Run(h, more), Reply(id)) == Run(h, more)
  {
    if more != [] {
      var before := Run(h, more[..|more| - 1]);
      assert |before.accepted| <= |Run(h, more).accepted|;
      LateReplyIsDropped(h, more[..|more| - 1], k, id);
      NextConserves(before, more[|more| - 1]);
      SettledStays(before, more[|more| - 1], k);
    }
    LatestIs(|Run(h, more).accepted|, k);
  }

  function Accepts(rs: seq<Request>): (r: seq<Event>)
    ensures |r| == |rs|
  {
    seq(|rs|, i requires 0 <= i < |rs| => Accept(rs[i]))
  }

  /** With nothing waiting, up to 1024 requests in a row are all accepted. */
  lemma {:induction false} AllAccepted(h: History, rs: seq<Request>)
    requires h.waiting == {} && |rs| <= SIZE
    ensures Run(h, Accepts(rs)).accepted == h.accepted + rs
    ensures forall k: nat :: k in Run(h, Accepts(rs)).waiting <==> |h.accepted| <= k < |h.accepted| + |rs|
  {
    if rs != [] {
      var n := |rs| - 1;
      AllAccepted(h, rs[..n]);
      assert Accepts(rs)[..n] == Accepts(rs[..n]);
      assert rs == rs[..n] + [rs[n]];
    }
  }

  lemma SameIdAfterRound(k: nat)
    ensures IdOf(k + SIZE) == IdOf(k) == IdOf(k) % SIZE
  {
  }

  /** 1023 is the limit: 1024 acceptances after the last one, whose request is settled and nothing waiting, a late
      reply under its id is sent to the client of the 1024th. */
  lemma LateReplyAfterARound(h: History, rs: seq<Request>)
    requires h.waiting == {} && h.accepted != [] && |rs| == SIZE
    ensures var k, end := |h.accepted| - 1, Run(h, Accepts(rs));
            && |end.accepted| == k + SIZE + 1
            && Next(end, Reply(IdOf(k))).relayed == end.relayed + [DeliveryOf(k + SIZE, rs[SIZE - 1])]
  {
    AllAccepted(h, rs);
    var k, end := |h.accepted| - 1, Run(h, Accepts(rs));
    SameIdAfterRound(k);
    LatestIs(|end.accepted|, k + SIZE);
    hide IdOf, Latest, Run, DeliveryOf;
    assert end.accepted[k + SIZE] == rs[SIZE - 1] && k + SIZE in end.waiting;
  }

  /** A request is refused exactly when a waiting one holds its id, that one was accepted 1024 acceptances
      earlier, and a refusal changes nothing. */
  lemma RefusedExactlyWhenSlotBusy(events: seq<Event>, r: Request)
    ensures var h, h' := Run(EMPTY, events), Run(EMPTY, events + [Accept(r)]);
            && (|h'.accepted| == |h.accepted| <==> exists k :: k in h.waiting && IdOf(k) == IdOf(|h.accepted|))
            && (forall k :: k in h.waiting && IdOf(k) == IdOf(|h.accepted|) ==> k + SIZE == |h.accepted|)
            && (|h'.accepted| == |h.accepted| ==> h' == h)
  {
    Conservation(events);
    assert (events + [Accept(r)])[..|events|] == events;
    HolderOfNextId(Run(EMPTY, events));
    hide IdOf, Conserved;
  }

  lemma HolderOfNextId(h: History)
    requires Conserved(h)
    ensures Full(h) <==> exists k :: k in h.waiting && IdOf(k) == IdOf(|h.accepted|)
    ensures forall k :: k in h.waiting && IdOf(k) == IdOf(|h.accepted|) ==> k + SIZE == |h.accepted|
  {
    hide Accounted, Faithful;
    var n := |h.accepted|;
    if Full(h) {
      assert IdOf(n - SIZE) == IdOf(n);
    }
    forall k | k in h.waiting && IdOf(k) == IdOf(n) ensures Full(h) && k + SIZE == n {
      SameIdWithinRound(k, n);
    }
  }

  lemma SameIdWithinRound(k: nat, n: nat)
    requires k < n <= k + SIZE && IdOf(k) == IdOf(n)
    ensures n == k + SIZE
  {
  }
}
