/** The transaction-id ring of src/main.c and the relay steps of its main loop, tied to the history of
    RelaySpec.  The reader-writer lock is not modelled. */
module IdAdapter {
  import opened Options
  import opened RelaySpec

  /** One entry of IDAdapter.data. */
  datatype Slot = Slot(request: Request, valid: bool)

  /** A datagram to a client: the id written into the header, the address it is sent to, and the cache that its
      answers were offered to. */
  datatype Outgoing = Outgoing(id: nat, addr: nat, store: Option<Family>)

  function Datagram(d: Delivery): Outgoing { Outgoing(d.id, d.addr, d.store) }

  function Datagrams(relayed: seq<Delivery>): (r: seq<Outgoing>)
    ensures |r| == |relayed|
  {
    seq(|relayed|, i requires 0 <= i < |relayed| => Datagram(relayed[i]))
  }

  /** The place that a reply id leads to: it is passed as a signed short, and the remainder keeps its sign. */
  function SlotIndex(id: nat): int
    requires id < 0x1_0000
  {
    var pos := if id < 0x8000 then id else id - 0x1_0000;
    if pos >= 0 then pos % SIZE else -(-pos % SIZE)
  }

  /** It lies in the ring exactly for the ids that are not negative as a short and for the multiples of 1024, and is
      then the id modulo 1024. */
  lemma InRingExactly(id: nat)
    requires id < 0x1_0000
    ensures SlotIndex(id) >= 0 <==> id < 0x8000 || id % 1024 == 0
    ensures SlotIndex(id) >= 0 ==> SlotIndex(id) == id % 1024
  {
  }

  /** A reply id for which the relay stays in the ring. */
  predicate InRing(id: nat) { id < 0x1_0000 && SlotIndex(id) >= 0 }

  /** What slot i must hold after the given history. */
  ghost predicate SlotOk(slot: Slot, h: History, i: nat)
    requires i < SIZE
  {
    match Latest(|h.accepted|, i)
    case None => !slot.valid
    case Some(k) => (slot.valid <==> k in h.waiting) && (slot.valid ==> slot.request == Narrowed(h.accepted[k]))
  }

  ghost predicate Agrees(data: seq<Slot>, next: nat, h: History) {
    && |data| == SIZE && next == IdOf(|h.accepted|)
    && forall i :: 0 <= i < SIZE ==> SlotOk(data[i], h, i)
  }

  lemma SlotBusy(data: seq<Slot>, next: nat, h: History)
    requires Agrees(data, next, h)
    ensures data[next].valid <==> Full(h)
  {
    var n := |h.accepted|;
    assert SlotOk(data[next], h, next);
    if n >= SIZE {
      assert IdOf(n - SIZE) == next;
      LatestIs(n, n - SIZE);
    }
  }

  lemma OtherSlotOk(slot: Slot, h: History, i: nat, r: Request)
    requires i < SIZE && i != IdOf(|h.accepted|) && SlotOk(slot, h, i) && !Full(h)
    ensures SlotOk(slot, Next(h, Accept(r)), i)
  {
    LatestSkips(|h.accepted|, i);
    hide Latest, IdOf;
  }

  lemma NewSlotOk(h: History, r: Request)
    requires !Full(h)
    ensures SlotOk(Slot(Narrowed(r), true), Next(h, Accept(r)), IdOf(|h.accepted|))
  {
    LatestIs(|h.accepted| + 1, |h.accepted|);
    hide Latest;
  }

  lemma NextId(n: nat)
    ensures (IdOf(n) + 1) % SIZE == IdOf(n + 1)
  {
  }

  lemma AfterAccept(data: seq<Slot>, next: nat, h: History, r: Request)
    requires Agrees(data, next, h)
    ensures data[next].valid <==> Full(h)
    ensures !Full(h) ==> Agrees(data[next := Slot(Narrowed(r), true)], (next + 1) % SIZE, Next(h, Accept(r)))
  {
    SlotBusy(data, next, h);
    if !Full(h) {
      NextId(|h.accepted|);
      assert |Next(h, Accept(r)).accepted| == |h.accepted| + 1;
      hide Latest, IdOf, Full, SlotOk, Next;
      var data' := data[next := Slot(Narrowed(r), true)];
      NewSlotOk(h, r);
      forall i | 0 <= i < SIZE ensures SlotOk(data'[i], Next(h, Accept(r)), i) {
        if i != next {
          OtherSlotOk(data[i], h, i, r);
        }
      }
    }
  }

  /** A new acceptance changes the latest holder of its own id only. */
  lemma LatestSkips(n: nat, i: nat)
    requires i < SIZE && i != IdOf(n)
    ensures Latest(n + 1, i) == Latest(n, i)
  {
    if n > i {
      var k := Latest(n, i).value;
      LatestIs(n + 1, k);
      LatestIs(n, k);
    }
  }

  lemma AfterReply(data: seq<Slot>, next: nat, h: History, id: nat)
    requires Agrees(data, next, h) && Conserved(h)
    ensures var i := id % SIZE;
            var k := Latest(|h.accepted|, i);
            && (data[i].valid <==> k.Some? && k.value in h.waiting)
            && (data[i].valid ==> data[i].request == Narrowed(h.accepted[k.value]))
            && (data[i].valid ==> Agrees(data[i := data[i].(valid := false)], next, Next(h, Reply(id))))
  {
    var i := id % SIZE;
    assert SlotOk(data[i], h, i);
    var h', data' := Next(h, Reply(id)), data[i := data[i].(valid := false)];
    forall j | 0 <= j < SIZE && data[i].valid ensures SlotOk(data'[j], h', j) {
      assert SlotOk(data[j], h, j);
    }
  }

  lemma AfterSweep(data: seq<Slot>, next: nat, h: History, clock: seq<int>, data': seq<Slot>)
    requires Agrees(data, next, h) && Conserved(h) && |clock| == |data'| == SIZE
    requires forall i :: 0 <= i < SIZE ==> data'[i] == data[i].(valid := data[i].valid && !Late(data[i].request, clock[i]))
    ensures Agrees(data', next, Next(h, Sweep(clock)))
  {
    var h' := Next(h, Sweep(clock));
    forall i | 0 <= i < SIZE ensures SlotOk(data'[i], h', i) {
      assert SlotOk(data[i], h, i);
      var k := Latest(|h.accepted|, i);
      if k.Some? {
        LateMembers(h, clock, SIZE, k.value);
      }
    }
  }

  class Adapter {
    const data: array<Slot>
    var next: nat
    ghost var history: History

    ghost predicate Valid()
      reads this, data
    {
      Conserved(history) && Agrees(data[..], next, history)
    }

    /** The zeroed global. */
    constructor ()
      ensures Valid() && history == EMPTY && fresh(data)
    {
      data := new Slot[SIZE](_ => Slot(Request(0, 0, 0, 0), false));
      next := 0;
      history := EMPTY;
      new;
      Conservation([]);
    }

    /** IDAdapter_push: the new id, or -1 when the next slot is still in use. */
    method Push(request: Request) returns (id: int)
      requires Valid()
      modifies this, data
      ensures Valid() && history == Next(old(history), Accept(request))
      ensures id == if Full(old(history)) then -1 else IdOf(|old(history).accepted|)
    {
      AfterAccept(data[..], next, history, request);
      NextConserves(history, Accept(request));
      if data[next].valid {
        return -1;
      }
      ghost var before := data[..];
      data[next] := Slot(request.(kind := request.kind % 256), true);
      assert data[..] == before[next := Slot(Narrowed(request), true)];
      id := next;
      next := (next + 1) % SIZE;
      history := Next(history, Accept(request));
    }

    /** IDAdapter_get, for a reply id that leads into the ring: the request last accepted under the id, while
        it is waiting. */
    method Get(id: nat) returns (r: Option<Request>)
      requires Valid() && InRing(id)
      ensures var k := Latest(|history.accepted|, id % SIZE);
              r == if k.Some? && k.value in history.waiting then Some(Narrowed(history.accepted[k.value])) else None
    {
      AfterReply(data[..], next, history, id);
      hide Latest, Conserved;
      InRingExactly(id);
      var slot := data[SlotIndex(id)];
      r := if slot.valid then Some(slot.request) else None;
    }

    /** IDAdapter_pop, after the reply under the id was sent: it settles the waiting request, and changes nothing
        when there is none. */
    method Pop(id: nat)
      requires Valid() && InRing(id)
      modifies this`history, data
      ensures Valid() && history == Next(old(history), Reply(id))
    {
      AfterReply(data[..], next, history, id);
      NextConserves(history, Reply(id));
      hide Latest, Conserved;
      ghost var before, i := data[..], id % SIZE;
      InRingExactly(id);
      data[SlotIndex(id)] := data[SlotIndex(id)].(valid := false);
      assert data[..] == before[i := before[i].(valid := false)];
      if !before[i].valid {
        assert data[..] == before;
      }
      history := Next(history, Reply(id));
    }

    /** The relay branch for a reply from upstream: look the id up, send the reply on under the client's own
        id, and free the slot; a reply under a free id is dropped. */
    method Relay(id: nat) returns (sent: Option<Outgoing>)
      requires Valid() && InRing(id)
      modifies this`history, data
      ensures Valid() && history == Next(old(history), Reply(id))
      ensures Datagrams(history.relayed) == Datagrams(old(history).relayed) + if sent.Some? then [sent.value] else []
      ensures var h, k := old(history), Latest(|old(history).accepted|, id % SIZE);
              && (sent.Some? <==> k.Some? && k.value in h.waiting)
              && (sent.Some? ==> sent.value.id == h.accepted[k.value].oldId && sent.value.addr == h.accepted[k.value].addr)
    {
      var r := Get(id);
      if r.None? {
        return None;
      }
      sent := Some(Outgoing(r.value.oldId, r.value.addr, StoreFor(r.value.kind)));
      Pop(id);
    }

    /** The timeout loop: every slot in turn is freed if it is in use and at least DNS_TTL old. */
    method SweepTimeouts(clock: seq<int>)
      requires Valid() && |clock| == SIZE
      modifies this, data
      ensures Valid() && history == Next(old(history), Sweep(clock))
      ensures forall i :: 0 <= i < 1024 ==>
                (data[i].valid <==> old(data[i].valid) && clock[i] - old(data[i].request.start) < 1000)
      ensures forall k :: k in old(history).waiting ==>
                && k < |old(history).accepted|
                && (k in history.waiting <==> clock[k % 1024] - old(history).accepted[k].start < 1000)
                && (k !in history.waiting ==> k in history.timedOut)
    {
      ghost var before := data[..];
      for i := 0 to SIZE
        invariant data.Length == SIZE && next == old(next) && history == old(history)
        invariant forall j :: 0 <= j < i ==> data[j] == before[j].(valid := before[j].valid && !Late(before[j].request, clock[j]))
        invariant forall j :: i <= j < SIZE ==> data[j] == before[j]
      {
        if data[i].valid && clock[i] - data[i].request.start >= TTL {
          data[i] := data[i].(valid := false);
        }
      }
      AfterSweep(before, next, history, clock, data[..]);
      NextConserves(history, Sweep(clock));
      forall k | k in history.waiting
        ensures k < |history.accepted| <= k + 1024
        ensures k in Next(history, Sweep(clock)).waiting <==> clock[k % 1024] - history.accepted[k].start < 1000
        ensures k !in Next(history, Sweep(clock)).waiting ==> k in Next(history, Sweep(clock)).timedOut
      {
        SweepExactly(history, clock, k);
      }
      history := Next(history, Sweep(clock));
    }

    /** The main loop over any sequence of requests to relay, replies and idle timeouts: it follows the
        abstract history, and the ids it issues and the replies it sends are those of the history. */
    method Serve(events: seq<Event>) returns (issued: seq<int>, sent: seq<Outgoing>)
      requires Valid() && forall i :: 0 <= i < |events| ==> WellFormed(events[i])
      modifies this, data
      ensures Valid() && history == Run(old(history), events)
      ensures issued == Issued(old(history), events)
      ensures Datagrams(history.relayed) == Datagrams(old(history).relayed) + sent
      ensures Sent(history.relayed, |old(history).relayed|, sent)
    {
      hide Conserved, Agrees, Latest, Next;
      issued, sent := [], [];
      ghost var start := history;
      assert events[..0] == [];
      for i := 0 to |events|
        invariant Valid() && history == Run(start, events[..i])
        invariant issued == Issued(start, events[..i]) && Datagrams(history.relayed) == Datagrams(start.relayed) + sent
      {
        assert events[..i + 1][..i] == events[..i];
        match events[i]
        case Accept(request) =>
          var id := Push(request);
          issued := issued + [id];
          SameRelayed(Run(start, events[..i]), events[i]);
        case Reply(id) =>
          var reply := Relay(id);
          sent := sent + if reply.Some? then [reply.value] else [];
        case Sweep(clock) =>
          SweepTimeouts(clock);
          SameRelayed(Run(start, events[..i]), events[i]);
      }
      assert events[..|events|] == events;
      DatagramsAdded(start.relayed, history.relayed, sent);
    }
  }

  /** The datagrams sent are the deliveries recorded from the given place on, one for one, each with its own id,
      address and cache. */
  predicate Sent(relayed: seq<Delivery>, from: nat, sent: seq<Outgoing>) {
    && |relayed| == from + |sent|
    && forall i :: 0 <= i < |sent| ==>
         sent[i].id == relayed[from + i].id && sent[i].addr == relayed[from + i].addr && sent[i].store == relayed[from + i].store
  }

  lemma DatagramsAdded(before: seq<Delivery>, after: seq<Delivery>, sent: seq<Outgoing>)
    requires Datagrams(after) == Datagrams(before) + sent
    ensures Sent(after, |before|, sent)
  {
    assert |Datagrams(after)| == |Datagrams(before)| + |sent|;
    forall i | 0 <= i < |sent|
      ensures sent[i] == Datagram(after[|before| + i])
    {
      assert sent[i] == (Datagrams(before) + sent)[|before| + i] == Datagrams(after)[|before| + i];
    }
  }

  lemma SameRelayed(h: History, e: Event)
    requires !e.Reply?
    ensures Next(h, e).relayed == h.relayed
  {
  }

  predicate WellFormed(e: Event) {
    (e.Reply? ==> InRing(e.id)) && (e.Sweep? ==> |e.clock| == SIZE)
  }
}
