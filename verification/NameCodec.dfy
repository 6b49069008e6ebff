/** str_to_label and fetch_label of src/common.c on byte buffers. */
module NameCodec {
  import opened Options
  import opened Rfc1035
  import opened Names

  // ----- str_to_label -----

  lemma HoldsJoin(msg: seq<byte>, pos: nat, a: seq<byte>, b: seq<byte>)
    requires Holds(msg, pos, a) && Holds(msg, pos + |a|, b)
    ensures Holds(msg, pos, a + b)
  {
    forall i | 0 <= i < |a + b| ensures msg[pos + i] == (a + b)[i] {
      if i < |a| {
        HoldsAt(msg, pos, a, i);
      } else {
        HoldsAt(msg, pos + |a|, b, i - |a|);
      }
    }
  }

  lemma HoldsKept(msg: seq<byte>, msg': seq<byte>, pos: nat, bytes: seq<byte>)
    requires Holds(msg, pos, bytes) && |msg'| == |msg|
    requires forall i :: pos <= i < pos + |bytes| ==> msg'[i] == msg[i]
    ensures Holds(msg', pos, bytes)
  {
    forall i | 0 <= i < |bytes| ensures msg'[pos + i] == bytes[i] {
      HoldsAt(msg, pos, bytes, i);
    }
  }

  /** What the buffer holds after i bytes of the host: the finished labels in wire form, a gap at `lastPos`
      for the next length byte, and the label being copied. */
  ghost predicate Copied(buf: seq<byte>, d: nat, host: seq<byte>, i: nat, lastPos: nat)
    requires i <= |host|
  {
    var r := Split(host[..i]);
    var front, last := r[..|r| - 1], r[|r| - 1];
    && |WireLabels(front)| == lastPos && lastPos + |last| == i
    && Holds(buf, d, WireLabels(front)) && Holds(buf, d + lastPos + 1, last)
  }

  ghost function LastPiece(host: seq<byte>, i: nat): seq<byte>
    requires i <= |host|
  {
    var r := Split(host[..i]);
    r[|r| - 1]
  }

  lemma CloseLabel(buf: seq<byte>, d: nat, host: seq<byte>, i: nat, lastPos: nat, buf': seq<byte>)
    requires i <= |host| && Copied(buf, d, host, i, lastPos) && d + lastPos < |buf|
    requires buf' == buf[d + lastPos := |LastPiece(host, i)| % 256]
    ensures Holds(buf', d, WireLabels(Split(host[..i])))
    ensures |WireLabels(Split(host[..i]))| == i + 1
  {
    hide Holds;
    var r := Split(host[..i]);
    var front, last := r[..|r| - 1], r[|r| - 1];
    HoldsBound(buf, d, WireLabels(front));
    HoldsBound(buf, d + lastPos + 1, last);
    HoldsKept(buf, buf', d, WireLabels(front));
    HoldsKept(buf, buf', d + lastPos + 1, last);
    HoldsOne(buf', d + lastPos);
    HoldsJoin(buf', d + lastPos, [|last| % 256], last);
    HoldsJoin(buf', d, WireLabels(front), Piece(last));
    SplitLength(host[..i]);
  }

  lemma HoldsBound(msg: seq<byte>, pos: nat, bytes: seq<byte>)
    requires Holds(msg, pos, bytes)
    ensures pos + |bytes| <= |msg|
  {
  }

  lemma HoldsOne(msg: seq<byte>, pos: nat)
    requires pos < |msg|
    ensures Holds(msg, pos, [msg[pos]])
  {
  }

  lemma CopyDot(buf: seq<byte>, d: nat, host: seq<byte>, i: nat, lastPos: nat, buf': seq<byte>)
    requires i < |host| && host[i] == DOT && Copied(buf, d, host, i, lastPos) && d + i + 2 <= |buf|
    requires buf' == buf[d + lastPos := |LastPiece(host, i)| % 256]
    ensures Copied(buf', d, host, i + 1, i + 1) && LastPiece(host, i + 1) == []
  {
    CloseLabel(buf, d, host, i, lastPos, buf');
    assert host[..i + 1][..i] == host[..i];
    var r, r' := Split(host[..i]), Split(host[..i + 1]);
    assert r'[..|r'| - 1] == r;
  }

  lemma CopyByte(buf: seq<byte>, d: nat, host: seq<byte>, i: nat, lastPos: nat, buf': seq<byte>)
    requires i < |host| && host[i] != DOT && Copied(buf, d, host, i, lastPos) && d + i + 1 < |buf|
    requires buf' == buf[d + i + 1 := host[i]]
    ensures Copied(buf', d, host, i + 1, lastPos) && |LastPiece(host, i + 1)| == |LastPiece(host, i)| + 1
  {
    hide Holds;
    assert host[..i + 1][..i] == host[..i];
    var r, r' := Split(host[..i]), Split(host[..i + 1]);
    var front, last := r[..|r| - 1], r[|r| - 1];
    assert r'[..|r'| - 1] == front;
    HoldsKept(buf, buf', d, WireLabels(front));
    HoldsKept(buf, buf', d + lastPos + 1, last);
    HoldsOne(buf', d + i + 1);
    HoldsJoin(buf', d + lastPos + 1, last, [host[i]]);
  }

  lemma CopiedNone(buf: seq<byte>, d: nat, host: seq<byte>)
    ensures LastPiece(host, 0) == [] && (d + 1 <= |buf| ==> Copied(buf, d, host, 0, 0))
  {
    assert host[..0] == [];
    assert Split(host[..0])[..0] == [];
  }

  /** The last length byte and the terminator complete the wire form. */
  lemma FinishName(buf: seq<byte>, d: nat, host: seq<byte>, lastPos: nat, buf': seq<byte>)
    requires Copied(buf, d, host, |host|, lastPos) && d + |host| + 2 <= |buf| && lastPos <= |host|
    requires buf' == buf[d + lastPos := |LastPiece(host, |host|)| % 256][d + |host| + 1 := 0]
    ensures Holds(buf', d, Wire(Split(host)))
  {
    hide Holds, Copied, Split, WireLabels, LastPiece;
    var closed := buf[d + lastPos := |LastPiece(host, |host|)| % 256];
    assert host[..|host|] == host;
    CloseLabel(buf, d, host, |host|, lastPos, closed);
    HoldsKept(closed, buf', d, WireLabels(Split(host)));
    HoldsOne(buf', d + |host| + 1);
    HoldsJoin(buf', d, WireLabels(Split(host)), [0]);
  }

  /** str_to_label: write the host name as labels at dest[d..], unless it does not fit in maxlen.  The check
      is made only while bytes are left, so an empty host always fits. */
  method StrToLabel(dest: array<byte>, d: nat, host: seq<byte>, maxlen: nat) returns (r: int)
    requires d + (if |host| < maxlen || host == [] then |host| + 2 else maxlen) <= dest.Length
    modifies dest
    ensures r == if |host| < maxlen || host == [] then |host| + 2 else -1
    ensures r != -1 ==> Holds(dest[..], d, Wire(Split(host)))
    ensures forall k :: 0 <= k < dest.Length && (k < d || k >= d + if r == -1 then maxlen else r) ==> dest[k] == old(dest[k])
  {
    hide Holds, Copied, LastPiece, Split, Wire;
    var n := |host|;
    var lastPos, cumulate, i, j := 0, 0, 0, 1;
    CopiedNone(dest[..], d, host);
    while i < n && j < maxlen
      invariant i <= n && j == i + 1 && lastPos <= i && (i > 0 ==> j <= maxlen)
      invariant Copied(dest[..], d, host, i, lastPos) || dest.Length < d + 1
      invariant cumulate == |LastPiece(host, i)|
      invariant forall k :: 0 <= k < dest.Length && (k < d || k >= d + if i == 0 then 0 else j) ==> dest[k] == old(dest[k])
    {
      ghost var buf := dest[..];
      if host[i] == DOT {
        dest[d + lastPos] := cumulate % 256;
        CopyDot(buf, d, host, i, lastPos, dest[..]);
        cumulate := 0;
        lastPos := j;
      } else {
        dest[d + j] := host[i];
        CopyByte(buf, d, host, i, lastPos, dest[..]);
        cumulate := cumulate + 1;
      }
      i, j := i + 1, j + 1;
    }
    if i < n {
      return -1;
    }
    ghost var buf := dest[..];
    dest[d + lastPos] := cumulate % 256;
    dest[d + j] := 0;
    assert dest[..] == buf[d + lastPos := cumulate % 256][d + j := 0];
    FinishName(buf, d, host, lastPos, dest[..]);
    return j + 1;
  }

  // ----- fetch_label -----

  /** The dotted length of the last segment of a name; fetch_label returns one less. */
  ghost function Tail(msg: seq<byte>, pos: nat, start: nat): nat
    requires Walk(msg, pos, start).Some?
    decreases start, |msg| - pos
  {
    if msg[pos] == 0 then 0
    else if msg[pos] >= 192 then
      var target := (msg[pos] as int - 192) * 256 + msg[pos + 1] as int;
      Tail(msg, target, target)
    else
      var next := pos + 1 + msg[pos] as int;
      Tail(msg, next, start) + if Walk(msg, next, start).value.pointer then 0 else msg[pos] as int + 1
  }

  ghost function TailAt(msg: seq<byte>, pos: nat): nat
    requires NameAt(msg, pos).Some?
  {
    Tail(msg, pos, pos)
  }

  /** The effect of fetch_label on its destination: the text with its final dot replaced by a zero byte, and
      nothing else changed.  For an empty text only the byte before it becomes zero. */
  ghost predicate Written(buf': seq<byte>, buf: seq<byte>, d: nat, text: seq<byte>) {
    && |buf'| == |buf| && 1 <= d + |text| <= |buf|
    && (text != [] ==> Holds(buf', d, text[..|text| - 1]))
    && buf'[d + |text| - 1] == 0
    && forall k :: 0 <= k < |buf| && k != d + |text| - 1 && (k < d || k >= d + |text|) ==> buf'[k] == buf[k]
  }

  /** The pointer target as the source computes it: the low 14 bits of two bytes in network order. */
  function PointerAt(msg: seq<byte>, pos: nat): nat
    requires pos + 1 < |msg|
  {
    (msg[pos] as int * 256 + msg[pos + 1] as int) % 0x4000
  }

  lemma PointerTarget(msg: seq<byte>, pos: nat)
    requires pos + 1 < |msg| && msg[pos] >= 192
    ensures PointerAt(msg, pos) == (msg[pos] as int - 192) * 256 + msg[pos + 1] as int
  {
  }

  /** The name that fetch_label finds by following at most `hops` pointers, wherever they lead; every length byte
      with one of its two high bits set is taken for a pointer. */
  ghost function Fetched(msg: seq<byte>, pos: nat, hops: nat): (r: Option<Name>)
    ensures r.Some? ==> pos < r.value.end <= |msg|
    decreases hops, |msg| - pos
  {
    if pos >= |msg| then None
    else if msg[pos] == 0 then Some(Name([], pos + 1, false))
    else if msg[pos] >= 64 then
      if pos + 1 >= |msg| || hops == 0 then None
      else
        match Fetched(msg, PointerAt(msg, pos), hops - 1)
        case None => None
        case Some(n) => Some(Name(n.labels, pos + 2, true))
    else
      var len := msg[pos] as int;
      if pos + 1 + len > |msg| then None
      else
        match Fetched(msg, pos + 1 + len, hops)
        case None => None
        case Some(n) => Some(Name([msg[pos + 1..pos + 1 + len]] + n.labels, n.end, n.pointer))
  }

  /** The dotted length of the last segment of that name. */
  ghost function LastLength(msg: seq<byte>, pos: nat, hops: nat): nat
    requires Fetched(msg, pos, hops).Some?
    decreases hops, |msg| - pos
  {
    if msg[pos] == 0 then 0
    else if msg[pos] >= 64 then LastLength(msg, PointerAt(msg, pos), hops - 1)
    else
      var next := pos + 1 + msg[pos] as int;
      LastLength(msg, next, hops) + if Fetched(msg, next, hops).value.pointer then 0 else msg[pos] as int + 1
  }

  /** On a name of section 4.1.4, whose pointers lead backwards, that is the reference decoder. */
  lemma {:induction false} WalkIsFetched(msg: seq<byte>, pos: nat, start: nat, hops: nat)
    requires Walk(msg, pos, start).Some? && start <= hops
    ensures Fetched(msg, pos, hops) == Walk(msg, pos, start) && LastLength(msg, pos, hops) == Tail(msg, pos, start)
    decreases start, |msg| - pos
  {
    if msg[pos] != 0 {
      if msg[pos] >= 192 {
        PointerTarget(msg, pos);
        WalkIsFetched(msg, PointerAt(msg, pos), PointerAt(msg, pos), hops - 1);
      } else {
        WalkIsFetched(msg, pos + 1 + msg[pos] as int, start, hops);
      }
    }
  }

  /** The decoder's view of one label. */
  lemma FetchedLabel(msg: seq<byte>, pos: nat, hops: nat)
    requires pos < |msg| && 1 <= msg[pos] < 64 && Fetched(msg, pos, hops).Some?
    ensures var next := pos + 1 + msg[pos] as int;
            && next < |msg| && Fetched(msg, next, hops).Some?
            && var n := Fetched(msg, next, hops).value;
               && Fetched(msg, pos, hops) == Some(Name([msg[pos + 1..next]] + n.labels, n.end, n.pointer))
               && LastLength(msg, pos, hops) == LastLength(msg, next, hops) + if n.pointer then 0 else msg[pos] as int + 1
  {
  }

  lemma FetchedPointer(msg: seq<byte>, pos: nat, hops: nat)
    requires pos < |msg| && msg[pos] >= 64 && Fetched(msg, pos, hops).Some?
    ensures pos + 1 < |msg| && hops > 0
    ensures var target := PointerAt(msg, pos);
            && Fetched(msg, target, hops - 1).Some?
            && Fetched(msg, pos, hops) == Some(Name(Fetched(msg, target, hops - 1).value.labels, pos + 2, true))
            && LastLength(msg, pos, hops) == LastLength(msg, target, hops - 1)
  {
    hide PointerAt;
  }

  lemma FetchedZero(msg: seq<byte>, pos: nat, hops: nat)
    requires pos < |msg| && msg[pos] == 0
    ensures Fetched(msg, pos, hops) == Some(Name([], pos + 1, false)) && LastLength(msg, pos, hops) == 0
  {
  }

  /** A byte of 64 or more, and the one after it, always lead to the position in their low 14 bits, forward or backward:
      from there on it is the same name, and only the end of the segment is this one's. */
  lemma PointerIsFollowed(msg: seq<byte>, pos: nat, hops: nat)
    requires pos + 1 < |msg| && msg[pos] >= 64 && hops > 0
    ensures var target := msg[pos] as int % 64 * 256 + msg[pos + 1] as int;
            && (Fetched(msg, pos, hops).Some? <==> Fetched(msg, target, hops - 1).Some?)
            && (Fetched(msg, pos, hops).Some? ==>
                  && Fetched(msg, pos, hops) == Some(Name(Fetched(msg, target, hops - 1).value.labels, pos + 2, true))
                  && LastLength(msg, pos, hops) == LastLength(msg, target, hops - 1))
  {
    LowBits(msg[pos] as int, msg[pos + 1] as int);
    assert PointerAt(msg, pos) == msg[pos] as int % 64 * 256 + msg[pos + 1] as int;
    hide PointerAt;
  }

  lemma LowBits(hi: nat, lo: nat)
    requires hi < 256 && lo < 256
    ensures (hi * 256 + lo) % 0x4000 == hi % 64 * 256 + lo
  {
    assert hi * 256 + lo == hi / 64 * 0x4000 + (hi % 64 * 256 + lo);
  }

  /** The labels copied so far, with the rest of the segment still to come. */
  ghost predicate Progress(msg: seq<byte>, src: nat, hops: nat, now: nat, done: seq<seq<byte>>) {
    var whole, rest := Fetched(msg, src, hops), Fetched(msg, src + now, hops);
    && whole.Some? && rest.Some? && |WithDots(done)| == now
    && whole.value.labels == done + rest.value.labels
    && whole.value.end == rest.value.end && whole.value.pointer == rest.value.pointer
    && LastLength(msg, src, hops) == LastLength(msg, src + now, hops) + if rest.value.pointer then 0 else now
  }

  lemma ProgressStart(msg: seq<byte>, src: nat, hops: nat)
    requires Fetched(msg, src, hops).Some?
    ensures Progress(msg, src, hops, 0, [])
  {
    assert [] + Fetched(msg, src, hops).value.labels == Fetched(msg, src, hops).value.labels;
  }

  lemma WithDotsPush(done: seq<seq<byte>>, l: seq<byte>)
    ensures WithDots(done + [l]) == WithDots(done) + (l + [DOT])
  {
    WithDotsAppend(done, [l]);
    WithDotsOne(l);
  }

  lemma ProgressBounds(msg: seq<byte>, src: nat, hops: nat, now: nat, done: seq<seq<byte>>)
    requires Progress(msg, src, hops, now, done)
    ensures src + now < |msg|
    ensures 1 <= msg[src + now] < 64 ==> src + now + 1 + msg[src + now] as int < |msg|
    ensures now <= |WithDots(Fetched(msg, src, hops).value.labels)|
    ensures msg[src + now] == 0 ==> now == |WithDots(Fetched(msg, src, hops).value.labels)|
    ensures 1 <= msg[src + now] < 64 ==> now + 1 + msg[src + now] as int <= |WithDots(Fetched(msg, src, hops).value.labels)|
  {
    hide LastLength;
    WithDotsAppend(done, Fetched(msg, src + now, hops).value.labels);
  }

  lemma ProgressLabel(msg: seq<byte>, src: nat, hops: nat, now: nat, done: seq<seq<byte>>)
    requires Progress(msg, src, hops, now, done) && src + now < |msg| && 1 <= msg[src + now] < 64
    ensures src + now + 1 + msg[src + now] as int < |msg|
    ensures var len := msg[src + now] as int;
            var l := msg[src + now + 1..src + now + 1 + len];
            Progress(msg, src, hops, now + len + 1, done + [l]) && WithDots(done + [l]) == WithDots(done) + (l + [DOT])
  {
    hide Fetched, LastLength, WithDots;
    var pos := src + now;
    FetchedLabel(msg, pos, hops);
    var len := msg[pos] as int;
    var l := msg[pos + 1..pos + 1 + len];
    WithDotsPush(done, l);
    Assoc(done, [l], Fetched(msg, pos + 1 + len, hops).value.labels);
  }

  /** The name ends at a zero byte: everything was copied in this segment. */
  lemma ProgressEnd(msg: seq<byte>, src: nat, hops: nat, now: nat, done: seq<seq<byte>>, buf: seq<byte>, buf0: seq<byte>, d: nat)
    requires Progress(msg, src, hops, now, done) && src + now < |msg| && msg[src + now] == 0
    requires |buf0| == |buf| && 1 <= d + now <= |buf| && Holds(buf, d, WithDots(done))
    requires forall k :: 0 <= k < |buf| && (k < d || k >= d + now) ==> buf[k] == buf0[k]
    ensures var name := Fetched(msg, src, hops).value;
            && !name.pointer && name.end == src + now + 1 && LastLength(msg, src, hops) == now
            && Written(buf[d + now - 1 := 0], buf0, d, WithDots(name.labels))
  {
    hide Fetched, LastLength;
    FetchedZero(msg, src + now, hops);
    assert done + [] == done;
    var text := WithDots(done);
    if text != [] {
      assert text == text[..now - 1] + [text[now - 1]];
      HoldsSplit(buf, d, text[..now - 1], [text[now - 1]]);
      HoldsKept(buf, buf[d + now - 1 := 0], d, text[..now - 1]);
    }
  }

  /** The name goes on at a pointer target, copied after what this segment gave. */
  lemma ProgressJump(msg: seq<byte>, src: nat, hops: nat, now: nat, done: seq<seq<byte>>)
    requires Progress(msg, src, hops, now, done) && src + now < |msg| && msg[src + now] >= 64
    ensures src + now + 1 < |msg| && hops > 0
    ensures var target := PointerAt(msg, src + now);
            && Fetched(msg, target, hops - 1).Some?
            && var name, rest := Fetched(msg, src, hops).value, Fetched(msg, target, hops - 1).value;
               && name.pointer && name.end == src + now + 2 && LastLength(msg, src, hops) == LastLength(msg, target, hops - 1)
               && WithDots(name.labels) == WithDots(done) + WithDots(rest.labels)
  {
    hide PointerAt, Fetched, LastLength, WithDots;
    FetchedPointer(msg, src + now, hops);
    WithDotsAppend(done, Fetched(msg, PointerAt(msg, src + now), hops - 1).value.labels);
  }

  lemma WrittenAfter(buf2: seq<byte>, buf1: seq<byte>, buf0: seq<byte>, d: nat, a: seq<byte>, b: seq<byte>)
    requires Written(buf2, buf1, d + |a|, b) && Holds(buf1, d, a) && |buf0| == |buf1|
    requires forall k :: 0 <= k < |buf0| && (k < d || k >= d + |a|) ==> buf1[k] == buf0[k]
    ensures Written(buf2, buf0, d, a + b)
  {
    var text := a + b;
    if b != [] {
      assert text[..|text| - 1] == a + b[..|b| - 1];
      HoldsKept(buf1, buf2, d, a);
      HoldsJoin(buf2, d, a, b[..|b| - 1]);
    } else {
      assert text == a;
      if a != [] {
        assert a == a[..|a| - 1] + [a[|a| - 1]];
        HoldsSplit(buf1, d, a[..|a| - 1], [a[|a| - 1]]);
        HoldsKept(buf1, buf2, d, a[..|a| - 1]);
      }
    }
  }

  lemma StartHolds(buf: seq<byte>, d: nat)
    requires d <= |buf|
    ensures Holds(buf, d, WithDots([])) && WithDots([]) == []
  {
  }

  /** The inner loop of fetch_label: copy one label and add a dot. */
  method CopyLabel(dest: array<byte>, at: nat, msg: seq<byte>, pos: nat)
    requires pos < |msg| && pos + 1 + msg[pos] as int <= |msg| && at + msg[pos] as int + 1 <= dest.Length
    modifies dest
    ensures Holds(dest[..], at, msg[pos + 1..pos + 1 + msg[pos] as int] + [DOT])
    ensures forall k :: 0 <= k < dest.Length && (k < at || k > at + msg[pos] as int) ==> dest[k] == old(dest[k])
  {
    var len := msg[pos] as int;
    var i := at;
    for j := 1 to len + 1
      invariant i == at + j - 1
      invariant dest[at..i] == msg[pos + 1..pos + j]
      invariant forall k :: 0 <= k < dest.Length && (k < at || k > at + len) ==> dest[k] == old(dest[k])
    {
      dest[i] := msg[pos + j];
      assert dest[at..i + 1] == dest[at..i] + [msg[pos + j]];
      i := i + 1;
    }
    dest[i] := DOT;
    assert dest[at..i + 1] == dest[at..i] + [DOT];
  }

  /** The state of fetch_label's loop: the labels copied so far stand at dest[d..], and the rest is untouched. */
  ghost predicate Fetching(buf: seq<byte>, buf0: seq<byte>, d: nat, msg: seq<byte>, src: nat, hops: nat, now: nat, done: seq<seq<byte>>) {
    && Progress(msg, src, hops, now, done) && |WithDots(done)| == now
    && |buf| == |buf0| && Holds(buf, d, WithDots(done))
    && forall k :: 0 <= k < |buf| && (k < d || k >= d + now) ==> buf[k] == buf0[k]
  }

  lemma FetchStart(buf: seq<byte>, d: nat, msg: seq<byte>, src: nat, hops: nat)
    requires Fetched(msg, src, hops).Some? && d <= |buf|
    ensures Fetching(buf, buf, d, msg, src, hops, 0, [])
  {
    hide Fetched, Progress;
    ProgressStart(msg, src, hops);
    StartHolds(buf, d);
  }

  /** One more label, after CopyLabel. */
  lemma FetchMore(buf: seq<byte>, buf': seq<byte>, buf0: seq<byte>, d: nat, msg: seq<byte>, src: nat, hops: nat, now: nat, done: seq<seq<byte>>)
    requires Fetching(buf, buf0, d, msg, src, hops, now, done) && src + now < |msg| && 1 <= msg[src + now] < 64
    requires src + now + 1 + msg[src + now] as int <= |msg| && |buf'| == |buf|
    requires var len := msg[src + now] as int;
             && Holds(buf', d + now, msg[src + now + 1..src + now + 1 + len] + [DOT])
             && forall k :: 0 <= k < |buf| && (k < d + now || k > d + now + len) ==> buf'[k] == buf[k]
    ensures var len := msg[src + now] as int;
            Fetching(buf', buf0, d, msg, src, hops, now + len + 1, done + [msg[src + now + 1..src + now + 1 + len]])
  {
    var len := msg[src + now] as int;
    var l := msg[src + now + 1..src + now + 1 + len];
    ProgressLabel(msg, src, hops, now, done);
    hide Progress, Holds, WithDots;
    HoldsKept(buf, buf', d, WithDots(done));
    HoldsJoin(buf', d, WithDots(done), l + [DOT]);
  }

  /** The name ended here. */
  lemma FetchEnd(buf: seq<byte>, buf0: seq<byte>, d: nat, msg: seq<byte>, src: nat, hops: nat, now: nat, done: seq<seq<byte>>)
    requires Fetching(buf, buf0, d, msg, src, hops, now, done) && src + now < |msg| && msg[src + now] == 0 && 1 <= d + now <= |buf|
    ensures Fetched(msg, src, hops).Some?
    ensures var name := Fetched(msg, src, hops).value;
            && !name.pointer && name.end == src + now + 1 && LastLength(msg, src, hops) == now
            && Written(buf[d + now - 1 := 0], buf0, d, WithDots(name.labels))
  {
    hide Written, Fetched, LastLength, WithDots;
    ProgressEnd(msg, src, hops, now, done, buf, buf0, d);
  }

  /** The rest was fetched through a pointer. */
  lemma FetchJumped(buf: seq<byte>, buf': seq<byte>, buf0: seq<byte>, d: nat, msg: seq<byte>, src: nat, hops: nat, now: nat,
                    done: seq<seq<byte>>, target: nat)
    requires Fetching(buf, buf0, d, msg, src, hops, now, done) && src + now + 1 < |msg| && msg[src + now] >= 64 && hops > 0
    requires target == PointerAt(msg, src + now) && Fetched(msg, target, hops - 1).Some?
    requires Written(buf', buf, d + now, WithDots(Fetched(msg, target, hops - 1).value.labels))
    ensures Fetched(msg, src, hops).Some?
    ensures var name := Fetched(msg, src, hops).value;
            && name.pointer && name.end == src + now + 2 && LastLength(msg, src, hops) == LastLength(msg, target, hops - 1)
            && Written(buf', buf0, d, WithDots(name.labels))
  {
    hide PointerAt, Written, Holds, WithDots, Fetched, LastLength;
    ProgressJump(msg, src, hops, now, done);
    WrittenAfter(buf', buf, buf0, d, WithDots(done), WithDots(Fetched(msg, target, hops - 1).value.labels));
  }

  /** Where a fetch stands in the message and in the text. */
  lemma FetchBounds(buf: seq<byte>, buf0: seq<byte>, d: nat, msg: seq<byte>, src: nat, hops: nat, now: nat, done: seq<seq<byte>>)
    requires Fetching(buf, buf0, d, msg, src, hops, now, done)
    ensures Fetched(msg, src, hops).Some?
    ensures var total := |WithDots(Fetched(msg, src, hops).value.labels)|;
            && src + now < |msg| && now <= total
            && (msg[src + now] == 0 ==> now == total)
            && (1 <= msg[src + now] < 64 ==> src + now + 1 + msg[src + now] as int < |msg| && now + 1 + msg[src + now] as int <= total)
            && (msg[src + now] >= 64 ==>
                 && src + now + 1 < |msg| && hops > 0
                 && var target := PointerAt(msg, src + now);
                    Fetched(msg, target, hops - 1).Some? && total == now + |WithDots(Fetched(msg, target, hops - 1).value.labels)|)
  {
    hide PointerAt, Holds, WithDots, Fetched, LastLength;
    ProgressBounds(msg, src, hops, now, done);
    if msg[src + now] >= 64 {
      ProgressJump(msg, src, hops, now, done);
    }
  }

  /** fetch_label, on a message that fits its signed short counters and a name that `hops` pointers are enough for.  It
      writes the dotted name, reports the end of the first segment (two past a pointer, but at the zero byte of a
      plain name) and returns one less than the text length of the last segment. */
  method FetchLabel(dest: array<byte>, d: nat, msg: seq<byte>, src: nat, ghost hops: nat) returns (n: int, next: nat)
    requires |msg| <= 32767 && Fetched(msg, src, hops).Some?
    requires 1 <= d + |WithDots(Fetched(msg, src, hops).value.labels)| <= dest.Length
    modifies dest
    ensures Written(dest[..], old(dest[..]), d, WithDots(Fetched(msg, src, hops).value.labels))
    ensures var name := Fetched(msg, src, hops).value;
            n == LastLength(msg, src, hops) - 1 && next == if name.pointer then name.end else name.end - 1
    decreases hops
  {
    hide Fetched, LastLength, WithDots, Written, Fetching, PointerAt, Holds;
    var now, i := 0, 0;
    ghost var done: seq<seq<byte>> := [];
    ghost var buf0 := dest[..];
    FetchStart(buf0, d, msg, src, hops);
    FetchBounds(buf0, buf0, d, msg, src, hops, now, done);
    while msg[src + now] != 0
      invariant i == now <= |msg| && src + now < |msg| && Fetching(dest[..], buf0, d, msg, src, hops, now, done)
      decreases |msg| - now
    {
      FetchBounds(dest[..], buf0, d, msg, src, hops, now, done);
      ghost var before := dest[..];
      if msg[src + now] >= 64 {
        var pos := PointerAt(msg, src + now);
        next := src + now + 2;
        var ignored;
        n, ignored := FetchLabel(dest, d + i, msg, pos, hops - 1);
        FetchJumped(before, dest[..], buf0, d, msg, src, hops, now, done, pos);
        return;
      }
      CopyLabel(dest, d + i, msg, src + now);
      FetchMore(before, dest[..], buf0, d, msg, src, hops, now, done);
      done := done + [msg[src + now + 1..src + now + 1 + msg[src + now] as int]];
      i := i + msg[src + now] as int + 1;
      now := now + msg[src + now] as int + 1;
      FetchBounds(dest[..], buf0, d, msg, src, hops, now, done);
    }
    FetchBounds(dest[..], buf0, d, msg, src, hops, now, done);
    FetchEnd(dest[..], buf0, d, msg, src, hops, now, done);
    ghost var last := dest[..];
    dest[d + i - 1] := 0;
    assert dest[..] == last[d + now - 1 := 0];
    next := src + now;
    n := i - 1;
  }

  /** The same on a name of section 4.1.4: as many hops as the position of the name are enough. */
  method FetchBackward(dest: array<byte>, d: nat, msg: seq<byte>, src: nat) returns (n: int, next: nat)
    requires |msg| <= 32767 && NameAt(msg, src).Some?
    requires 1 <= d + |WithDots(NameAt(msg, src).value.labels)| <= dest.Length
    modifies dest
    ensures Written(dest[..], old(dest[..]), d, WithDots(NameAt(msg, src).value.labels))
    ensures var name := NameAt(msg, src).value;
            n == TailAt(msg, src) - 1 && next == if name.pointer then name.end else name.end - 1
  {
    WalkIsFetched(msg, src, src, src);
    hide Walk, Fetched, LastLength, Tail, WithDots, Written;
    n, next := FetchLabel(dest, d, msg, src, src);
  }

  // ----- round trip -----

  /** A host whose pieces are 1 to 63 bytes long decodes from its wire form to itself, wherever it stands. */
  lemma HostDecodes(msg: seq<byte>, pos: nat, host: seq<byte>)
    requires LegalLabels(Split(host)) && Holds(msg, pos, Wire(Split(host)))
    ensures NameAt(msg, pos) == Some(Name(Split(host), pos + |host| + 2, false))
    ensures Dotted(Split(host)) == host && WithDots(Split(host)) == host + [DOT]
  {
    hide Walk, Holds, WireLabels, WithDots, Dotted, Split;
    WalkWire(msg, pos, pos, Split(host));
    SplitLength(host);
    JoinSplit(host);
    DottedIsWithDots(Split(host));
    assert host == (host + [DOT])[..|host|];
  }

  /** fetch_label after str_to_label gives every such host back, for any length the counters allow. */
  method HostRoundTrip(host: seq<byte>) returns (text: array<byte>)
    requires LegalLabels(Split(host)) && |host| <= 32765
    ensures text.Length == |host| + 1 && text[..] == host + [0]
  {
    hide Walk, NameAt, Holds, Written, Wire, WithDots, Split;
    var wire := new byte[|host| + 2];
    var r := StrToLabel(wire, 0, host, |host| + 1);
    HostDecodes(wire[..], 0, host);
    text := new byte[|host| + 1];
    ghost var before := text[..];
    var n, next := FetchBackward(text, 0, wire[..], 0);
    WrittenText(text[..], before, host);
  }

  lemma WrittenText(buf: seq<byte>, buf0: seq<byte>, host: seq<byte>)
    requires Written(buf, buf0, 0, host + [DOT]) && |buf| == |host| + 1
    ensures buf == host + [0]
  {
    assert (host + [DOT])[..|host|] == host;
    HeldSlice(buf, 0, host);
    assert buf == buf[..|host|] + [buf[|host|]];
  }
}
