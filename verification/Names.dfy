/** The name codec of src/common.c: str_to_label writes a host name as length-prefixed labels, fetch_label
    reads a possibly compressed name back as dotted text. */
module Names {
  import opened Options
  import opened Rfc1035

  // ----- specification functions -----

  /** The pieces of a host name between dots. */
  function Split(host: seq<byte>): (r: seq<seq<byte>>)
    ensures r != []
  {
    if host == [] then [[]]
    else
      var n := |host| - 1;
      var r := Split(host[..n]);
      if host[n] == DOT then r + [[]] else r[..|r| - 1] + [r[|r| - 1] + [host[n]]]
  }

  /** Length-prefixed labels; the length byte is a C char, so it keeps the length modulo 256. */
  function WireLabels(labels: seq<seq<byte>>): seq<byte> {
    if labels == [] then []
    else
      var n := |labels| - 1;
      WireLabels(labels[..n]) + Piece(labels[n])
  }

  function Piece(l: seq<byte>): seq<byte> {
    [|l| % 256] + l
  }

  lemma Assoc<X>(a: seq<X>, b: seq<X>, c: seq<X>)
    ensures (a + b) + c == a + (b + c)
  {
  }

  /** A name in wire form. */
  function Wire(labels: seq<seq<byte>>): seq<byte> {
    WireLabels(labels) + [0]
  }

  lemma {:induction false} SplitLength(host: seq<byte>)
    ensures |WireLabels(Split(host))| == |host| + 1
  {
    var r := Split(host);
    if host == [] {
      assert r[..0] == [];
    } else {
      var n := |host| - 1;
      SplitLength(host[..n]);
      var p := Split(host[..n]);
      if host[n] == DOT {
        assert r[..|p|] == p;
      } else {
        assert r[..|p| - 1] == p[..|p| - 1];
      }
    }
  }

  lemma {:induction false} WithDotsAppend(labels: seq<seq<byte>>, more: seq<seq<byte>>)
    ensures WithDots(labels + more) == WithDots(labels) + WithDots(more)
  {
    if labels == [] {
      assert labels + more == more;
    } else {
      assert (labels + more)[1..] == labels[1..] + more;
      WithDotsAppend(labels[1..], more);
    }
  }

  /** The pieces with one more byte that is not a dot. */
  lemma JoinOneMore(p: seq<seq<byte>>, h: seq<byte>, c: byte)
    requires p != [] && WithDots(p) == h + [DOT]
    ensures WithDots(p[..|p| - 1] + [p[|p| - 1] + [c]]) == (h + [c]) + [DOT]
  {
    hide WithDots;
    var front, last := p[..|p| - 1], p[|p| - 1];
    assert p == front + [last];
    WithDotsAppend(front, [last]);
    WithDotsAppend(front, [last + [c]]);
    WithDotsOne(last);
    WithDotsOne(last + [c]);
    DotAfter(WithDots(front), last, h, c);
  }

  /** The dots put back between the pieces give the host name again. */
  lemma {:induction false} JoinSplit(host: seq<byte>)
    ensures WithDots(Split(host)) == host + [DOT]
  {
    if host == [] {
      WithDotsOne([]);
    } else {
      var n := |host| - 1;
      JoinSplit(host[..n]);
      hide WithDots;
      var p := Split(host[..n]);
      assert host == host[..n] + [host[n]];
      if host[n] == DOT {
        WithDotsAppend(p, [[]]);
        WithDotsOne([]);
      } else {
        JoinOneMore(p, host[..n], host[n]);
      }
    }
  }

  /** No piece contains a dot ... */
  lemma {:induction false} PiecesHaveNoDot(host: seq<byte>)
    ensures DotFree(Split(host))
  {
    if host != [] {
      PiecesHaveNoDot(host[..|host| - 1]);
    }
  }

  predicate DotFree(labels: seq<seq<byte>>) {
    forall i, j :: 0 <= i < |labels| && 0 <= j < |labels[i]| ==> labels[i][j] != 46
  }

  /** ... so the pieces are the only way to cut the host at its dots. */
  lemma SplitIsTheOnlyOne(host: seq<byte>, pieces: seq<seq<byte>>)
    requires DotFree(pieces) && WithDots(pieces) == host + [DOT]
    ensures pieces == Split(host)
  {
    PiecesHaveNoDot(host);
    JoinSplit(host);
    SamePieces(pieces, Split(host));
  }

  lemma {:induction false} SamePieces(a: seq<seq<byte>>, b: seq<seq<byte>>)
    requires DotFree(a) && DotFree(b) && WithDots(a) == WithDots(b)
    ensures a == b
    decreases |a|
  {
    if a != [] && b != [] {
      var x, y := WithDots(a[1..]), WithDots(b[1..]);
      SameFirst(a[0], x, b[0], y);
      assert a == [a[0]] + a[1..] && b == [b[0]] + b[1..];
      SamePieces(a[1..], b[1..]);
    }
  }

  lemma SameFirst(a: seq<byte>, x: seq<byte>, b: seq<byte>, y: seq<byte>)
    requires DOT !in a && DOT !in b && a + [DOT] + x == b + [DOT] + y
    ensures a == b && x == y
  {
    var l, r := a + [DOT] + x, b + [DOT] + y;
    assert l[|a|] == DOT && r[|b|] == DOT && |a| == |b|;
    assert a == l[..|a|] && b == r[..|a|] && x == l[|a| + 1..] && y == r[|a| + 1..];
  }

  lemma DotAfter(front: seq<byte>, last: seq<byte>, h: seq<byte>, c: byte)
    requires front + (last + [DOT]) == h + [DOT]
    ensures front + ((last + [c]) + [DOT]) == (h + [c]) + [DOT]
  {
    assert (front + last) + [DOT] == h + [DOT];
    assert front + last == ((front + last) + [DOT])[..|front + last|];
    assert h == (h + [DOT])[..|h|];
  }

  lemma WithDotsOne(l: seq<byte>)
    ensures WithDots([l]) == l + [DOT]
  {
    assert [l][1..] == [];
    assert l + [DOT] + [] == l + [DOT];
  }

  lemma {:induction false} DottedIsWithDots(labels: seq<seq<byte>>)
    requires labels != []
    ensures WithDots(labels) == Dotted(labels) + [DOT]
  {
    if |labels| == 1 {
      WithDotsOne(labels[0]);
      assert labels == [labels[0]];
    } else {
      DottedIsWithDots(labels[1..]);
    }
  }

  lemma {:induction false} WireLabelsFront(labels: seq<seq<byte>>)
    requires labels != []
    ensures WireLabels(labels) == Piece(labels[0]) + WireLabels(labels[1..])
  {
    hide Piece;
    var n := |labels| - 1;
    if n == 0 {
      assert labels[..0] == [] && labels[1..] == [];
    } else {
      WireLabelsFront(labels[..n]);
      assert labels[..n][1..] == labels[1..][..n - 1];
      Assoc(Piece(labels[0]), WireLabels(labels[1..][..n - 1]), Piece(labels[n]));
    }
  }

  /** Every label is written by itself, in order: its length modulo 256, then its bytes. */
  lemma {:induction false} WireLabelsConcat(a: seq<seq<byte>>, b: seq<seq<byte>>)
    ensures WireLabels(a + b) == WireLabels(a) + WireLabels(b)
  {
    hide Piece;
    if b == [] {
      assert a + b == a;
    } else {
      var n := |b| - 1;
      assert (a + b)[..|a + b| - 1] == a + b[..n];
      WireLabelsConcat(a, b[..n]);
      Assoc(WireLabels(a), WireLabels(b[..n]), Piece(b[n]));
    }
  }

  lemma WireLabelsOne(l: seq<byte>)
    ensures WireLabels([l]) == [|l| % 256] + l && Wire([l]) == [|l| % 256] + l + [0]
  {
    assert [l][..0] == [];
  }

  /** Section 2.3.4: labels of 1 to 63 octets. */
  predicate LegalLabels(labels: seq<seq<byte>>) {
    forall i :: 0 <= i < |labels| ==> 1 <= |labels[i]| <= 63
  }

  /** The bytes stand in the message at a position. */
  ghost predicate Holds(msg: seq<byte>, pos: nat, bytes: seq<byte>) {
    pos + |bytes| <= |msg| && msg[pos..pos + |bytes|] == bytes
  }

  lemma HoldsAt(msg: seq<byte>, pos: nat, bytes: seq<byte>, i: nat)
    requires Holds(msg, pos, bytes) && i < |bytes|
    ensures pos + i < |msg| && msg[pos + i] == bytes[i]
  {
    assert msg[pos..pos + |bytes|][i] == msg[pos + i];
  }

  lemma HoldsSplit(msg: seq<byte>, pos: nat, a: seq<byte>, b: seq<byte>)
    requires Holds(msg, pos, a + b)
    ensures Holds(msg, pos, a) && Holds(msg, pos + |a|, b)
  {
    var ab := a + b;
    forall i | 0 <= i < |a| ensures msg[pos + i] == a[i] {
      HoldsAt(msg, pos, ab, i);
    }
    forall i | 0 <= i < |b| ensures msg[pos + |a| + i] == b[i] {
      HoldsAt(msg, pos, ab, |a| + i);
      assert ab[|a| + i] == b[i];
    }
  }

  /** The reference decoder at a zero byte. */
  lemma WalkZero(msg: seq<byte>, pos: nat, start: nat)
    requires pos < |msg| && msg[pos] == 0
    ensures Walk(msg, pos, start) == Some(Name([], pos + 1, false))
  {
  }

  /** The reference decoder at a compression pointer. */
  lemma WalkPointer(msg: seq<byte>, pos: nat, start: nat)
    requires pos < |msg| && msg[pos] >= 192 && Walk(msg, pos, start).Some?
    ensures pos + 1 < |msg|
    ensures var target := (msg[pos] as int - 192) * 256 + msg[pos + 1] as int;
            && target < start
            && var n := NameAt(msg, target);
               n.Some? && Walk(msg, pos, start) == Some(Name(n.value.labels, pos + 2, true))
  {
  }

  /** One step of the reference decoder over an ordinary label. */
  lemma WalkLabel(msg: seq<byte>, pos: nat, start: nat)
    requires pos < |msg| && 1 <= msg[pos] < 64 && pos + 1 + msg[pos] as int <= |msg|
    ensures var next := Walk(msg, pos + 1 + msg[pos] as int, start);
            Walk(msg, pos, start) ==
            match next
            case None => None
            case Some(n) => Some(Name([msg[pos + 1..pos + 1 + msg[pos] as int]] + n.labels, n.end, n.pointer))
  {
  }

  /** The reference decoder reads back a name written in wire form, wherever it stands in a message. */
  lemma {:induction false} WalkWire(msg: seq<byte>, pos: nat, start: nat, labels: seq<seq<byte>>)
    requires LegalLabels(labels) && Holds(msg, pos, Wire(labels))
    ensures Walk(msg, pos, start) == Some(Name(labels, pos + |Wire(labels)|, false))
    decreases |labels|
  {
    hide Walk, Holds, WireLabels;
    if labels == [] {
      HoldsAt(msg, pos, Wire(labels), 0);
      WireOfNone();
      WalkZero(msg, pos, start);
    } else {
      var l, rest := labels[0], labels[1..];
      WireFront(labels);
      HoldsSplit(msg, pos, [|l|], l + Wire(rest));
      HoldsAt(msg, pos, [|l|], 0);
      HoldsSplit(msg, pos + 1, l, Wire(rest));
      HeldSlice(msg, pos + 1, l);
      WalkWire(msg, pos + 1 + |l|, start, rest);
      WalkLabel(msg, pos, start);
      assert labels == [l] + rest;
    }
  }

  lemma HeldSlice(msg: seq<byte>, pos: nat, bytes: seq<byte>)
    requires Holds(msg, pos, bytes)
    ensures pos + |bytes| <= |msg| && msg[pos..pos + |bytes|] == bytes
  {
  }

  lemma WireOfNone()
    ensures Wire([]) == [0]
  {
  }

  lemma WireFront(labels: seq<seq<byte>>)
    requires labels != []
    ensures Wire(labels) == [|labels[0]| % 256] + (labels[0] + Wire(labels[1..]))
  {
    WireLabelsFront(labels);
    Assoc(Piece(labels[0]), WireLabels(labels[1..]), [0]);
    Assoc([|labels[0]| % 256], labels[0], Wire(labels[1..]));
  }
}
