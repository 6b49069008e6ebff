/** The message format of RFC 1035 sections 4.1.1 to 4.1.4 as a decoder over bytes, independent of the
    code in src/common.c.  AAAA records follow RFC 3596 section 2. */
module Rfc1035 {
  import opened Options

  type byte = x: int | 0 <= x < 256

  const TYPE_A: nat := 1
  const TYPE_AAAA: nat := 28
  const DOT: byte := 46

  function U16(msg: seq<byte>, pos: nat): (r: nat)
    requires pos + 2 <= |msg|
    ensures r < 0x1_0000
  {
    msg[pos] as int * 256 + msg[pos + 1] as int
  }

  function U32(msg: seq<byte>, pos: nat): (r: nat)
    requires pos + 4 <= |msg|
    ensures r < 0x1_0000_0000
  {
    U16(msg, pos) * 0x1_0000 + U16(msg, pos + 2)
  }

  /** A domain name read from a message.  `end` is the position after its first segment, and `pointer` tells
      whether that segment ends in a compression pointer. */
  datatype Name = Name(labels: seq<seq<byte>>, end: nat, pointer: bool)

  /** Section 4.1.4: labels up to a zero byte, or up to a pointer to a prior occurrence.  `start` is where
      the current segment began; a pointer must lead before it. */
  function Walk(msg: seq<byte>, pos: nat, start: nat): (r: Option<Name>)
    ensures r.Some? ==> pos < r.value.end <= |msg|
    decreases start, |msg| - pos
  {
    if pos >= |msg| then None
    else if msg[pos] == 0 then Some(Name([], pos + 1, false))
    else if msg[pos] >= 192 then
      if pos + 1 >= |msg| then None
      else
        var target := (msg[pos] as int - 192) * 256 + msg[pos + 1] as int;
        if target >= start then None
        else
          match Walk(msg, target, target)
          case None => None
          case Some(n) => Some(Name(n.labels, pos + 2, true))
    else
      var len := msg[pos] as int;
      if len >= 64 || pos + 1 + len > |msg| then None
      else
        match Walk(msg, pos + 1 + len, start)
        case None => None
        case Some(n) => Some(Name([msg[pos + 1..pos + 1 + len]] + n.labels, n.end, n.pointer))
  }

  function NameAt(msg: seq<byte>, pos: nat): (r: Option<Name>)
    ensures r.Some? ==> pos < r.value.end <= |msg|
  {
    Walk(msg, pos, pos)
  }

  /** Section 4.1.2. */
  datatype Question = Question(name: seq<seq<byte>>, qtype: nat, qclass: nat)

  /** Section 4.1.3. */
  datatype Record = Record(owner: seq<seq<byte>>, rtype: nat, rclass: nat, ttl: nat, rdata: seq<byte>)

  /** The question at a position, and the position after it. */
  function QuestionAt(msg: seq<byte>, pos: nat): (r: Option<(Question, nat)>)
    ensures r.Some? ==> pos < r.value.1 <= |msg|
  {
    match NameAt(msg, pos)
    case None => None
    case Some(n) =>
      if n.end + 4 > |msg| then None
      else Some((Question(n.labels, U16(msg, n.end), U16(msg, n.end + 2)), n.end + 4))
  }

  /** The resource record at a position, and the position after it. */
  function RecordAt(msg: seq<byte>, pos: nat): (r: Option<(Record, nat)>)
    ensures r.Some? ==> pos < r.value.1 <= |msg|
  {
    match NameAt(msg, pos)
    case None => None
    case Some(n) =>
      if n.end + 10 > |msg| then None
      else
        var len := U16(msg, n.end + 8);
        if n.end + 10 + len > |msg| then None
        else
          Some((Record(n.labels, U16(msg, n.end), U16(msg, n.end + 2), U32(msg, n.end + 4), msg[n.end + 10..n.end + 10 + len]),
                n.end + 10 + len))
  }

  function Questions(msg: seq<byte>, pos: nat, count: nat): Option<(seq<Question>, nat)>
    decreases count
  {
    if count == 0 then Some(([], pos))
    else
      match QuestionAt(msg, pos)
      case None => None
      case Some((q, next)) =>
        match Questions(msg, next, count - 1)
        case None => None
        case Some((rest, end)) => Some(([q] + rest, end))
  }

  function Records(msg: seq<byte>, pos: nat, count: nat): Option<(seq<Record>, nat)>
    decreases count
  {
    if count == 0 then Some(([], pos))
    else
      match RecordAt(msg, pos)
      case None => None
      case Some((r, next)) =>
        match Records(msg, next, count - 1)
        case None => None
        case Some((rest, end)) => Some(([r] + rest, end))
  }

  datatype Message = Message(id: nat, flags: nat, questions: seq<Question>, answers: seq<Record>,
                             authority: seq<Record>, additional: seq<Record>)

  /** The three record sections (section 4.1), one after the other. */
  function Sections(msg: seq<byte>, pos: nat, answers: nat, authority: nat, additional: nat): Option<(seq<Record>, seq<Record>, seq<Record>, nat)> {
    match Records(msg, pos, answers)
    case None => None
    case Some((an, p1)) =>
      match Records(msg, p1, authority)
      case None => None
      case Some((ns, p2)) =>
        match Records(msg, p2, additional)
        case None => None
        case Some((ar, end)) => Some((an, ns, ar, end))
  }

  /** A whole message: header (section 4.1.1), questions, the record sections, and nothing after them. */
  function Decode(msg: seq<byte>): Option<Message> {
    if |msg| < 12 then None
    else
      match Questions(msg, 12, U16(msg, 4))
      case None => None
      case Some((qs, p)) =>
        match Sections(msg, p, U16(msg, 6), U16(msg, 8), U16(msg, 10))
        case None => None
        case Some((an, ns, ar, end)) =>
          if end == |msg| then Some(Message(U16(msg, 0), U16(msg, 2), qs, an, ns, ar)) else None
  }

  /** The dotted text of a name, each label followed by a dot. */
  function WithDots(labels: seq<seq<byte>>): seq<byte> {
    if labels == [] then [] else labels[0] + [DOT] + WithDots(labels[1..])
  }

  /** The dotted text of a name, as users write it. */
  function Dotted(labels: seq<seq<byte>>): seq<byte>
    requires labels != []
  {
    if |labels| == 1 then labels[0] else labels[0] + [DOT] + Dotted(labels[1..])
  }
}
