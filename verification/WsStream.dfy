/** What the reader of a WebSocket connection makes of a stream of bytes, gorilla/websocket conn.go. */
module WsStream {
  import opened Bytes
  import opened Frames

  datatype ProtocolError = ReservedBits | ControlTooLong | ControlNotFinal | StartBeforeFinal | ContinuationAfterFinal
    | UnknownOpcode | IncorrectMask

  datatype ReadError = EndOfFile | UnexpectedEOF | Protocol(reason: ProtocolError) | Closed(code: nat, text: bytes)

  /** Control frames the reader asks the write half to send. */
  datatype Reply = PongReply(data: bytes) | CloseReply | ProtocolReply(reason: ProtocolError)

  const CLOSE_NO_STATUS := 1005
  const LENGTH_WRAP := 2 * MAX_LENGTH

  /** The current frame: is it final, how much of it is unread, and how to unmask the rest. */
  datatype State = State(final: bool, remaining: int, key: Option<bytes>, pos: nat) {
    predicate Valid() {
      (key.Some? ==> |key.value| == 4) && remaining < MAX_LENGTH
    }

    function Left(): nat {
      if remaining > 0 then remaining else 0
    }

    function Unmask(s: bytes): (r: bytes)
      requires Valid()
      ensures |r| == |s|
    {
      match key
      case None => s
      case Some(k) => Mask(k, pos, s)
    }

    /** After reading n more bytes of the frame. */
    function Advanced(n: nat): State {
      State(final, remaining - n, key, if key.Some? then (pos + n) % 4 else pos)
    }
  }

  // Frame headers ---------------------------------------------------------------------

  datatype Head = Head(final: bool, reserved: nat, opcode: nat, masked: bool, length: nat)

  function HeadOf(b0: byte, b1: byte): Head {
    Head(b0 >= 128, (b0 / 16) % 8, b0 % 16, b1 >= 128, b1 % 128)
  }

  function CheckHead(h: Head, final: bool): Option<ProtocolError> {
    if h.reserved != 0 then Some(ReservedBits)
    else if IsControl(h.opcode) then
      if h.length > MAX_CONTROL_PAYLOAD then Some(ControlTooLong)
      else if !h.final then Some(ControlNotFinal)
      else None
    else if IsData(h.opcode) then
      if !final then Some(StartBeforeFinal) else None
    else if h.opcode == CONTINUATION then
      if final then Some(ContinuationAfterFinal) else None
    else Some(UnknownOpcode)
  }

  /** Conversion of an unsigned 64-bit number to int64. */
  function ToInt64(n: nat): (i: int)
    requires n < LENGTH_WRAP
    ensures i < MAX_LENGTH
  {
    if n >= MAX_LENGTH then n - LENGTH_WRAP else n
  }

  function LengthSize(length: nat): nat {
    if length == 126 then 2 else if length == 127 then 8 else 0
  }

  lemma {:induction false} Pow256()
    ensures Pow(256, 2) == 65536 && Pow(256, 8) == LENGTH_WRAP
  {
    assert Pow(256, 2) == 256 * Pow(256, 1) == 256 * (256 * Pow(256, 0));
    assert Pow(256, 4) == 256 * Pow(256, 3) == 256 * (256 * Pow(256, 2));
    assert Pow(256, 6) == 256 * Pow(256, 5) == 256 * (256 * Pow(256, 4));
    assert Pow(256, 8) == 256 * Pow(256, 7) == 256 * (256 * Pow(256, 6));
  }

  function FrameLength(length: nat, ext: bytes): (n: int)
    requires length < 128 && |ext| == LengthSize(length)
    ensures n < MAX_LENGTH
  {
    Pow256();
    if length < 126 then length else ToInt64(FromBigEndian(ext))
  }

  datatype Parsed = Parsed(opcode: nat, st: State, rest: bytes) | Bad(err: ReadError)

  function ParseMask(isServer: bool, h: Head, st: State, s: bytes): Parsed {
    if h.masked != isServer then Bad(Protocol(IncorrectMask))
    else if !h.masked then Parsed(h.opcode, st, s)
    else if |s| < 4 then Bad(UnexpectedEOF)
    else Parsed(h.opcode, st.(key := Some(s[..4])), s[4..])
  }

  function ParseLength(isServer: bool, h: Head, final: bool, s: bytes): Parsed
    requires h.length < 128
  {
    var n := LengthSize(h.length);
    if |s| < n then Bad(UnexpectedEOF)
    else ParseMask(isServer, h, State(final, FrameLength(h.length, s[..n]), None, 0), s[n..])
  }

  /** A whole frame header; final says whether a message could start. */
  function ParseHeader(isServer: bool, final: bool, s: bytes): (p: Parsed)
    ensures p.Parsed? ==> |p.rest| + 2 <= |s| && p.st.Valid() && p.st.key.Some? == isServer && p.st.pos == 0
    ensures p.Parsed? ==> IsControl(p.opcode) || IsData(p.opcode) || p.opcode == CONTINUATION
    ensures p.Parsed? && IsControl(p.opcode) ==> p.st.final == final && 0 <= p.st.remaining <= MAX_CONTROL_PAYLOAD
    ensures p.Parsed? && IsData(p.opcode) ==> final
    ensures p.Parsed? && p.opcode == CONTINUATION ==> !final
  {
    if |s| < 2 then Bad(UnexpectedEOF)
    else
      var h := HeadOf(s[0], s[1]);
      match CheckHead(h, final)
      case Some(e) => Bad(Protocol(e))
      case None => ParseLength(isServer, h, if IsControl(h.opcode) then final else h.final, s[2..])
  }

  /** The first two bytes break no rule: no reserved bits, and an opcode that may come here. */
  predicate Passes(b0: byte, b1: byte, final: bool) {
    && b0 / 16 % 8 == 0
    && (b0 % 16 in {8, 9, 10} ==> b1 % 128 <= 125 && b0 >= 128)
    && (b0 % 16 in {1, 2} ==> final)
    && (b0 % 16 == 0 ==> !final)
    && b0 % 16 !in {3, 4, 5, 6, 7, 11, 12, 13, 14, 15}
  }

  /** How many bytes a longer length takes behind the first two. */
  function Extra(b1: byte): nat {
    if b1 % 128 == 126 then 2 else if b1 % 128 == 127 then 8 else 0
  }

  /** When a header is refused, and for which reason, by the bits of its first two bytes. */
  lemma {:induction false} HeaderFaults(isServer: bool, final: bool, s: bytes)
    requires |s| >= 2
    ensures var p, b0, b1 := ParseHeader(isServer, final, s), s[0], s[1];
            && (p == Bad(Protocol(ReservedBits)) <==> b0 / 16 % 8 != 0)
            && (p == Bad(Protocol(ControlTooLong)) <==> b0 / 16 % 8 == 0 && b0 % 16 in {8, 9, 10} && b1 % 128 > 125)
            && (p == Bad(Protocol(ControlNotFinal)) <==>
                  b0 / 16 % 8 == 0 && b0 % 16 in {8, 9, 10} && b1 % 128 <= 125 && b0 < 128)
            && (p == Bad(Protocol(StartBeforeFinal)) <==> b0 / 16 % 8 == 0 && b0 % 16 in {1, 2} && !final)
            && (p == Bad(Protocol(ContinuationAfterFinal)) <==> b0 / 16 % 8 == 0 && b0 % 16 == 0 && final)
            && (p == Bad(Protocol(UnknownOpcode)) <==>
                  b0 / 16 % 8 == 0 && b0 % 16 in {3, 4, 5, 6, 7, 11, 12, 13, 14, 15})
            && (p == Bad(Protocol(IncorrectMask)) <==>
                  Passes(b0, b1, final) && |s| >= 2 + Extra(b1) && (b1 >= 128) != isServer)
  {
  }

  /** The length a header announces; a 64-bit one is converted to a signed number. */
  function Announced(s: bytes): int
    requires |s| >= 2 && |s| >= 2 + Extra(s[1])
  {
    if Extra(s[1]) == 0 then s[1] % 128
    else
      var n := FromBigEndian(s[2..2 + Extra(s[1])]);
      if n >= 0x8000_0000_0000_0000 then n - 0x1_0000_0000_0000_0000 else n
  }

  /** When a header is accepted, and when it is cut short. */
  lemma {:induction false} HeaderAccepted(isServer: bool, final: bool, s: bytes)
    ensures var p := ParseHeader(isServer, final, s);
            && (p.Parsed? <==> |s| >= 2 && Passes(s[0], s[1], final) && (s[1] >= 128) == isServer
                               && |s| >= 2 + Extra(s[1]) + if isServer then 4 else 0)
            && (p == Bad(UnexpectedEOF) <==>
                  |s| < 2 || (Passes(s[0], s[1], final)
                              && (|s| < 2 + Extra(s[1]) || (isServer && s[1] >= 128 && |s| < 2 + Extra(s[1]) + 4))))
            && (p.Bad? ==> p.err == UnexpectedEOF || p.err.Protocol?)
  {
  }

  /** What an accepted header says. */
  lemma {:induction false} HeaderFields(isServer: bool, final: bool, s: bytes)
    requires ParseHeader(isServer, final, s).Parsed?
    ensures var p := ParseHeader(isServer, final, s);
            && |s| >= 2 + Extra(s[1]) + (if isServer then 4 else 0)
            && var k := 2 + Extra(s[1]);
               && p.opcode == s[0] % 16
               && p.st == State(if s[0] % 16 >= 8 then final else s[0] >= 128, Announced(s),
                                if isServer then Some(s[k..k + 4]) else None, 0)
               && p.rest == s[if isServer then k + 4 else k..]
  {
    HeaderAccepted(isServer, final, s);
    Pow256();
    var k := 2 + Extra(s[1]);
    assert s[2..][..k - 2] == s[2..k] && s[2..][k - 2..] == s[k..];
    if isServer {
      assert s[k..][..4] == s[k..k + 4] && s[k..][4..] == s[k + 4..];
    }
  }

  // One frame -------------------------------------------------------------------------

  datatype Step = Step(opcode: nat, st: State, rest: bytes, replies: seq<Reply>) | Fail(err: ReadError, replies: seq<Reply>)

  function CloseError(payload: bytes): ReadError {
    if |payload| >= 2 then Closed(FromBigEndian(payload[..2]), payload[2..]) else Closed(CLOSE_NO_STATUS, [])
  }

  function Process(opcode: nat, payload: bytes, st: State, rest: bytes): Step {
    if opcode == CLOSE then Fail(CloseError(payload), [CloseReply])
    else Step(opcode, st, rest, if opcode == PING then [PongReply(payload)] else [])
  }

  /** advanceFrame at a frame boundary. */
  function Advance(isServer: bool, final: bool, s: bytes): (r: Step)
    ensures r.Step? ==> |r.rest| < |s| && r.st.Valid() && r.st.key.Some? == isServer
    ensures r.Step? && IsData(r.opcode) ==> final
    ensures r.Step? && !IsData(r.opcode) && r.opcode != CONTINUATION ==> r.st.final == final && r.st.remaining == 0
    ensures r.Fail? ==> r.err != EndOfFile
  {
    match ParseHeader(isServer, final, s)
    case Bad(err) => Fail(err, if err.Protocol? then [ProtocolReply(err.reason)] else [])
    case Parsed(opcode, st, rest) =>
      if !IsControl(opcode) then Step(opcode, st, rest, [])
      else if |rest| < st.remaining then Fail(UnexpectedEOF, [])
      else Process(opcode, st.Unmask(rest[..st.remaining]), st.(remaining := 0), rest[st.remaining..])
  }

  // The rest of a message -------------------------------------------------------------

  datatype End = Done(rest: bytes) | Truncated | Broken(err: ReadError)

  /** What is left of the message being read, and how it ends. */
  datatype Content = Content(data: bytes, replies: seq<Reply>, end: End)

  function Prepend(data: bytes, replies: seq<Reply>, c: Content): Content {
    Content(data + c.data, replies + c.replies, c.end)
  }

  function InFrame(isServer: bool, st: State, s: bytes): (c: Content)
    requires st.Valid()
    ensures c.end.Done? ==> |c.end.rest| <= |s|
    ensures c.end.Broken? ==> c.end.err != EndOfFile
    decreases |s|, 1
  {
    var n := st.Left();
    if |s| < n then Content(st.Unmask(s), [], Truncated)
    else Prepend(st.Unmask(s[..n]), [], AtBoundary(isServer, st.final, s[n..]))
  }

  function AtBoundary(isServer: bool, final: bool, s: bytes): (c: Content)
    ensures c.end.Done? ==> |c.end.rest| <= |s|
    ensures c.end.Broken? ==> c.end.err != EndOfFile
    decreases |s|, 0
  {
    if final then Content([], [], Done(s))
    else
      match Advance(isServer, final, s)
      case Fail(err, replies) => Content([], replies, Broken(err))
      case Step(_, st, rest, replies) => Prepend([], replies, InFrame(isServer, st, rest))
  }

  lemma {:induction false} PrependTwice(d1: bytes, r1: seq<Reply>, d2: bytes, r2: seq<Reply>, c: Content)
    ensures Prepend(d1, r1, Prepend(d2, r2, c)) == Prepend(d1 + d2, r1 + r2, c)
  {
    ConcatAssoc(d1, d2, c.data);
    assert (r1 + r2) + c.replies == r1 + (r2 + c.replies);
  }

  lemma {:induction false} PrependNothing(c: Content)
    ensures Prepend([], [], c) == c
  {
  }

  lemma {:induction false} UnmaskSplit(st: State, n: nat, p: bytes, t: bytes)
    requires st.Valid() && |p| == n
    ensures st.Unmask(p + t) == st.Unmask(p) + st.Advanced(n).Unmask(t)
  {
    if st.key.Some? {
      MaskConcat(st.key.value, st.pos, p, t);
    }
  }

  lemma {:induction false} ReadPartWhole(isServer: bool, st: State, p: bytes, u: bytes, v: bytes)
    requires st.Valid() && |p| + |u| == st.Left()
    ensures InFrame(isServer, st, (p + u) + v) == Prepend(st.Unmask(p), [], InFrame(isServer, st.Advanced(|p|), u + v))
  {
    var st', c := st.Advanced(|p|), AtBoundary(isServer, st.final, v);
    assert st'.Left() == |u|;
    UnmaskSplit(st, |p|, p, u);
    SplitLeft(p + u, v, |p + u|);
    SplitLeft(u, v, |u|);
    assert (p + u)[..|p + u|] == p + u && (p + u)[|p + u|..] + v == v;
    assert u[..|u|] == u && u[|u|..] + v == v;
    PrependTwice(st.Unmask(p), [], st'.Unmask(u), [], c);
    var none: seq<Reply> := [];
    assert none + none == none;
  }

  /** However a frame is read in pieces, what was delivered followed by what is left stays the same. */
  lemma {:induction false} ReadPart(isServer: bool, st: State, p: bytes, t: bytes)
    requires st.Valid() && |p| <= st.Left()
    ensures InFrame(isServer, st, p + t) == Prepend(st.Unmask(p), [], InFrame(isServer, st.Advanced(|p|), t))
  {
    var k := st.Left() - |p|;
    if |t| >= k {
      ReadPartWhole(isServer, st, p, t[..k], t[k..]);
      TakeDrop(t, k);
      ConcatAssoc(p, t[..k], t[k..]);
    } else {
      UnmaskSplit(st, |p|, p, t);
    }
  }

  /** advanceFrame from within a frame: drops the rest of it first. */
  function StepFrom(isServer: bool, st: State, s: bytes): (r: Step)
    ensures r.Step? ==> |r.rest| < |s| && r.st.Valid()
  {
    if |s| < st.Left() then Fail(EndOfFile, []) else Advance(isServer, st.final, s[st.Left()..])
  }

  /** What a step makes of a message, after the replies rs. */
  function ContentAfter(isServer: bool, r: Step, rs: seq<Reply>): Content
    requires r.Step? ==> r.st.Valid()
  {
    match r
    case Fail(err, more) => Content([], rs + more, Broken(err))
    case Step(_, st, rest, more) => Prepend([], rs + more, InFrame(isServer, st, rest))
  }

  lemma {:induction false} FrameEnd(isServer: bool, st: State, s: bytes)
    requires st.Valid() && st.Left() == 0
    ensures InFrame(isServer, st, s) == AtBoundary(isServer, st.final, s)
  {
    assert s[0..] == s && s[..0] == [];
    PrependNothing(AtBoundary(isServer, st.final, s));
  }

  /** One step of a message reader that is not at the last frame. */
  lemma {:induction false} BoundaryStep(isServer: bool, st: State, s: bytes, rs: seq<Reply>)
    requires st.Valid() && st.Left() == 0 && !st.final
    ensures var r := StepFrom(isServer, st, s);
            Prepend([], rs, InFrame(isServer, st, s)) == ContentAfter(isServer, r, rs) && (r.Step? ==> !IsData(r.opcode))
  {
    FrameEnd(isServer, st, s);
    assert s[0..] == s;
    var r := StepFrom(isServer, st, s);
    if r.Step? {
      PrependTwice([], rs, [], r.replies, InFrame(isServer, r.st, r.rest));
    }
  }

  // The next message ------------------------------------------------------------------

  datatype Next = Started(kind: nat, st: State, rest: bytes, replies: seq<Reply>) | NoMessage(err: ReadError, replies: seq<Reply>)

  function AddReplies(replies: seq<Reply>, n: Next): Next {
    n.(replies := replies + n.replies)
  }

  /** NextReader: skips the rest of the current frame, then frames up to the start of a message. */
  function NextMessage(isServer: bool, st: State, s: bytes): (n: Next)
    ensures n.Started? ==> |n.rest| < |s| && n.st.Valid() && n.st.key.Some? == isServer && IsData(n.kind)
    decreases |s|, 1
  {
    if |s| < st.Left() then NoMessage(EndOfFile, []) else NextAt(isServer, st.final, s[st.Left()..])
  }

  function NextAt(isServer: bool, final: bool, s: bytes): (n: Next)
    ensures n.Started? ==> |n.rest| < |s| && n.st.Valid() && n.st.key.Some? == isServer && IsData(n.kind)
    decreases |s|, 0
  {
    match Advance(isServer, final, s)
    case Fail(err, replies) => NoMessage(err, replies)
    case Step(opcode, st, rest, replies) =>
      if IsData(opcode) then Started(opcode, st, rest, replies)
      else AddReplies(replies, NextMessage(isServer, st, rest))
  }

  /** NextReader after the step r. */
  function FromStep(isServer: bool, r: Step): Next
    requires r.Step? ==> r.st.Valid()
  {
    match r
    case Fail(err, replies) => NoMessage(err, replies)
    case Step(opcode, st, rest, replies) =>
      if IsData(opcode) then Started(opcode, st, rest, replies)
      else AddReplies(replies, NextMessage(isServer, st, rest))
  }

  lemma {:induction false} NextIsStep(isServer: bool, st: State, s: bytes)
    ensures NextMessage(isServer, st, s) == FromStep(isServer, StepFrom(isServer, st, s))
  {
    if |s| >= st.Left() {
      assert NextMessage(isServer, st, s) == NextAt(isServer, st.final, s[st.Left()..]);
    }
  }

  lemma {:induction false} AddTwice(r1: seq<Reply>, r2: seq<Reply>, n: Next)
    ensures AddReplies(r1, AddReplies(r2, n)) == AddReplies(r1 + r2, n)
  {
    assert (r1 + r2) + n.replies == r1 + (r2 + n.replies);
  }

  /** One step of NextReader, after the replies rs. */
  lemma {:induction false} NextStep(isServer: bool, r: Step, rs: seq<Reply>)
    requires r.Step? ==> r.st.Valid()
    ensures var n := AddReplies(rs, FromStep(isServer, r));
            match r
            case Fail(err, more) => n == NoMessage(err, rs + more)
            case Step(opcode, st, rest, more) =>
              n == if IsData(opcode) then Started(opcode, st, rest, rs + more)
                   else AddReplies(rs + more, NextMessage(isServer, st, rest))
  {
    if r.Step? && !IsData(r.opcode) {
      AddTwice(rs, r.replies, NextMessage(isServer, r.st, r.rest));
    }
  }

  /** Where NextReader arrives, given what is left of the message before. */
  function After(isServer: bool, c: Content): Next {
    match c.end
    case Done(rest) => AddReplies(c.replies, NextAt(isServer, true, rest))
    case Truncated => NoMessage(EndOfFile, c.replies)
    case Broken(err) => NoMessage(err, c.replies)
  }

  lemma {:induction false} AfterPrepend(isServer: bool, data: bytes, replies: seq<Reply>, c: Content)
    ensures After(isServer, Prepend(data, replies, c)) == AddReplies(replies, After(isServer, c))
  {
    if c.end.Done? {
      var n := NextAt(isServer, true, c.end.rest);
      assert (replies + c.replies) + n.replies == replies + (c.replies + n.replies);
    }
  }

  lemma {:induction false} AddNoReplies(n: Next)
    ensures AddReplies([], n) == n
  {
  }

  /** NextReader lands on the message boundary, however little of the message before was read. */
  lemma {:induction false} NextLands(isServer: bool, st: State, s: bytes)
    requires st.Valid()
    ensures NextMessage(isServer, st, s) == After(isServer, InFrame(isServer, st, s))
    decreases |s|, 1
  {
    var n := st.Left();
    if |s| >= n {
      BoundaryLands(isServer, st.final, s[n..]);
      AfterPrepend(isServer, st.Unmask(s[..n]), [], AtBoundary(isServer, st.final, s[n..]));
      AddNoReplies(After(isServer, AtBoundary(isServer, st.final, s[n..])));
    }
  }

  lemma {:induction false} BoundaryLands(isServer: bool, final: bool, s: bytes)
    ensures NextAt(isServer, final, s) == After(isServer, AtBoundary(isServer, final, s))
    decreases |s|, 0
  {
    if final {
      AddNoReplies(NextAt(isServer, true, s));
    } else {
      var r := Advance(isServer, final, s);
      if r.Step? {
        NextLands(isServer, r.st, r.rest);
        AfterPrepend(isServer, [], r.replies, InFrame(isServer, r.st, r.rest));
      }
    }
  }
}
