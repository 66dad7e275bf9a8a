/** What a reader delivers are the messages of the frames on the wire: the two halves of conn.go together. */
module WsRoundTrip {
  import opened Bytes
  import opened Frames
  import opened WsStream

  // The frames of a stream ------------------------------------------------------------

  /** The frame whose header was parsed, when all of its payload is there. */
  function Whole(p: Parsed): (f: Frame)
    requires p.Parsed? && p.st.Valid() && p.st.Left() <= |p.rest|
  {
    Frame(IsControl(p.opcode) || p.st.final, p.opcode, p.st.key, p.st.Unmask(p.rest[..p.st.Left()]))
  }

  function Behind(p: Parsed): bytes
    requires p.Parsed? && p.st.Left() <= |p.rest|
  {
    p.rest[p.st.Left()..]
  }

  /** The frames a reader accepts, up to a close frame, an error or the end; final says whether a message could start. */
  function FramesOf(isServer: bool, final: bool, s: bytes): seq<Frame>
    decreases |s|
  {
    var p := ParseHeader(isServer, final, s);
    if p.Bad? || |p.rest| < p.st.Left() then []
    else if p.opcode == CLOSE then [Whole(p)]
    else [Whole(p)] + FramesOf(isServer, p.st.final, Behind(p))
  }

  function RepliesTo(fs: seq<Frame>): seq<Reply> {
    if fs == [] then [] else
      (if fs[0].opcode == PING then [PongReply(fs[0].payload)]
       else if fs[0].opcode == CLOSE then [CloseReply]
       else []) + RepliesTo(fs[1..])
  }

  // A reading session -----------------------------------------------------------------

  datatype SessionEnd = Ended(err: ReadError) | CutShort(m: Message)

  /** Every message in full, what was answered, and how it ended; CutShort is a message that stopped inside a frame. */
  datatype Session = Session(messages: seq<Message>, replies: seq<Reply>, end: SessionEnd)

  function Join(messages: seq<Message>, replies: seq<Reply>, rest: Session): Session {
    Session(messages + rest.messages, replies + rest.replies, rest.end)
  }

  /** NextReader and reading each message to its end, over and over, from a message boundary. */
  function SessionAt(isServer: bool, s: bytes): Session
    decreases |s| + 1, 0
  {
    SessionOf(isServer, NextAt(isServer, true, s))
  }

  function SessionOf(isServer: bool, n: Next): Session
    requires n.Started? ==> n.st.Valid()
    decreases if n.Started? then |n.rest| + 1 else 0, 2
  {
    match n
    case NoMessage(err, replies) => Session([], replies, Ended(err))
    case Started(kind, st, rest, replies) =>
      Join([], replies, SessionIn(isServer, Message(kind, []), InFrame(isServer, st, rest)))
  }

  /** From within the message m, of which c is left. */
  function SessionIn(isServer: bool, m: Message, c: Content): Session
    decreases if c.end.Done? then |c.end.rest| + 1 else 0, 1
  {
    match c.end
    case Done(rest) => Join([Message(m.kind, m.data + c.data)], c.replies, SessionAt(isServer, rest))
    case Truncated => Session([], c.replies, CutShort(Message(m.kind, m.data + c.data)))
    case Broken(err) => Session([], c.replies, Ended(err))
  }

  function SessionFrom(isServer: bool, open: Option<Message>, s: bytes): Session {
    match open
    case None => SessionAt(isServer, s)
    case Some(m) => SessionIn(isServer, m, AtBoundary(isServer, false, s))
  }

  lemma {:induction false} JoinNothing(x: Session)
    ensures Join([], [], x) == x
  {
  }

  lemma {:induction false} JoinTwice(m1: seq<Message>, r1: seq<Reply>, m2: seq<Message>, r2: seq<Reply>, x: Session)
    ensures Join(m1, r1, Join(m2, r2, x)) == Join(m1 + m2, r1 + r2, x)
  {
    assert (m1 + m2) + x.messages == m1 + (m2 + x.messages);
    assert (r1 + r2) + x.replies == r1 + (r2 + x.replies);
  }

  lemma {:induction false} SessionPrepend(isServer: bool, m: Message, data: bytes, replies: seq<Reply>, c: Content)
    ensures SessionIn(isServer, m, Prepend(data, replies, c)) ==
            Join([], replies, SessionIn(isServer, Message(m.kind, m.data + data), c))
  {
    ConcatAssoc(m.data, data, c.data);
    if c.end.Done? {
      var done := Message(m.kind, m.data + data + c.data);
      var none: seq<Message> := [];
      JoinTwice([], replies, [done], c.replies, SessionAt(isServer, c.end.rest));
      assert none + [done] == [done];
    }
  }

  lemma {:induction false} SessionNext(isServer: bool, replies: seq<Reply>, n: Next)
    requires n.Started? ==> n.st.Valid()
    ensures SessionOf(isServer, AddReplies(replies, n)) == Join([], replies, SessionOf(isServer, n))
  {
    if n.Started? {
      JoinTwice([], replies, [], n.replies, SessionIn(isServer, Message(n.kind, []), InFrame(isServer, n.st, n.rest)));
      var none: seq<Message> := [];
      assert none + none == none;
    }
  }

  // One frame of a session ------------------------------------------------------------

  /** What one more frame adds to the messages already whole. */
  function Finished(open: Option<Message>, f: Frame): seq<Message> {
    Feed(Assembly([], open, false), f).done
  }

  function OpenAfter(open: Option<Message>, f: Frame): Option<Message> {
    Feed(Assembly([], open, false), f).open
  }

  lemma {:induction false} FeedSplit(a: Assembly, f: Frame)
    requires !a.closed
    ensures Feed(a, f) == Assembly(a.done + Finished(a.open, f), OpenAfter(a.open, f), f.opcode == CLOSE)
  {
    var none: seq<Message> := [];
    assert a.done + none == a.done;
  }

  lemma {:induction false} PayloadFrame(isServer: bool, p: Parsed)
    requires p.Parsed? && p.st.Valid() && p.st.Left() <= |p.rest|
    ensures InFrame(isServer, p.st, p.rest) == Prepend(Whole(p).payload, [], AtBoundary(isServer, p.st.final, Behind(p)))
  {
  }

  /** The reader has taken the payload of a data frame of the message m. */
  lemma {:induction false} SessionData(isServer: bool, m: Message, p: Parsed)
    requires p.Parsed? && p.st.Valid() && p.st.Left() <= |p.rest|
    ensures var now := Message(m.kind, m.data + Whole(p).payload);
            SessionIn(isServer, m, InFrame(isServer, p.st, p.rest)) ==
            if p.st.final then Join([now], [], SessionAt(isServer, Behind(p)))
            else SessionFrom(isServer, Some(now), Behind(p))
  {
    var payload := Whole(p).payload;
    var now := Message(m.kind, m.data + payload);
    var c := AtBoundary(isServer, p.st.final, Behind(p));
    PayloadFrame(isServer, p);
    SessionPrepend(isServer, m, payload, [], c);
    JoinNothing(SessionIn(isServer, now, c));
    assert now.data + [] == now.data;
  }

  /** A ping or a pong takes the reader from one frame boundary to the next. */
  lemma {:induction false} ControlStep(isServer: bool, final: bool, s: bytes, p: Parsed)
    requires p == ParseHeader(isServer, final, s) && p.Parsed? && IsControl(p.opcode) && p.opcode != CLOSE
    requires p.st.Left() <= |p.rest|
    ensures var replies := RepliesTo([Whole(p)]);
            Advance(isServer, final, s) == Step(p.opcode, p.st.(remaining := 0), Behind(p), replies)
  {
    assert [Whole(p)][1..] == [];
  }

  lemma {:induction false} SessionControl(isServer: bool, open: Option<Message>, s: bytes, p: Parsed)
    requires p == ParseHeader(isServer, open.None?, s) && p.Parsed? && IsControl(p.opcode) && p.opcode != CLOSE
    requires p.st.Left() <= |p.rest|
    ensures SessionFrom(isServer, open, s) == Join([], RepliesTo([Whole(p)]), SessionFrom(isServer, open, Behind(p)))
  {
    ControlStep(isServer, open.None?, s, p);
    var st, rest, replies := p.st.(remaining := 0), Behind(p), RepliesTo([Whole(p)]);
    assert rest[0..] == rest;
    if open.None? {
      assert NextMessage(isServer, st, rest) == NextAt(isServer, true, rest);
      SessionNext(isServer, replies, NextAt(isServer, true, rest));
    } else {
      var c := AtBoundary(isServer, false, rest);
      assert InFrame(isServer, st, rest) == Prepend([], [], c);
      PrependNothing(c);
      SessionPrepend(isServer, open.value, [], replies, c);
      assert open.value.data + [] == open.value.data;
    }
  }

  lemma {:induction false} AfterData(isServer: bool, now: Message, final: bool, t: bytes,
      finished: seq<Message>, open: Option<Message>)
    requires finished == (if final then [now] else []) && open == if final then None else Some(now)
    ensures (if final then Join([now], [], SessionAt(isServer, t)) else SessionFrom(isServer, Some(now), t)) ==
            Join(finished, [], SessionFrom(isServer, open, t))
  {
    JoinNothing(SessionFrom(isServer, open, t));
  }

  lemma {:induction false} Began(f: Frame)
    requires IsData(f.opcode)
    ensures var now := Message(f.opcode, f.payload);
            && Finished(None, f) == (if f.final then [now] else [])
            && OpenAfter(None, f) == (if f.final then None else Some(now))
  {
  }

  lemma {:induction false} StartStep(isServer: bool, s: bytes, p: Parsed)
    requires p == ParseHeader(isServer, true, s) && p.Parsed? && !IsControl(p.opcode)
    ensures SessionAt(isServer, s) == SessionIn(isServer, Message(p.opcode, []), InFrame(isServer, p.st, p.rest))
  {
    assert NextAt(isServer, true, s) == Started(p.opcode, p.st, p.rest, []);
    JoinNothing(SessionIn(isServer, Message(p.opcode, []), InFrame(isServer, p.st, p.rest)));
  }

  lemma {:induction false} SessionStart(isServer: bool, s: bytes, p: Parsed)
    requires p == ParseHeader(isServer, true, s) && p.Parsed? && !IsControl(p.opcode)
    requires p.st.Left() <= |p.rest|
    ensures SessionAt(isServer, s) ==
            Join(Finished(None, Whole(p)), [], SessionFrom(isServer, OpenAfter(None, Whole(p)), Behind(p)))
  {
    var now := Message(p.opcode, Whole(p).payload);
    StartStep(isServer, s, p);
    Began(Whole(p));
    SessionData(isServer, Message(p.opcode, []), p);
    assert [] + Whole(p).payload == Whole(p).payload;
    AfterData(isServer, now, p.st.final, Behind(p), Finished(None, Whole(p)), OpenAfter(None, Whole(p)));
  }

  lemma {:induction false} DataStep(isServer: bool, s: bytes, p: Parsed)
    requires p == ParseHeader(isServer, false, s) && p.Parsed? && !IsControl(p.opcode)
    ensures AtBoundary(isServer, false, s) == InFrame(isServer, p.st, p.rest)
  {
    PrependNothing(InFrame(isServer, p.st, p.rest));
  }

  lemma {:induction false} Continued(m: Message, f: Frame)
    requires f.opcode == CONTINUATION
    ensures var now := Message(m.kind, m.data + f.payload);
            && Finished(Some(m), f) == (if f.final then [now] else [])
            && OpenAfter(Some(m), f) == (if f.final then None else Some(now))
  {
  }

  lemma {:induction false} SessionContinue(isServer: bool, m: Message, s: bytes, p: Parsed)
    requires p == ParseHeader(isServer, false, s) && p.Parsed? && !IsControl(p.opcode)
    requires p.st.Left() <= |p.rest|
    ensures SessionFrom(isServer, Some(m), s) ==
            Join(Finished(Some(m), Whole(p)), [], SessionFrom(isServer, OpenAfter(Some(m), Whole(p)), Behind(p)))
  {
    var now := Message(m.kind, m.data + Whole(p).payload);
    Continued(m, Whole(p));
    DataStep(isServer, s, p);
    SessionData(isServer, m, p);
    assert SessionFrom(isServer, Some(m), s) == SessionIn(isServer, m, InFrame(isServer, p.st, p.rest));
    AfterData(isServer, now, p.st.final, Behind(p), Finished(Some(m), Whole(p)), OpenAfter(Some(m), Whole(p)));
  }

  // Any stream ------------------------------------------------------------------------

  function LastReply(end: SessionEnd): seq<Reply> {
    if end.Ended? && end.err.Protocol? then [ProtocolReply(end.err.reason)] else []
  }

  /** What the payload of a close frame tells: a code in two bytes and a text; without a code it stands for 1005. */
  predicate Tells(payload: bytes, err: ReadError) {
    && err.Closed?
    && if |payload| < 2 then err == Closed(1005, []) else err.code < 65536 && payload == BigEndian(err.code, 2) + err.text
  }

  lemma {:induction false} CloseTells(payload: bytes)
    ensures Tells(payload, CloseError(payload))
  {
    Pow256();
    if |payload| >= 2 {
      BigEndianInverse(payload[..2]);
      TakeDrop(payload, 2);
    }
  }

  /** A session that ends with the close frame at the end of fs reports what that frame tells. */
  predicate EndsClosed(fs: seq<Frame>, end: SessionEnd) {
    fs != [] && fs[|fs| - 1].opcode == CLOSE && end.Ended? && Tells(fs[|fs| - 1].payload, end.err)
  }

  /** The session x from the state a is the run of the frames fs. */
  ghost predicate Agrees(a: Assembly, fs: seq<Frame>, x: Session, isServer: bool) {
    && Legal(a, fs, isServer)
    && Run(a, fs).done == a.done + x.messages
    && x.replies == RepliesTo(fs) + LastReply(x.end)
    && (Run(a, fs).closed <==> x.end.Ended? && x.end.err.Closed?)
    && (Run(a, fs).closed ==> EndsClosed(fs, x.end))
  }

  lemma {:induction false} AgreesStep(a: Assembly, f: Frame, fs: seq<Frame>, x: Session, isServer: bool)
    requires LegalNext(a, f, isServer) && Agrees(Feed(a, f), fs, x, isServer)
    ensures Agrees(a, [f] + fs, Join(Finished(a.open, f), RepliesTo([f]), x), isServer)
  {
    FeedSplit(a, f);
    assert ([f] + fs)[1..] == fs && [f][1..] == [];
    var more := Finished(a.open, f);
    assert (a.done + more) + x.messages == a.done + (more + x.messages);
    assert RepliesTo([f] + fs) == RepliesTo([f]) + RepliesTo(fs);
    assert (RepliesTo([f]) + RepliesTo(fs)) + LastReply(x.end) == RepliesTo([f]) + (RepliesTo(fs) + LastReply(x.end));
  }

  lemma {:induction false} AgreesNone(a: Assembly, x: Session, isServer: bool)
    requires !a.closed && x.messages == [] && x.replies == LastReply(x.end) && !(x.end.Ended? && x.end.err.Closed?)
    ensures Agrees(a, [], x, isServer)
  {
  }

  lemma {:induction false} AgreesClose(a: Assembly, f: Frame, x: Session, isServer: bool)
    requires LegalNext(a, f, isServer) && f.opcode == CLOSE
    requires x.messages == [] && x.replies == [CloseReply] && x.end == Ended(CloseError(f.payload))
    ensures Agrees(a, [f], x, isServer)
  {
    CloseTells(f.payload);
    assert [f][1..] == [];
    assert Run(Feed(a, f), []) == Feed(a, f);
  }

  lemma {:induction false} FailedSession(isServer: bool, open: Option<Message>, s: bytes, err: ReadError, replies: seq<Reply>)
    requires Advance(isServer, open.None?, s) == Fail(err, replies)
    ensures SessionFrom(isServer, open, s) == Session([], replies, Ended(err))
  {
    if open.None? {
      assert NextAt(isServer, true, s) == NoMessage(err, replies);
      assert SessionAt(isServer, s) == SessionOf(isServer, NextAt(isServer, true, s));
    } else {
      assert AtBoundary(isServer, false, s) == Content([], replies, Broken(err));
    }
  }

  /** The stream ends inside the payload of a data frame. */
  lemma {:induction false} CutSession(isServer: bool, open: Option<Message>, s: bytes, p: Parsed)
    requires p == ParseHeader(isServer, open.None?, s) && p.Parsed? && !IsControl(p.opcode) && |p.rest| < p.st.Left()
    ensures var m := if open.None? then Message(p.opcode, []) else open.value;
            SessionFrom(isServer, open, s) == Session([], [], CutShort(Message(m.kind, m.data + p.st.Unmask(p.rest))))
  {
    assert InFrame(isServer, p.st, p.rest) == Content(p.st.Unmask(p.rest), [], Truncated);
    if open.None? {
      assert NextAt(isServer, true, s) == Started(p.opcode, p.st, p.rest, []);
      assert SessionAt(isServer, s) == SessionOf(isServer, NextAt(isServer, true, s));
      JoinNothing(SessionIn(isServer, Message(p.opcode, []), InFrame(isServer, p.st, p.rest)));
      assert [] + p.st.Unmask(p.rest) == p.st.Unmask(p.rest);
    } else {
      DataStep(isServer, s, p);
    }
  }

  lemma {:induction false} StoppedSession(isServer: bool, open: Option<Message>, s: bytes)
    requires FramesOf(isServer, open.None?, s) == []
    ensures var x := SessionFrom(isServer, open, s);
            x.messages == [] && x.replies == LastReply(x.end) && !(x.end.Ended? && x.end.err.Closed?)
  {
    var p := ParseHeader(isServer, open.None?, s);
    if p.Parsed? && !IsControl(p.opcode) {
      CutSession(isServer, open, s, p);
    } else {
      var r := Advance(isServer, open.None?, s);
      FailedSession(isServer, open, s, r.err, r.replies);
    }
  }

  lemma {:induction false} ClosedSession(isServer: bool, open: Option<Message>, s: bytes, p: Parsed)
    requires p == ParseHeader(isServer, open.None?, s) && p.Parsed? && p.opcode == CLOSE && p.st.Left() <= |p.rest|
    ensures SessionFrom(isServer, open, s) == Session([], [CloseReply], Ended(CloseError(Whole(p).payload)))
  {
    FailedSession(isServer, open, s, CloseError(Whole(p).payload), [CloseReply]);
  }

  lemma {:induction false} AcceptedLegal(isServer: bool, a: Assembly, s: bytes, p: Parsed)
    requires p == ParseHeader(isServer, a.open.None?, s) && p.Parsed? && p.st.Left() <= |p.rest| && !a.closed
    ensures LegalNext(a, Whole(p), isServer)
    ensures p.opcode != CLOSE ==> Feed(a, Whole(p)).open.None? == p.st.final
  {
  }

  /**
   * For any stream at all: the frames a reader accepts follow sections 5.4 and 5.5 of RFC 6455, the messages
   * it delivers are the messages of these frames, and its answers are the ones they call for.
   */
  lemma {:induction false} SessionRuns(isServer: bool, a: Assembly, s: bytes)
    requires !a.closed
    ensures Agrees(a, FramesOf(isServer, a.open.None?, s), SessionFrom(isServer, a.open, s), isServer)
    decreases |s|
  {
    var p := ParseHeader(isServer, a.open.None?, s);
    if p.Bad? || |p.rest| < p.st.Left() {
      StoppedSession(isServer, a.open, s);
      AgreesNone(a, SessionFrom(isServer, a.open, s), isServer);
    } else {
      AcceptedLegal(isServer, a, s, p);
      if p.opcode == CLOSE {
        ClosedSession(isServer, a.open, s, p);
        AgreesClose(a, Whole(p), SessionFrom(isServer, a.open, s), isServer);
      } else {
        SessionRuns(isServer, Feed(a, Whole(p)), Behind(p));
        OneFrame(isServer, a, s, p);
        AgreesStep(a, Whole(p), FramesOf(isServer, p.st.final, Behind(p)),
                   SessionFrom(isServer, Feed(a, Whole(p)).open, Behind(p)), isServer);
      }
    }
  }

  lemma {:induction false} OneFrame(isServer: bool, a: Assembly, s: bytes, p: Parsed)
    requires p == ParseHeader(isServer, a.open.None?, s) && p.Parsed? && p.st.Left() <= |p.rest|
    requires !a.closed && p.opcode != CLOSE
    ensures SessionFrom(isServer, a.open, s) ==
            Join(Finished(a.open, Whole(p)), RepliesTo([Whole(p)]),
                 SessionFrom(isServer, Feed(a, Whole(p)).open, Behind(p)))
  {
    FeedSplit(a, Whole(p));
    if IsControl(p.opcode) {
      SessionControl(isServer, a.open, s, p);
    } else {
      assert RepliesTo([Whole(p)]) == [] by {
        assert [Whole(p)][1..] == [];
      }
      if a.open.None? {
        SessionStart(isServer, s, p);
      } else {
        SessionContinue(isServer, a.open.value, s, p);
      }
    }
  }

  // The stream of a writer ------------------------------------------------------------

  /** The length encoding after its first byte. */
  function Extension(n: nat): bytes {
    if n >= 65536 then BigEndian(n, 8) else if n > 125 then BigEndian(n, 2) else []
  }

  function ShortLength(n: nat): (b: byte)
    ensures b < 128
  {
    if n >= 65536 then 127 else if n > 125 then 126 else n
  }

  lemma {:induction false} LengthInverse(n: nat)
    requires n < MAX_LENGTH
    ensures |Extension(n)| == LengthSize(ShortLength(n)) && FrameLength(ShortLength(n), Extension(n)) == n
  {
    Pow256();
    if n >= 65536 {
      BigEndianRoundTrip(n, 8);
    } else if n > 125 {
      BigEndianRoundTrip(n, 2);
    }
  }

  lemma {:induction false} HeadInverse(final: bool, opcode: nat, masked: bool, n: nat)
    requires opcode < 16
    ensures HeadOf(FirstByte(final, opcode), ShortLength(n) + if masked then 128 else 0) ==
            Head(final, 0, opcode, masked, ShortLength(n))
  {
  }

  function KeyBytes(f: Frame): bytes {
    if f.key.Some? then f.key.value else []
  }

  function Raw(f: Frame): (r: bytes)
    requires ValidFrame(f)
    ensures |r| == |f.payload|
  {
    match f.key
    case None => f.payload
    case Some(k) => Mask(k, 0, f.payload)
  }

  /** Header and key: all of an encoded frame but its payload. */
  function HeadBytes(f: Frame): bytes
    requires ValidFrame(f)
  {
    Header(f.final, f.opcode, f.key.Some?, |f.payload|) + KeyBytes(f)
  }

  lemma {:induction false} EncodeParts(f: Frame)
    requires ValidFrame(f)
    ensures Encode(f) == HeadBytes(f) + Raw(f)
  {
    ConcatAssoc(Header(f.final, f.opcode, f.key.Some?, |f.payload|), KeyBytes(f), Raw(f));
    assert Body(f.key, f.payload) == KeyBytes(f) + Raw(f);
  }

  lemma {:induction false} HeadShape(f: Frame, u: bytes)
    requires ValidFrame(f)
    ensures var b0, b1 := FirstByte(f.final, f.opcode), ShortLength(|f.payload|) + if f.key.Some? then 128 else 0;
            HeadBytes(f) + u == [b0, b1] + (Extension(|f.payload|) + (KeyBytes(f) + u))
  {
    var b0, b1 := FirstByte(f.final, f.opcode), ShortLength(|f.payload|) + if f.key.Some? then 128 else 0;
    var ext, key := Extension(|f.payload|), KeyBytes(f);
    assert LengthBytes(f.key.Some?, |f.payload|) == [b1] + ext;
    assert Header(f.final, f.opcode, f.key.Some?, |f.payload|) == [b0, b1] + ext;
    ConcatAssoc([b0, b1] + ext, key, u);
    ConcatAssoc([b0, b1], ext, key + u);
  }

  function StateOf(f: Frame, final: bool): State {
    State(if IsControl(f.opcode) then final else f.final, |f.payload|, f.key, 0)
  }

  /** Can a reader accept f when a message could start, or could not? */
  predicate Acceptable(f: Frame, final: bool, isServer: bool) {
    && ValidFrame(f) && f.key.Some? == isServer
    && (IsData(f.opcode) ==> final) && (f.opcode == CONTINUATION ==> !final)
  }

  lemma {:induction false} MaskInverse(isServer: bool, h: Head, st: State, f: Frame, u: bytes)
    requires ValidFrame(f) && f.key.Some? == isServer == h.masked && st.key == None
    ensures ParseMask(isServer, h, st, KeyBytes(f) + u) == Parsed(h.opcode, st.(key := f.key), u)
  {
    SplitLeft(KeyBytes(f), u, |KeyBytes(f)|);
    assert KeyBytes(f)[..|KeyBytes(f)|] == KeyBytes(f) && KeyBytes(f)[|KeyBytes(f)|..] + u == u;
  }

  lemma {:induction false} ExtensionInverse(isServer: bool, h: Head, final: bool, n: nat, v: bytes)
    requires n < MAX_LENGTH && h.length == ShortLength(n)
    ensures ParseLength(isServer, h, final, Extension(n) + v) == ParseMask(isServer, h, State(final, n, None, 0), v)
  {
    LengthInverse(n);
    var ext := Extension(n);
    SplitLeft(ext, v, |ext|);
    assert ext[..|ext|] == ext && ext[|ext|..] + v == v;
  }

  /** Parsing undoes the header of an encoded frame. */
  lemma {:induction false} HeaderInverse(isServer: bool, final: bool, f: Frame, u: bytes)
    requires Acceptable(f, final, isServer)
    ensures ParseHeader(isServer, final, HeadBytes(f) + u) == Parsed(f.opcode, StateOf(f, final), u)
  {
    HeadShape(f, u);
    HeadInverse(f.final, f.opcode, f.key.Some?, |f.payload|);
    var s, v := HeadBytes(f) + u, KeyBytes(f) + u;
    assert s[2..] == Extension(|f.payload|) + v;
    var h := HeadOf(s[0], s[1]);
    ExtensionInverse(isServer, h, StateOf(f, final).final, |f.payload|, v);
    MaskInverse(isServer, h, StateOf(f, final).(key := None), f, u);
  }

  lemma {:induction false} LegalAcceptable(a: Assembly, f: Frame, isServer: bool)
    requires LegalNext(a, f, isServer)
    ensures Acceptable(f, a.open.None?, isServer)
    ensures StateOf(f, a.open.None?).final == Feed(a, f).open.None?
  {
  }

  lemma {:induction false} FrameInverse(isServer: bool, final: bool, f: Frame, t: bytes)
    requires Acceptable(f, final, isServer)
    ensures var p := ParseHeader(isServer, final, Encode(f) + t);
            p.Parsed? && p.st == StateOf(f, final) && p.st.Left() <= |p.rest| && Whole(p) == f && Behind(p) == t
  {
    EncodeParts(f);
    ConcatAssoc(HeadBytes(f), Raw(f), t);
    HeaderInverse(isServer, final, f, Raw(f) + t);
    SplitLeft(Raw(f), t, |f.payload|);
    assert Raw(f)[..|f.payload|] == Raw(f) && Raw(f)[|f.payload|..] + t == t;
    if f.key.Some? {
      MaskTwice(f.key.value, 0, f.payload);
    }
  }

  lemma {:induction false} EncodeFirst(fs: seq<Frame>, t: bytes)
    requires AllValid(fs) && fs != []
    ensures EncodeAll(fs) + t == Encode(fs[0]) + (EncodeAll(fs[1..]) + t)
  {
    ConcatAssoc(Encode(fs[0]), EncodeAll(fs[1..]), t);
  }

  lemma {:induction false} FirstFrame(isServer: bool, final: bool, f: Frame, t: bytes)
    requires Acceptable(f, final, isServer)
    ensures FramesOf(isServer, final, Encode(f) + t) ==
            if f.opcode == CLOSE then [f] else [f] + FramesOf(isServer, StateOf(f, final).final, t)
  {
    FrameInverse(isServer, final, f, t);
  }

  lemma {:induction false} ConsStep(fs: seq<Frame>, t: seq<Frame>)
    requires fs != []
    ensures [fs[0]] + fs[1..] == fs && [fs[0]] + (fs[1..] + t) == fs + t
  {
  }

  /** The reader recovers exactly the frames that were written. */
  lemma {:induction false} FramesInverse(isServer: bool, a: Assembly, fs: seq<Frame>, t: bytes)
    requires Legal(a, fs, isServer) && AllValid(fs) && !a.closed
    ensures FramesOf(isServer, a.open.None?, EncodeAll(fs) + t) ==
            if Run(a, fs).closed then fs else fs + FramesOf(isServer, Run(a, fs).open.None?, t)
    decreases |fs|
  {
    if fs == [] {
      assert EncodeAll(fs) + t == t;
    } else {
      var f, more := fs[0], EncodeAll(fs[1..]) + t;
      EncodeFirst(fs, t);
      LegalAcceptable(a, f, isServer);
      FirstFrame(isServer, a.open.None?, f, more);
      ConsStep(fs, FramesOf(isServer, Run(a, fs).open.None?, t));
      if f.opcode == CLOSE {
        assert fs[1..] == [];
      } else {
        FramesInverse(isServer, Feed(a, f), fs[1..], t);
      }
    }
  }

  /** A session reads what a writer sent frame by frame, and then the rest of the stream. */
  ghost predicate Follows(a: Assembly, fs: seq<Frame>, x: Session, y: Session) {
    a.done + x.messages == Run(a, fs).done + y.messages && x.replies == RepliesTo(fs) + y.replies && x.end == y.end
  }

  lemma {:induction false} FollowsStep(a: Assembly, fs: seq<Frame>, x: Session, y: Session)
    requires fs != [] && !a.closed && Follows(Feed(a, fs[0]), fs[1..], x, y)
    ensures Follows(a, fs, Join(Finished(a.open, fs[0]), RepliesTo([fs[0]]), x), y)
  {
    FeedSplit(a, fs[0]);
    var more, replies := Finished(a.open, fs[0]), RepliesTo([fs[0]]);
    assert [fs[0]][1..] == [];
    assert (a.done + more) + x.messages == a.done + (more + x.messages);
    assert (replies + RepliesTo(fs[1..])) + y.replies == replies + (RepliesTo(fs[1..]) + y.replies);
  }

  lemma {:induction false} SessionFrames(isServer: bool, a: Assembly, fs: seq<Frame>, t: bytes)
    requires Legal(a, fs, isServer) && AllValid(fs) && !Run(a, fs).closed && !a.closed
    ensures Follows(a, fs, SessionFrom(isServer, a.open, EncodeAll(fs) + t), SessionFrom(isServer, Run(a, fs).open, t))
    decreases |fs|
  {
    if fs == [] {
      assert EncodeAll(fs) + t == t;
    } else {
      var f, more := fs[0], EncodeAll(fs[1..]) + t;
      EncodeFirst(fs, t);
      LegalAcceptable(a, f, isServer);
      FrameInverse(isServer, a.open.None?, f, more);
      if f.opcode == CLOSE {
        assert false;
      }
      OneFrame(isServer, a, Encode(f) + more, ParseHeader(isServer, a.open.None?, Encode(f) + more));
      SessionFrames(isServer, Feed(a, f), fs[1..], t);
      FollowsStep(a, fs, SessionFrom(isServer, Feed(a, f).open, more), SessionFrom(isServer, Run(a, fs).open, t));
    }
  }

  /** Round trip: the messages of a legal sequence of frames, whatever their fragments and control frames. */
  lemma {:induction false} RoundTrip(isServer: bool, fs: seq<Frame>)
    requires Legal(START, fs, isServer) && AllValid(fs)
    ensures var x := SessionAt(isServer, EncodeAll(fs));
            && x.messages == Run(START, fs).done
            && x.replies == RepliesTo(fs)
            && if Run(START, fs).closed then EndsClosed(fs, x.end) else x.end == Ended(UnexpectedEOF)
  {
    var s, x := EncodeAll(fs), SessionAt(isServer, EncodeAll(fs));
    assert s + [] == s;
    FramesInverse(isServer, START, fs, []);
    assert fs + [] == fs;
    SessionRuns(isServer, START, s);
    if !Run(START, fs).closed {
      SessionFrames(isServer, START, fs, []);
      FailedSession(isServer, Run(START, fs).open, [], UnexpectedEOF, []);
    }
    assert START.done + x.messages == x.messages;
  }

  // A stream cut short ----------------------------------------------------------------

  lemma {:induction false} HeaderCut(isServer: bool, final: bool, f: Frame, n: nat)
    requires Acceptable(f, final, isServer) && n < |HeadBytes(f)|
    ensures ParseHeader(isServer, final, HeadBytes(f)[..n]) == Bad(UnexpectedEOF)
  {
    var ext, key := Extension(|f.payload|), KeyBytes(f);
    HeadShape(f, []);
    assert HeadBytes(f) + [] == HeadBytes(f) && key + [] == key;
    HeadInverse(f.final, f.opcode, f.key.Some?, |f.payload|);
    LengthInverse(|f.payload|);
    if n >= 2 + |ext| {
      var k := n - 2 - |ext|;
      assert HeadBytes(f)[..n][2..] == ext + key[..k];
      SplitLeft(ext, key[..k], |ext|);
      assert ext[..|ext|] == ext && ext[|ext|..] + key[..k] == key[..k];
    }
  }

  /** The part of a message that a reader has seen when k bytes of the payload of f have arrived. */
  function PartMessage(open: Option<Message>, f: Frame, k: nat): Message
    requires k <= |f.payload|
  {
    Message(if open.None? then f.opcode else open.value.kind, (if open.None? then [] else open.value.data) + f.payload[..k])
  }

  /** Unmasking the first bytes of a payload. */
  lemma {:induction false} UnmaskPart(f: Frame, final: bool, k: nat)
    requires ValidFrame(f) && k <= |f.payload|
    ensures StateOf(f, final).Unmask(Raw(f)[..k]) == f.payload[..k]
  {
    if f.key.Some? {
      assert Raw(f)[..k] == Mask(f.key.value, 0, f.payload[..k]);
      MaskTwice(f.key.value, 0, f.payload[..k]);
    }
  }

  /** Only k bytes of the payload of f have arrived. */
  lemma {:induction false} PayloadCut(isServer: bool, open: Option<Message>, f: Frame, k: nat)
    requires Acceptable(f, open.None?, isServer) && k < |f.payload|
    ensures SessionFrom(isServer, open, HeadBytes(f) + Raw(f)[..k]) ==
            Session([], [], if IsControl(f.opcode) then Ended(UnexpectedEOF) else CutShort(PartMessage(open, f, k)))
  {
    var s := HeadBytes(f) + Raw(f)[..k];
    HeaderInverse(isServer, open.None?, f, Raw(f)[..k]);
    if IsControl(f.opcode) {
      FailedSession(isServer, open, s, UnexpectedEOF, []);
    } else {
      CutSession(isServer, open, s, ParseHeader(isServer, open.None?, s));
      UnmaskPart(f, open.None?, k);
    }
  }

  lemma {:induction false} HeadCut(isServer: bool, open: Option<Message>, f: Frame, n: nat)
    requires Acceptable(f, open.None?, isServer) && n < |HeadBytes(f)|
    ensures SessionFrom(isServer, open, HeadBytes(f)[..n]) == Session([], [], Ended(UnexpectedEOF))
  {
    HeaderCut(isServer, open.None?, f, n);
    FailedSession(isServer, open, HeadBytes(f)[..n], UnexpectedEOF, []);
  }

  /** Encode(f) cut at n, by its two parts. */
  lemma {:induction false} EncodeCut(f: Frame, n: nat)
    requires ValidFrame(f) && n < |Encode(f)|
    ensures n < |HeadBytes(f)| ==> Encode(f)[..n] == HeadBytes(f)[..n]
    ensures n >= |HeadBytes(f)| ==>
              n - |HeadBytes(f)| < |f.payload| && Encode(f)[..n] == HeadBytes(f) + Raw(f)[..n - |HeadBytes(f)|]
  {
    EncodeParts(f);
    if n < |HeadBytes(f)| {
      SplitLeft(HeadBytes(f), Raw(f), n);
    } else {
      SplitRight(HeadBytes(f), Raw(f), n - |HeadBytes(f)|);
    }
  }

  /** How a session ends on a stream that stops n bytes into the frame f. */
  function CutEnd(open: Option<Message>, f: Frame, n: nat): SessionEnd
    requires ValidFrame(f) && n <= |HeadBytes(f)| + |f.payload|
  {
    if n >= |HeadBytes(f)| && !IsControl(f.opcode) then CutShort(PartMessage(open, f, n - |HeadBytes(f)|))
    else Ended(UnexpectedEOF)
  }

  lemma {:induction false} CutFrame(isServer: bool, open: Option<Message>, f: Frame, n: nat)
    requires Acceptable(f, open.None?, isServer) && n < |Encode(f)|
    ensures |Encode(f)| == |HeadBytes(f)| + |f.payload|
    ensures SessionFrom(isServer, open, Encode(f)[..n]) == Session([], [], CutEnd(open, f, n))
  {
    EncodeParts(f);
    EncodeCut(f, n);
    if n < |HeadBytes(f)| {
      HeadCut(isServer, open, f, n);
    } else {
      PayloadCut(isServer, open, f, n - |HeadBytes(f)|);
    }
  }

  /**
   * When the stream stops inside a frame, the messages before it are still delivered, and the message
   * of that frame is taken for a whole one exactly when its header is there and it is a data frame.
   */
  lemma {:induction false} CutStream(isServer: bool, fs: seq<Frame>, f: Frame, n: nat)
    requires Legal(START, fs, isServer) && AllValid(fs) && LegalNext(Run(START, fs), f, isServer) && n < |Encode(f)|
    ensures |Encode(f)| == |HeadBytes(f)| + |f.payload|
    ensures SessionAt(isServer, EncodeAll(fs) + Encode(f)[..n]) ==
            Session(Run(START, fs).done, RepliesTo(fs), CutEnd(Run(START, fs).open, f, n))
  {
    var a, t := Run(START, fs), Encode(f)[..n];
    SessionFrames(isServer, START, fs, t);
    LegalAcceptable(a, f, isServer);
    CutFrame(isServer, a.open, f, n);
    var x := SessionAt(isServer, EncodeAll(fs) + t);
    assert START.done + x.messages == x.messages;
    assert a.done + [] == a.done && RepliesTo(fs) + [] == RepliesTo(fs);
  }

  /** A header that is refused behind legal frames: what came before is delivered, and a protocol error is answered. */
  lemma {:induction false} FaultyStream(isServer: bool, fs: seq<Frame>, t: bytes)
    requires Legal(START, fs, isServer) && AllValid(fs) && !Run(START, fs).closed
    requires ParseHeader(isServer, Run(START, fs).open.None?, t).Bad?
    ensures var err := ParseHeader(isServer, Run(START, fs).open.None?, t).err;
            SessionAt(isServer, EncodeAll(fs) + t) ==
            Session(Run(START, fs).done, RepliesTo(fs) + if err.Protocol? then [ProtocolReply(err.reason)] else [], Ended(err))
  {
    var a, r := Run(START, fs), Advance(isServer, Run(START, fs).open.None?, t);
    SessionFrames(isServer, START, fs, t);
    FailedSession(isServer, a.open, t, r.err, r.replies);
    var x := SessionAt(isServer, EncodeAll(fs) + t);
    assert START.done + x.messages == x.messages;
    assert a.done + [] == a.done;
  }

  /** The first byte of a text message of two is taken for the whole message when the connection ends there. */
  lemma {:induction false} CutExample()
    ensures SessionAt(false, [129, 2, 104]) == Session([], [], CutShort(Message(TEXT, [104])))
  {
    var s: bytes := [129, 2, 104];
    assert s[2..] == [104];
    assert s[2..][0..] == [104];
    var p := ParseHeader(false, true, s);
    assert p == Parsed(TEXT, State(true, 2, None, 0), [104]);
    CutSession(false, None, s, p);
    assert [] + p.st.Unmask(p.rest) == [104];
  }
}
