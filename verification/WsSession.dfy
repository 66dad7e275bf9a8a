/** A client that reads every message, and both ends of a connection together. */
module WsSession {
  import opened Bytes
  import opened Frames
  import opened WsStream
  import opened WsRoundTrip
  import BufReader
  import WsReader
  import WsWriter

  /** What ReadMessage returned, seen from the message boundary before it. */
  lemma {:induction false} OneMessage(isServer: bool, s: bytes, n: Next)
    requires n == NextAt(isServer, true, s)
    ensures n.NoMessage? ==> SessionAt(isServer, s) == Session([], n.replies, Ended(n.err))
    ensures n.Started? ==>
              var c, m := InFrame(isServer, n.st, n.rest), Message(n.kind, InFrame(isServer, n.st, n.rest).data);
              var replies := n.replies + c.replies;
              SessionAt(isServer, s) ==
              match c.end
              case Done(rest) => Join([m], replies, SessionAt(isServer, rest))
              case Truncated => Session([], replies, CutShort(m))
              case Broken(err) => Session([], replies, Ended(err))
  {
    assert SessionAt(isServer, s) == SessionOf(isServer, n);
    if n.Started? {
      var c := InFrame(isServer, n.st, n.rest);
      var none: seq<Message> := [];
      assert [] + c.data == c.data;
      if c.end.Done? {
        JoinTwice([], n.replies, [Message(n.kind, c.data)], c.replies, SessionAt(isServer, c.end.rest));
        assert none + [Message(n.kind, c.data)] == [Message(n.kind, c.data)];
      }
    }
  }

  /** The messages a client sees: also one that was cut short, which it takes for a whole one. */
  function Seen(x: Session): seq<Message> {
    x.messages + if x.end.CutShort? then [x.end.m] else []
  }

  function LastError(x: Session): ReadError {
    if x.end.CutShort? then EndOfFile else x.end.err
  }

  /** One ReadMessage moves a session on. */
  lemma {:induction false} SessionStep(x: Session, messages: seq<Message>, rs: seq<Reply>, isServer: bool, s: bytes, n: Next)
    requires n == NextAt(isServer, true, s) && x == Join(messages, rs, SessionAt(isServer, s))
    ensures n.NoMessage? ==> Seen(x) == messages && LastError(x) == n.err && x.replies == rs + n.replies
    ensures n.Started? ==>
              var c := InFrame(isServer, n.st, n.rest);
              var now, replies := messages + [Message(n.kind, c.data)], rs + (n.replies + c.replies);
              match c.end
              case Done(rest) => x == Join(now, replies, SessionAt(isServer, rest))
              case Truncated => Seen(x) == now && LastError(x) == EndOfFile && x.replies == replies
              case Broken(err) => Seen(x) == messages && LastError(x) == err && x.replies == replies
  {
    OneMessage(isServer, s, n);
    assert messages + [] == messages;
    if n.Started? {
      var c := InFrame(isServer, n.st, n.rest);
      if c.end.Done? {
        JoinTwice(messages, rs, [Message(n.kind, c.data)], n.replies + c.replies, SessionAt(isServer, c.end.rest));
      }
    }
  }

  /** The connection is at a message boundary of the session x, after messages and the replies rs. */
  ghost predicate Remains(c: WsReader.Conn, x: Session, messages: seq<Message>, rs: seq<Reply>)
    requires c.Valid()
    reads c, c.br, c.br.buf, c.br.rd
  {
    c.readErr.None? && c.readFinal && c.Here().Left() == 0 && x == Join(messages, rs, SessionAt(c.isServer, c.Unread()))
  }

  /** The connection has failed, as the session x does. */
  ghost predicate Stopped(c: WsReader.Conn, x: Session, messages: seq<Message>, before: seq<Reply>)
    reads c
  {
    c.readErr == Some(LastError(x)) && messages == Seen(x) && c.replies == before + x.replies
  }

  lemma {:induction false} NextFromBoundary(isServer: bool, st: State, s: bytes)
    requires st.final && st.Left() == 0
    ensures NextMessage(isServer, st, s) == NextAt(isServer, true, s)
  {
    assert s[0..] == s;
  }

  /** ReadMessage at a boundary of the session x; before are the replies of earlier sessions. */
  method ReadNext(c: WsReader.Conn, messages: seq<Message>, ghost x: Session, ghost rs: seq<Reply>, ghost before: seq<Reply>)
      returns (now: seq<Message>, err: Option<ReadError>, ghost rs': seq<Reply>)
    requires c.Valid() && Remains(c, x, messages, rs) && c.replies == before + rs
    modifies c, c.br, c.br.buf, c.br.rd
    ensures c.Valid()
    ensures err == if c.readErr == Some(EndOfFile) && err.None? then None else c.readErr
    ensures if c.readErr.None? then Remains(c, x, now, rs') && c.replies == before + rs' else Stopped(c, x, now, before)
    ensures c.readErr.None? ==> |c.Unread()| < old(|c.Unread()|)
  {
    NextFromBoundary(c.isServer, c.Here(), c.Unread());
    ghost var n := c.NextStart();
    SessionStep(x, messages, rs, c.isServer, c.Unread(), n);
    ghost var more := if n.Started? then InFrame(c.isServer, n.st, n.rest).replies else [];
    WsReader.ReplyAssoc(before, rs, n.replies);
    WsReader.ReplyAssoc(before + rs, n.replies, more);
    WsReader.ReplyAssoc(before, rs, n.replies + more);
    var messageType, data, e := c.ReadMessage();
    now, err, rs' := messages, e, rs + (n.replies + more);
    if e.None? {
      now := messages + [Message(messageType, data)];
    }
  }

  /** Reads messages until an error, as every client of ReadMessage does. */
  method ReadMessages(c: WsReader.Conn) returns (messages: seq<Message>, err: ReadError)
    requires c.Valid() && c.readErr.None? && c.AtStart()
    modifies c, c.br, c.br.buf, c.br.rd
    ensures var x := SessionAt(c.isServer, old(c.Unread()));
            c.Valid() && messages == Seen(x) && err == LastError(x) && c.replies == old(c.replies) + x.replies
  {
    messages := [];
    ghost var x, rs: seq<Reply> := SessionAt(c.isServer, c.Unread()), [];
    JoinNothing(x);
    assert c.replies == c.replies + [];
    while true
      invariant c.Valid()
      invariant if c.readErr.None? then Remains(c, x, messages, rs) && c.replies == old(c.replies) + rs
                else Stopped(c, x, messages, old(c.replies))
      decreases c.readErr.None?, |c.Unread()|
    {
      if c.readErr.Some? {
        var messageType, data, e := c.ReadMessage();
        return messages, e.value;
      }
      var e;
      messages, e, rs := ReadNext(c, messages, x, rs, old(c.replies));
      if e.Some? {
        return messages, e.value;
      }
    }
  }

  // Skipping messages -----------------------------------------------------------------

  function Kinds(messages: seq<Message>): (ks: seq<int>)
    ensures |ks| == |messages|
  {
    seq(|messages|, i requires 0 <= i < |messages| => messages[i].kind)
  }

  lemma {:induction false} KindsSnoc(messages: seq<Message>, m: Message)
    ensures Kinds(messages + [m]) == Kinds(messages) + [m.kind]
  {
  }

  /** The session x, after messages and the replies rs, when the next thing a client asks for is n. */
  ghost predicate Asks(x: Session, messages: seq<Message>, rs: seq<Reply>, isServer: bool, n: Next) {
    (n.Started? ==> n.st.Valid()) && x == Join(messages, rs, SessionOf(isServer, n))
  }

  /** A client in a message of this kind, of which c is left, asks for the next one without reading on. */
  ghost predicate Skips(x: Session, messages: seq<Message>, rs: seq<Reply>, isServer: bool, kind: nat, c: Content) {
    exists data :: x == Join(messages, rs, SessionIn(isServer, Message(kind, data), c))
  }

  lemma {:induction false} SkipStart(x: Session, messages: seq<Message>, rs: seq<Reply>, isServer: bool, n: Next)
    requires Asks(x, messages, rs, isServer, n)
    ensures n.NoMessage? ==> Seen(x) == messages && LastError(x) == n.err && x.replies == rs + n.replies
    ensures n.Started? ==> Skips(x, messages, rs + n.replies, isServer, n.kind, InFrame(isServer, n.st, n.rest))
  {
    assert messages + [] == messages;
    if n.Started? {
      JoinTwice(messages, rs, [], n.replies, SessionIn(isServer, Message(n.kind, []), InFrame(isServer, n.st, n.rest)));
    }
  }

  lemma {:induction false} JoinMove(messages: seq<Message>, rs: seq<Reply>, m: Message, replies: seq<Reply>, y: Session)
    ensures Join(messages, rs, Join([m], replies, y)) == Join(messages + [m], rs, Join([], replies, y))
  {
    assert messages + ([m] + y.messages) == (messages + [m]) + ([] + y.messages);
  }

  lemma {:induction false} SessionDone(isServer: bool, m: Message, c: Content)
    requires c.end.Done?
    ensures SessionIn(isServer, m, c) ==
            Join([Message(m.kind, m.data + c.data)], c.replies, SessionOf(isServer, NextAt(isServer, true, c.end.rest)))
  {
  }

  /** A message that ends in the stream: the next one is asked for behind it. */
  lemma {:induction false} SkipDone(x: Session, messages: seq<Message>, rs: seq<Reply>, isServer: bool, kind: nat, c: Content)
      returns (now: seq<Message>)
    requires Skips(x, messages, rs, isServer, kind, c) && c.end.Done?
    ensures Asks(x, now, rs, isServer, After(isServer, c)) && Kinds(now) == Kinds(messages) + [kind]
  {
    hide Join, SessionIn, SessionOf, SessionAt, NextAt, Kinds;
    var data :| x == Join(messages, rs, SessionIn(isServer, Message(kind, data), c));
    var m, next := Message(kind, data + c.data), NextAt(isServer, true, c.end.rest);
    now := messages + [m];
    KindsSnoc(messages, m);
    SessionDone(isServer, Message(kind, data), c);
    JoinMove(messages, rs, m, c.replies, SessionOf(isServer, next));
    SessionNext(isServer, c.replies, next);
  }

  /** A message that does not: the client ends with the error a reader of the message would keep. */
  lemma {:induction false} SkipEnd(x: Session, messages: seq<Message>, rs: seq<Reply>, isServer: bool, kind: nat, c: Content)
    requires Skips(x, messages, rs, isServer, kind, c) && !c.end.Done?
    ensures var n := After(isServer, c); n.NoMessage? && LastError(x) == n.err && x.replies == rs + n.replies
    ensures Kinds(Seen(x)) == Kinds(messages) + if c.end.Truncated? then [kind] else []
  {
    var data :| x == Join(messages, rs, SessionIn(isServer, Message(kind, data), c));
    var m := Message(kind, data + c.data);
    KindsSnoc(messages, m);
    assert messages + [] == messages && Kinds(messages) + [] == Kinds(messages);
  }

  /** The types of all messages in x, and perhaps of one more that broke off with an error. */
  predicate KindsSeen(kinds: seq<int>, x: Session) {
    Kinds(Seen(x)) <= kinds && |kinds| <= |Seen(x)| + 1 && (x.end.CutShort? ==> |kinds| == |Seen(x)|)
  }

  /** A client has started messages of these kinds, and asks for the next thing, n. */
  ghost predicate Skipping(x: Session, messages: seq<Message>, rs: seq<Reply>, kinds: seq<int>, isServer: bool, n: Next) {
    || (Asks(x, messages, rs, isServer, n) && kinds == Kinds(messages))
    || (n.NoMessage? && LastError(x) == n.err && x.replies == rs + n.replies && KindsSeen(kinds, x))
  }

  lemma {:induction false} SkipTurn(x: Session, messages: seq<Message>, rs: seq<Reply>, kinds: seq<int>, isServer: bool, n: Next)
      returns (now: seq<Message>)
    requires Skipping(x, messages, rs, kinds, isServer, n) && n.Started?
    ensures Skipping(x, now, rs + n.replies, kinds + [n.kind], isServer, NextMessage(isServer, n.st, n.rest))
  {
    var c := InFrame(isServer, n.st, n.rest);
    SkipStart(x, messages, rs, isServer, n);
    NextLands(isServer, n.st, n.rest);
    if c.end.Done? {
      now := SkipDone(x, messages, rs + n.replies, isServer, n.kind, c);
    } else {
      SkipEnd(x, messages, rs + n.replies, isServer, n.kind, c);
      now := [];
      assert KindsSeen(kinds + [n.kind], x);
    }
  }

  /**
   * Asks for one message after the other and reads none of them: the same types, the same replies and the
   * same last error as for a client that reads everything.
   */
  method SkipMessages(c: WsReader.Conn) returns (kinds: seq<int>, err: ReadError)
    requires c.Valid() && c.readErr.None? && c.AtStart()
    modifies c, c.br, c.br.buf, c.br.rd
    ensures var x := SessionAt(c.isServer, old(c.Unread()));
            c.Valid() && KindsSeen(kinds, x) && err == LastError(x) && c.replies == old(c.replies) + x.replies
  {
    kinds := [];
    ghost var x, messages, rs: seq<Reply> := SessionAt(c.isServer, c.Unread()), [], [];
    NextFromBoundary(c.isServer, c.Here(), c.Unread());
    JoinNothing(x);
    assert c.replies == c.replies + [];
    while true
      invariant c.Valid() && c.readErr.None? && c.replies == old(c.replies) + rs
      invariant Skipping(x, messages, rs, kinds, c.isServer, c.NextStart())
      decreases |c.Unread()|
    {
      ghost var n := c.NextStart();
      var messageType, reader, e := c.NextReader();
      WsReader.ReplyAssoc(old(c.replies), rs, n.replies);
      if e.Some? {
        if Asks(x, messages, rs, c.isServer, n) && kinds == Kinds(messages) {
          SkipStart(x, messages, rs, c.isServer, n);
        }
        return kinds, e.value;
      }
      messages := SkipTurn(x, messages, rs, kinds, c.isServer, n);
      rs := rs + n.replies;
      kinds := kinds + [messageType];
    }
  }

  /** How a session ends on the wire of a writer: after whole frames, or inside the frame that a failed write tore. */
  ghost predicate EndsAs(wire: bytes, open: bool, fs: seq<Frame>, masked: bool, end: SessionEnd)
    requires AllValid(fs)
  {
    || (if Run(START, fs).closed then EndsClosed(fs, end) else end == Ended(UnexpectedEOF))
    || (!open && exists f: Frame, n: nat ::
          WsWriter.Torn(wire, fs, masked, f, n) && n <= |HeadBytes(f)| + |f.payload| && end == CutEnd(Run(START, fs).open, f, n))
  }

  /** What a peer makes of the wire of a writer in any state of it. */
  lemma {:induction false} WireSession(wire: bytes, open: bool, fs: seq<Frame>, masked: bool)
    requires Legal(START, fs, masked) && WsWriter.Carries(wire, open, fs, masked)
    ensures var x := SessionAt(masked, wire);
            x.messages == Run(START, fs).done && x.replies == RepliesTo(fs) && EndsAs(wire, open, fs, masked, x.end)
  {
    if wire == EncodeAll(fs) {
      RoundTrip(masked, fs);
    } else {
      var f: Frame, n: nat :| WsWriter.Torn(wire, fs, masked, f, n);
      CutStream(masked, fs, f, n);
    }
  }

  /** A new connection of the peer that reads everything. */
  method Receive(rd: BufReader.Source, isServer: bool, readBufferSize: nat)
      returns (messages: seq<Message>, err: ReadError, c: WsReader.Conn)
    requires BufReader.SteadyChunks(rd.chunks)
    modifies rd
    ensures var x := SessionAt(isServer, old(rd.Unread()));
            messages == Seen(x) && err == LastError(x) && c.replies == x.replies
  {
    c := new WsReader.Conn(rd, isServer, readBufferSize);
    messages, err := ReadMessages(c);
  }

  /**
   * Both ends together: whatever the buffer sizes, the mask keys, the chunks in which the bytes were written
   * and arrive, and the control frames of other goroutines, the peer receives exactly the messages sent and
   * answers every ping. Also when the writer failed or the connection broke: then at most one more message
   * is seen, cut short in the torn frame.
   */
  method Exchange(w: WsWriter.Conn, rd: BufReader.Source, readBufferSize: nat)
      returns (messages: seq<Message>, err: ReadError, c: WsReader.Conn, ghost end: SessionEnd)
    requires w.Valid()
    requires rd.Unread() == w.conn.wire && BufReader.SteadyChunks(rd.chunks)
    modifies rd
    ensures EndsAs(old(w.conn.wire), old(w.conn.open), old(w.frames), !w.isServer, end)
    ensures messages == old(w.sent) + if end.CutShort? then [end.m] else []
    ensures err == (if end.CutShort? then EndOfFile else end.err) && c.replies == RepliesTo(old(w.frames))
    ensures old(w.conn.open) ==> messages == old(w.sent)
  {
    ghost var sent := w.sent;
    WireSession(w.conn.wire, w.conn.open, w.frames, !w.isServer);
    end := SessionAt(!w.isServer, rd.Unread()).end;
    assert sent + [] == sent;
    messages, err, c := Receive(rd, !w.isServer, readBufferSize);
  }
}
