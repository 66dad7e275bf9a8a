/** The read half of a WebSocket connection, gorilla/websocket conn.go. */
module WsReader {
  import opened Bytes
  import opened Frames
  import opened WsStream
  import BufReader

  const READ_BUFFER_SIZE := 4096
  const DISCARD_SIZE := 8192

  lemma {:induction false} CutOff(p: bytes, rest: bytes, s: bytes)
    requires p + rest == s
    ensures p == s[..|p|] && rest == s[|p|..]
  {
  }

  lemma {:induction false} ReplyAssoc(a: seq<Reply>, b: seq<Reply>, c: seq<Reply>)
    ensures (a + b) + c == a + (b + c)
  {
  }

  class Conn {
    const br: BufReader.Reader
    const isServer: bool
    var readErr: Option<ReadError>
    var readRemaining: int
    var readFinal: bool
    var readSeq: nat
    var readMaskPos: nat
    var readMaskKey: bytes
    // Control frames handed to WriteControl.
    var replies: seq<Reply>

    constructor (rd: BufReader.Source, isServer: bool, readBufferSize: nat)
      requires BufReader.SteadyChunks(rd.chunks)
      ensures Valid() && fresh(br) && fresh(br.buf) && br.rd == rd && this.isServer == isServer
      ensures readErr.None? && AtStart() && replies == [] && Unread() == rd.Unread()
    {
      this.isServer := isServer;
      br := new BufReader.Reader(rd, if readBufferSize == 0 then READ_BUFFER_SIZE else readBufferSize);
      readErr, readRemaining, readFinal, readSeq, readMaskPos, readMaskKey := None, 0, true, 0, 0, [0, 0, 0, 0];
      replies := [];
    }

    ghost predicate Valid()
      reads this, br, br.rd
    {
      br.Valid() && br.err.None? && br.Steady() && |readMaskKey| == 4 && readRemaining < MAX_LENGTH
    }

    ghost function Unread(): bytes
      requires Valid()
      reads this, br, br.buf, br.rd
    {
      br.Pending()
    }

    /** Where the connection is in the current frame. */
    ghost function Here(): (st: State)
      requires |readMaskKey| == 4 && readRemaining < MAX_LENGTH
      reads this
      ensures st.Valid() && st.key.Some? == isServer
    {
      State(readFinal, readRemaining, if isServer then Some(readMaskKey) else None, if isServer then readMaskPos else 0)
    }

    ghost predicate AtStart()
      reads this
    {
      readFinal && readRemaining == 0
    }

    /** What is left of the current message. */
    ghost function Left(): Content
      requires Valid()
      reads this, br, br.buf, br.rd
    {
      InFrame(isServer, Here(), Unread())
    }

    /** Like io.ReadFull, except that EOF is never returned. */
    method readFull(n: nat) returns (p: bytes, err: Option<ReadError>)
      requires Valid()
      modifies br, br.buf, br.rd
      ensures Valid() && br.Effort() <= old(br.Effort())
      ensures err.None? ==> n <= |old(Unread())| && p == old(Unread())[..n] && Unread() == old(Unread())[n..]
      ensures err.Some? ==> err == Some(UnexpectedEOF) && |old(Unread())| < n
    {
      p, err := [], None;
      while |p| < n
        invariant Valid() && br.Effort() <= old(br.Effort())
        invariant |p| <= n && p + Unread() == old(Unread())
        decreases br.Effort()
      {
        var q, e := br.Read(n - |p|);
        ConcatAssoc(p, q, Unread());
        p := p + q;
        if e.Some? {
          return p, Some(UnexpectedEOF);
        }
      }
      CutOff(p, Unread(), old(Unread()));
    }

    /** Drops the unread rest of the current frame. */
    method skip() returns (err: Option<ReadError>)
      requires Valid()
      modifies br, br.buf, br.rd
      ensures Valid() && br.Effort() <= old(br.Effort())
      ensures err.None? ==> Here().Left() <= |old(Unread())| && Unread() == old(Unread())[Here().Left()..]
      ensures err.Some? ==> err == Some(EndOfFile) && |old(Unread())| < Here().Left()
    {
      var left := readRemaining;
      ghost var skipped: bytes := [];
      while left > 0
        invariant Valid() && br.Effort() <= old(br.Effort())
        invariant |skipped| + (if left > 0 then left else 0) == Here().Left()
        invariant skipped + Unread() == old(Unread())
        decreases br.Effort()
      {
        var q, e := br.Read(if left < DISCARD_SIZE then left else DISCARD_SIZE);
        ConcatAssoc(skipped, q, Unread());
        skipped := skipped + q;
        left := left - |q|;
        if e.Some? {
          return Some(EndOfFile);
        }
      }
      CutOff(skipped, Unread(), old(Unread()));
      return None;
    }

    /** The connection is where p says, or stopped with its error. */
    ghost predicate Parses(p: Parsed, frameType: int, err: Option<ReadError>)
      requires Valid()
      reads this, br, br.buf, br.rd
    {
      match p
      case Bad(e) => err == Some(e)
      case Parsed(opcode, st, rest) => err.None? && frameType == opcode && Here() == st && Unread() == rest
    }

    ghost function ErrorReply(p: Parsed): seq<Reply> {
      if p.Bad? && p.err.Protocol? then [ProtocolReply(p.err.reason)] else []
    }

    method handleProtocolError(reason: ProtocolError) returns (err: Option<ReadError>)
      modifies this`replies
      ensures err == Some(Protocol(reason)) && replies == old(replies) + [ProtocolReply(reason)]
    {
      replies := replies + [ProtocolReply(reason)];
      err := Some(Protocol(reason));
    }

    /** Section 4 of advanceFrame: the mask flag and the key. */
    method readMask(h: Head) returns (err: Option<ReadError>)
      requires Valid()
      modifies this`readMaskPos, this`readMaskKey, this`replies, br, br.buf, br.rd
      ensures Valid() && br.Effort() <= old(br.Effort())
      ensures var p := ParseMask(isServer, h, State(readFinal, readRemaining, None, 0), old(Unread()));
              Parses(p, h.opcode, err) && replies == old(replies) + ErrorReply(p)
    {
      if h.masked != isServer {
        err := handleProtocolError(IncorrectMask);
        return;
      }
      if h.masked {
        readMaskPos := 0;
        var key, e := readFull(4);
        if e.Some? {
          return e;
        }
        readMaskKey := key;
      }
      return None;
    }

    /** Section 3 of advanceFrame: the extended length. */
    method readLength(h: Head) returns (err: Option<ReadError>)
      requires Valid() && h.length < 128 && readRemaining == h.length
      modifies this`readRemaining, this`readMaskPos, this`readMaskKey, this`replies, br, br.buf, br.rd
      ensures Valid() && br.Effort() <= old(br.Effort())
      ensures var p := ParseLength(isServer, h, readFinal, old(Unread()));
              Parses(p, h.opcode, err) && replies == old(replies) + ErrorReply(p)
    {
      Pow256();
      if readRemaining == 126 {
        var b, e := readFull(2);
        if e.Some? {
          return e;
        }
        readRemaining := FromBigEndian(b);
      } else if readRemaining == 127 {
        var b, e := readFull(8);
        if e.Some? {
          return e;
        }
        readRemaining := ToInt64(FromBigEndian(b));
      } else {
        assert Unread()[..0] == [] && Unread()[0..] == Unread();
      }
      err := readMask(h);
    }

    /** Section 2 of advanceFrame: the first two bytes. */
    method readHeader() returns (frameType: int, err: Option<ReadError>)
      requires Valid()
      modifies this`readRemaining, this`readFinal, this`readMaskPos, this`readMaskKey, this`replies, br, br.buf, br.rd
      ensures Valid() && br.Effort() <= old(br.Effort())
      ensures var p := ParseHeader(isServer, old(readFinal), old(Unread()));
              Parses(p, frameType, err) && replies == old(replies) + ErrorReply(p)
    {
      var b, e := readFull(2);
      if e.Some? {
        return NO_FRAME, e;
      }
      var h := HeadOf(b[0], b[1]);
      frameType := h.opcode;
      readRemaining := h.length;
      if h.reserved != 0 {
        err := handleProtocolError(ReservedBits);
        return;
      }
      if IsControl(frameType) {
        if readRemaining > MAX_CONTROL_PAYLOAD {
          err := handleProtocolError(ControlTooLong);
          return;
        }
        if !h.final {
          err := handleProtocolError(ControlNotFinal);
          return;
        }
      } else if IsData(frameType) {
        if !readFinal {
          err := handleProtocolError(StartBeforeFinal);
          return;
        }
        readFinal := h.final;
      } else if frameType == CONTINUATION {
        if readFinal {
          err := handleProtocolError(ContinuationAfterFinal);
          return;
        }
        readFinal := h.final;
      } else {
        err := handleProtocolError(UnknownOpcode);
        return;
      }
      err := readLength(h);
    }

    /** Sections 6 and 7 of advanceFrame: the payload of a control frame and what it asks for. */
    method readControl(frameType: nat) returns (err: Option<ReadError>)
      requires Valid() && 0 <= readRemaining && IsControl(frameType) && (isServer ==> readMaskPos == 0)
      modifies this`readRemaining, this`replies, br, br.buf, br.rd
      ensures Valid() && br.Effort() <= old(br.Effort())
      ensures var st, s := old(Here()), old(Unread());
              Reaches(if |s| < st.remaining then Fail(UnexpectedEOF, [])
                      else Process(frameType, st.Unmask(s[..st.remaining]), st.(remaining := 0), s[st.remaining..]),
                      old(replies), frameType, err)
    {
      var payload: bytes := [];
      assert Unread()[..0] == [] && Unread()[0..] == Unread();
      if readRemaining > 0 {
        var n := readRemaining;
        readRemaining := 0;
        payload, err := readFull(n);
        if err.Some? {
          assert replies == replies + [];
          return;
        }
        if isServer {
          payload := Mask(readMaskKey, 0, payload);
        }
      }
      if frameType == PING {
        replies := replies + [PongReply(payload)];
      } else if frameType == CLOSE {
        replies := replies + [CloseReply];
        return Some(CloseError(payload));
      } else {
        assert replies == replies + [];
      }
      return None;
    }

    /** The connection made the step r. */
    ghost predicate Reaches(r: Step, before: seq<Reply>, frameType: int, err: Option<ReadError>)
      requires Valid()
      reads this, br, br.buf, br.rd
    {
      && replies == before + r.replies
      && match r
         case Fail(e, _) => err == Some(e)
         case Step(opcode, st, rest, _) => err.None? && frameType == opcode && Here() == st && Unread() == rest
    }

    /** advanceFrame from section 2 on, at a frame boundary. */
    method nextFrame() returns (frameType: int, err: Option<ReadError>)
      requires Valid()
      modifies this`readRemaining, this`readFinal, this`readMaskPos, this`readMaskKey, this`replies, br, br.buf, br.rd
      ensures Valid() && br.Effort() <= old(br.Effort())
      ensures Reaches(Advance(isServer, old(readFinal), old(Unread())), old(replies), frameType, err)
    {
      frameType, err := readHeader();
      if err.Some? {
        return;
      }
      assert replies == old(replies) + [];
      if IsControl(frameType) {
        err := readControl(frameType);
      }
    }

    /** The next frame from here, after the rest of the current one. */
    ghost function NextStep(): Step
      requires Valid()
      reads this, br, br.buf, br.rd
    {
      StepFrom(isServer, Here(), Unread())
    }

    method advanceFrame() returns (frameType: int, err: Option<ReadError>)
      requires Valid()
      modifies this`readRemaining, this`readFinal, this`readMaskPos, this`readMaskKey, this`replies, br, br.buf, br.rd
      ensures Valid() && br.Effort() <= old(br.Effort())
      ensures Reaches(old(NextStep()), old(replies), frameType, err)
    {
      err := skip();
      if err.Some? {
        assert replies == old(replies) + [];
        return NO_FRAME, err;
      }
      frameType, err := nextFrame();
    }

    /** NextReader made what n says of the stream. */
    ghost predicate Arrives(n: Next, before: seq<Reply>, messageType: int, err: Option<ReadError>)
      requires Valid()
      reads this, br, br.buf, br.rd
    {
      && replies == before + n.replies && readErr == err
      && match n
         case NoMessage(e, _) => err == Some(e)
         case Started(kind, st, rest, _) => err.None? && messageType == kind && Here() == st && Unread() == rest
    }

    ghost function NextStart(): Next
      requires Valid()
      reads this, br, br.buf, br.rd
    {
      NextMessage(isServer, Here(), Unread())
    }

    /** NextReader without the step of readSeq; all its replies are rs. */
    method findStart() returns (messageType: int, err: Option<ReadError>)
      requires Valid() && readErr.None?
      modifies this, br, br.buf, br.rd
      ensures Valid() && br.Effort() <= old(br.Effort()) && readSeq == old(readSeq)
      ensures Arrives(old(NextStart()), old(replies), messageType, err)
    {
      ghost var rs: seq<Reply> := [];
      AddNoReplies(NextStart());
      while true
        invariant Valid() && br.Effort() <= old(br.Effort()) && readErr.None? && readSeq == old(readSeq)
        invariant replies == old(replies) + rs
        invariant old(NextStart()) == AddReplies(rs, NextStart())
        decreases |Unread()|
      {
        ghost var r := NextStep();
        NextIsStep(isServer, Here(), Unread());
        WsStream.NextStep(isServer, r, rs);
        var frameType, e := advanceFrame();
        ReplyAssoc(old(replies), rs, r.replies);
        if e.Some? {
          readErr := e;
          return NO_FRAME, e;
        }
        if IsData(frameType) {
          return frameType, None;
        }
        rs := rs + r.replies;
      }
    }

    /** The message reader is the sequence number it was made with. */
    method NextReader() returns (messageType: int, reader: nat, err: Option<ReadError>)
      requires Valid()
      modifies this, br, br.buf, br.rd
      ensures Valid() && br.Effort() <= old(br.Effort())
      ensures readSeq == old(readSeq) + 1 && reader == readSeq
      ensures old(readErr).Some? ==> err == readErr == old(readErr) && replies == old(replies) && messageType == NO_FRAME
      ensures old(readErr).None? ==> Arrives(old(NextStart()), old(replies), messageType, err)
    {
      readSeq := readSeq + 1;
      reader := readSeq;
      if readErr.Some? {
        return NO_FRAME, reader, readErr;
      }
      messageType, err := findStart();
    }

    /** Part of the current frame; the caller's slice has length max. */
    method readPart(max: nat) returns (p: bytes, err: Option<ReadError>)
      requires Valid() && readErr.None? && readRemaining > 0
      modifies this`readErr, this`readRemaining, this`readMaskPos, br, br.buf, br.rd
      ensures Valid() && |p| <= max && readErr == err
      ensures br.Effort() <= old(br.Effort()) && (max > 0 && err.None? ==> br.Effort() < old(br.Effort()))
      ensures err.None? ==> old(Left()) == Prepend(p, [], Left())
      ensures err.Some? ==> err == Some(EndOfFile) && p == [] && old(Left()) == Content([], [], Truncated)
    {
      ghost var st := Here();
      var q, e := br.Read(if max < readRemaining then max else readRemaining);
      ReadPart(isServer, st, q, Unread());
      if e.Some? {
        readErr := Some(EndOfFile);
        return [], readErr;
      }
      p := q;
      if isServer {
        p := Mask(readMaskKey, readMaskPos, q);
        readMaskPos := (readMaskPos + |q|) % 4;
      }
      readRemaining := readRemaining - |q|;
      assert Here() == st.Advanced(|q|);
      return p, None;
    }

    /** Control and continuation frames up to unread data, the end of the message, or an error. */
    method findData() returns (ghost rs: seq<Reply>)
      requires Valid() && readErr.None?
      modifies this`readErr, this`readRemaining, this`readFinal, this`readMaskPos, this`readMaskKey, this`replies,
               br, br.buf, br.rd
      ensures Valid() && br.Effort() <= old(br.Effort()) && replies == old(replies) + rs
      ensures readErr.None? ==> old(Left()) == Prepend([], rs, Left()) && (readRemaining > 0 || readFinal)
      ensures readErr.Some? ==> readErr != Some(EndOfFile) && old(Left()) == Content([], rs, Broken(readErr.value))
    {
      rs := [];
      PrependNothing(Left());
      while readRemaining <= 0 && !readFinal
        invariant Valid() && br.Effort() <= old(br.Effort()) && readErr.None?
        invariant replies == old(replies) + rs && old(Left()) == Prepend([], rs, Left())
        decreases |Unread()|
      {
        ghost var r := NextStep();
        BoundaryStep(isServer, Here(), Unread(), rs);
        var frameType, e := advanceFrame();
        ReplyAssoc(old(replies), rs, r.replies);
        rs := rs + r.replies;
        if e.Some? {
          readErr := e;
          return;
        }
        // The error for text or binary data inside a message is never reported.
        assert !IsData(frameType);
      }
    }

    /** What Read made of the content before. */
    ghost predicate Delivers(before: Content, p: bytes, rs: seq<Reply>, err: Option<ReadError>)
      requires Valid()
      reads this, br, br.buf, br.rd
    {
      match err
      case None => readErr.None? && before == Prepend(p, rs, Left())
      case Some(e) =>
        && p == [] && before.data == [] && rs == before.replies
        && match before.end
           case Done(rest) => e == EndOfFile && readErr.None? && readFinal && Here().Left() == 0 && Unread() == rest
           case Truncated => e == EndOfFile && readErr == err
           case Broken(e') => e == e' && readErr == err
    }

    /** Read by the current reader, while there was no error. */
    method readOpen(max: nat) returns (p: bytes, err: Option<ReadError>, ghost rs: seq<Reply>)
      requires Valid() && readErr.None?
      modifies this, br, br.buf, br.rd
      ensures Valid() && |p| <= max && replies == old(replies) + rs
      ensures br.Effort() <= old(br.Effort()) && (max > 0 && err.None? ==> br.Effort() < old(br.Effort()))
      ensures Delivers(old(Left()), p, rs, err)
      ensures readSeq == old(readSeq) + if err.Some? && readErr.None? then 1 else 0
    {
      rs := findData();
      if readErr.Some? {
        return [], readErr, rs;
      }
      if readRemaining > 0 {
        p, err := readPart(max);
        PrependTwice([], rs, p, [], Left());
        assert rs + [] == rs;
        return;
      }
      FrameEnd(isServer, Here(), Unread());
      readSeq := readSeq + 1;
      return [], Some(EndOfFile), rs;
    }

    /** messageReader.Read: nothing is lost or repeated for any sizes of the caller's slices. */
    method Read(reader: nat, max: nat) returns (p: bytes, err: Option<ReadError>, ghost rs: seq<Reply>)
      requires Valid()
      modifies this, br, br.buf, br.rd
      ensures Valid() && |p| <= max && replies == old(replies) + rs
      ensures br.Effort() <= old(br.Effort())
      ensures reader == old(readSeq) && max > 0 && err.None? ==> br.Effort() < old(br.Effort())
      ensures reader != old(readSeq) ==> p == [] && rs == [] && err == Some(EndOfFile)
      ensures reader != old(readSeq) || old(readErr).Some? ==>
                readSeq == old(readSeq) && readErr == old(readErr) && Here() == old(Here()) && Unread() == old(Unread())
      ensures reader == old(readSeq) && old(readErr).Some? ==>
                p == [] && rs == [] && err == Some(if old(readErr) == Some(EndOfFile) then UnexpectedEOF else old(readErr).value)
      ensures reader == old(readSeq) && old(readErr).None? ==>
                && Delivers(old(Left()), p, rs, err)
                && readSeq == old(readSeq) + if err.Some? && readErr.None? then 1 else 0
    {
      rs := [];
      if reader != readSeq {
        assert replies == replies + rs;
        return [], Some(EndOfFile), rs;
      }
      if readErr.None? {
        p, err, rs := readOpen(max);
      } else {
        assert replies == replies + rs;
        p, err := [], if readErr == Some(EndOfFile) then Some(UnexpectedEOF) else readErr;
      }
    }

    /** All of the content c was read; a message cut short inside a frame is not reported as an error. */
    ghost predicate Completes(c: Content, data: bytes, before: seq<Reply>, err: Option<ReadError>)
      requires Valid()
      reads this, br, br.buf, br.rd
    {
      && data == c.data && replies == before + c.replies
      && match c.end
         case Done(rest) => err.None? && readErr.None? && readFinal && Here().Left() == 0 && Unread() == rest
         case Truncated => err.None? && readErr == Some(EndOfFile)
         case Broken(e) => err == Some(e) && readErr == err
    }

    /** The last step of reading the content whole in pieces. */
    lemma {:induction false} LastRead(whole: Content, data: bytes, rs: seq<Reply>, c: Content, more: seq<Reply>,
        before: seq<Reply>, err: Option<ReadError>)
      requires Valid() && whole == Prepend(data, rs, c) && Delivers(c, [], more, err) && err.Some?
      requires replies == (before + rs) + more
      ensures Completes(whole, data, before, if err == Some(EndOfFile) && !c.end.Broken? then None else err)
    {
      ReplyAssoc(before, rs, more);
    }

    /** ioutil.ReadAll with any positive sizes of the slices it reads into. */
    method ReadAll(reader: nat) returns (data: bytes, err: Option<ReadError>)
      requires Valid() && readErr.None? && reader == readSeq
      modifies this, br, br.buf, br.rd
      ensures Valid() && br.Effort() <= old(br.Effort()) && Completes(old(Left()), data, old(replies), err)
    {
      data, err := [], None;
      ghost var rs: seq<Reply> := [];
      PrependNothing(Left());
      while true
        invariant Valid() && readErr.None? && reader == readSeq && br.Effort() <= old(br.Effort())
        invariant old(Left()) == Prepend(data, rs, Left()) && replies == old(replies) + rs
        decreases br.Effort()
      {
        var size: nat :| size > 0;
        ghost var c := Left();
        var p, e, more := Read(reader, size);
        if e.Some? {
          LastRead(old(Left()), data, rs, c, more, old(replies), e);
          if e != Some(EndOfFile) {
            err := e;
          }
          return;
        }
        PrependTwice(data, rs, p, more, Left());
        ReplyAssoc(old(replies), rs, more);
        data, rs := data + p, rs + more;
      }
    }

    method ReadMessage() returns (messageType: int, data: bytes, err: Option<ReadError>)
      requires Valid()
      modifies this, br, br.buf, br.rd
      ensures Valid()
      ensures old(readErr).Some? ==> err == readErr == old(readErr) && data == [] && replies == old(replies)
      ensures old(readErr).None? ==>
                var n := old(NextStart());
                match n
                case NoMessage(_, _) => data == [] && Arrives(n, old(replies), messageType, err)
                case Started(kind, st, rest, rs) =>
                  messageType == kind && Completes(InFrame(isServer, st, rest), data, old(replies) + rs, err)
    {
      var reader;
      messageType, reader, err := NextReader();
      if err.Some? {
        return messageType, [], err;
      }
      data, err := ReadAll(reader);
    }
  }
}
