/** The write half of a WebSocket connection, gorilla/websocket conn.go. */
module WsWriter {
  import opened Bytes
  import opened Frames
  import BufReader

  datatype WriteError = CloseSent | BadWriteOpCode | InvalidControlFrame | WriteTimeout | WriteClosed | NetworkError | InternalError

  const MAX_FRAME_HEADER := 14

  /** The network side: accepts a prefix of each buffer, all of it when there is no error. */
  class Network {
    var wire: bytes
    var open: bool
    // How many writes have failed.
    ghost var failures: nat

    constructor ()
      ensures wire == [] && open && failures == 0
    {
      wire, open, failures := [], true, 0;
    }

    method Write(buf: bytes) returns (n: nat, failed: bool)
      modifies this`wire, this`failures
      ensures n <= |buf| && failed == (n < |buf|)
      ensures wire == old(wire) + buf[..n]
      ensures !open && buf != [] ==> n == 0
      ensures failures == old(failures) + if failed then 1 else 0
    {
      n :| 0 <= n <= |buf| && (!open ==> n == 0);
      wire := wire + buf[..n];
      failed := n < |buf|;
      if failed {
        failures := failures + 1;
      }
    }

    method Close()
      modifies this`open
      ensures !open
    {
      open := false;
    }
  }

  /** The wire holds the frames fs and the first n bytes of one more, which could follow them. */
  ghost predicate Torn(wire: bytes, fs: seq<Frame>, masked: bool, f: Frame, n: nat)
    requires AllValid(fs)
  {
    LegalNext(Run(START, fs), f, masked) && n < |Encode(f)| && wire == EncodeAll(fs) + Encode(f)[..n]
  }

  /** Everything on the wire is whole frames, and perhaps a part of one more once the network is closed. */
  ghost predicate Carries(wire: bytes, open: bool, fs: seq<Frame>, masked: bool) {
    && AllValid(fs)
    && (wire == EncodeAll(fs) || (!open && exists f: Frame, n: nat :: Torn(wire, fs, masked, f, n)))
  }

  /** The frames after grew from the frames before by control frames of other goroutines only. */
  ghost predicate OnlyControls(before: seq<Frame>, after: seq<Frame>) {
    && before <= after
    && (forall i :: |before| <= i < |after| ==> IsControl(after[i].opcode))
    && Run(START, after).done == Run(START, before).done && Run(START, after).open == Run(START, before).open
  }

  /** What a message writer may add before its message ends: control frames of others, and fragments of one size. */
  ghost predicate Fragments(before: seq<Frame>, after: seq<Frame>, size: int) {
    && before <= after
    && forall i :: |before| <= i < |after| ==> IsControl(after[i].opcode) || (!after[i].final && |after[i].payload| == size)
  }

  lemma {:induction false} FragmentsTrans(a: seq<Frame>, b: seq<Frame>, c: seq<Frame>, size: int)
    requires Fragments(a, b, size) && Fragments(b, c, size)
    ensures Fragments(a, c, size)
  {
    assert forall i :: |a| <= i < |b| ==> c[i] == b[i];
  }

  /** What the state of the open message asks of the next frame. */
  ghost predicate Fits(open: Option<Message>, f: Frame, masked: bool) {
    && ValidFrame(f) && f.key.Some? == masked
    && (f.opcode == CONTINUATION ==> open.Some?)
    && (IsData(f.opcode) ==> open.None?)
  }

  lemma {:induction false} CarriesWhole(wire: bytes, fs: seq<Frame>, masked: bool, f: Frame, out: bytes)
    requires Carries(wire, true, fs, masked) && ValidFrame(f) && out == Encode(f)
    ensures Carries(wire + out, true, fs + [f], masked)
  {
    EncodeSnoc(fs, f);
  }

  lemma {:induction false} CarriesPart(wire: bytes, fs: seq<Frame>, masked: bool, f: Frame, n: nat)
    requires Carries(wire, true, fs, masked) && LegalNext(Run(START, fs), f, masked) && n < |Encode(f)|
    ensures Carries(wire + Encode(f)[..n], false, fs, masked)
  {
    assert Torn(wire + Encode(f)[..n], fs, masked, f, n);
  }

  lemma {:induction false} AddControl(before: seq<Frame>, fs: seq<Frame>, f: Frame, masked: bool)
    requires OnlyControls(before, fs) && Legal(START, fs, masked) && !Run(START, fs).closed
    requires ValidFrame(f) && IsControl(f.opcode) && f.key.Some? == masked
    ensures OnlyControls(before, fs + [f]) && Legal(START, fs + [f], masked)
    ensures Run(START, fs + [f]).closed ==> f.opcode == CLOSE
  {
    RunSnoc(START, fs, f, masked);
  }

  /** The open message is what the wire has of it followed by what is buffered. */
  ghost predicate InSync(a: Assembly, sent: seq<Message>, frameType: int, current: Message, buffered: bytes) {
    && a.done == sent
    && (frameType == NO_FRAME ==> a.open.None? && buffered == [])
    && (IsData(frameType) || IsControl(frameType) ==> a.open.None? && current == Message(frameType, buffered))
    && (frameType == CONTINUATION ==>
          && a.open.Some? && IsData(current.kind) && current.kind == a.open.value.kind
          && current.data == a.open.value.data + buffered)
  }

  /** A flushed frame moves the buffered bytes and the extra ones to the wire. */
  lemma {:induction false} FeedSync(a: Assembly, sent: seq<Message>, frameType: int, current: Message, buffered: bytes,
      extra: bytes, f: Frame)
    requires InSync(a, sent, frameType, current, buffered)
    requires frameType == CONTINUATION || IsData(frameType) || IsControl(frameType)
    requires f.opcode == frameType && f.payload == buffered + extra && (IsControl(frameType) ==> f.final)
    ensures var m := Message(current.kind, current.data + extra);
            InSync(Feed(a, f), sent + (if f.final && IsData(m.kind) then [m] else []),
                   if f.final then NO_FRAME else CONTINUATION, m, [])
  {
    if frameType == CONTINUATION {
      ConcatAssoc(a.open.value.data, buffered, extra);
    }
  }

  class Conn {
    const conn: Network
    const isServer: bool
    const writeBuf: array<byte>

    // Protected by the mutex.
    var closeSent: bool
    ghost var frames: seq<Frame>

    // The message being written.
    var writeErr: Option<WriteError>
    var writePos: nat
    var writeFrameType: int
    var writeSeq: nat
    ghost var sent: seq<Message>
    ghost var current: Message
    ghost var issued: set<nat>

    constructor (conn: Network, isServer: bool, writeBufferSize: nat)
      requires conn.wire == [] && conn.open && writeBufferSize + MAX_FRAME_HEADER < MAX_LENGTH
      ensures Valid() && fresh(writeBuf) && this.conn == conn && this.isServer == isServer
      ensures writeErr.None? && writeFrameType == NO_FRAME && sent == [] && frames == [] && issued == {}
      ensures writeBuf.Length == MAX_FRAME_HEADER + (if writeBufferSize == 0 then 4096 else writeBufferSize) && Buffered() == []
    {
      var size := if writeBufferSize == 0 then 4096 else writeBufferSize;
      this.conn, this.isServer := conn, isServer;
      writeBuf := new byte[size + MAX_FRAME_HEADER](_ => 0);
      closeSent, frames := false, [];
      writeErr, writePos, writeFrameType, writeSeq := None, MAX_FRAME_HEADER, NO_FRAME, 0;
      sent, current, issued := [], Message(TEXT, []), {};
    }

    ghost predicate WireValid()
      reads this, conn
    {
      && Legal(START, frames, !isServer)
      && Carries(conn.wire, conn.open, frames, !isServer)
      && (Run(START, frames).closed ==> closeSent)
    }

    /** Bytes of the current frame that are still in the buffer. */
    ghost function Buffered(): bytes
      requires MAX_FRAME_HEADER <= writePos <= writeBuf.Length
      reads this, writeBuf
    {
      writeBuf[MAX_FRAME_HEADER..writePos]
    }

    ghost predicate Synced()
      requires MAX_FRAME_HEADER <= writePos <= writeBuf.Length
      reads this, writeBuf
    {
      InSync(Run(START, frames), sent, writeFrameType, current, Buffered())
    }

    /** The reason behind an error of the message writer, which is kept for good. */
    ghost predicate Caused(err: Option<WriteError>)
      reads this, conn
    {
      match err
      case None => true
      case Some(CloseSent) => closeSent
      case Some(NetworkError) => !conn.open
      case Some(InternalError) => !isServer
      case _ => false
    }

    ghost predicate Valid()
      reads this, conn, writeBuf
    {
      && WireValid() && Caused(writeErr)
      && MAX_FRAME_HEADER <= writePos <= writeBuf.Length && MAX_FRAME_HEADER < writeBuf.Length < MAX_LENGTH
      && (writeFrameType == NO_FRAME || writeFrameType == CONTINUATION || IsData(writeFrameType) || IsControl(writeFrameType))
      && (forall s :: s in issued ==> s <= writeSeq)
      && (writeSeq in issued <==> writeFrameType != NO_FRAME)
      && Run(START, frames).done == sent
      && (writeErr.None? ==> Synced())
    }

    /** What every operation keeps: no byte follows a close frame, and the numbers of finished writers stay behind. */
    twostate predicate Onward()
      reads this, conn
    {
      && (old(closeSent) ==> closeSent && conn.wire == old(conn.wire))
      && old(writeSeq) <= writeSeq && old(issued) <= issued && old(frames) <= frames
    }

    /** The network is closed only after a failed write, and a new error of the message writer has a new cause. */
    twostate predicate Tried()
      reads this, conn
    {
      && old(conn.failures) <= conn.failures
      && (old(conn.open) && !conn.open ==> old(conn.failures) < conn.failures)
      && (writeErr == old(writeErr) || (writeErr == Some(NetworkError) && old(conn.failures) < conn.failures)
          || (writeErr == Some(CloseSent) && closeSent))
    }

    /** What a finished writer changes: nothing. */
    twostate predicate Untouched()
      reads this, conn
    {
      && conn.wire == old(conn.wire) && conn.open == old(conn.open) && closeSent == old(closeSent) && frames == old(frames)
      && sent == old(sent) && current == old(current) && writeFrameType == old(writeFrameType)
      && writeSeq == old(writeSeq) && writeErr == old(writeErr) && writePos == old(writePos)
    }

    /** Nothing was sent. */
    twostate predicate Silent()
      reads this, conn
    {
      conn.wire == old(conn.wire) && conn.open == old(conn.open) && frames == old(frames)
    }

    /** The payload of a frame that fills the buffer. */
    function Room(): int {
      writeBuf.Length - MAX_FRAME_HEADER
    }

    /** A message written whole goes out in one frame when it fits the buffer, or is too large to be buffered by a server. */
    predicate InOneFrame(n: nat) {
      n <= Room() || (isServer && n > 2 * writeBuf.Length)
    }

    /** Closes the network connection; nothing more reaches the wire. */
    method Close()
      requires Valid()
      modifies conn
      ensures Valid() && !conn.open && conn.wire == old(conn.wire)
    {
      conn.Close();
    }

    method newMaskKey() returns (key: bytes)
      ensures |key| == 4
    {
      var a: byte, b: byte, c: byte, d: byte := *, *, *, *;
      key := [a, b, c, d];
    }

    /** deadline tells whether the mutex was obtained in time. */
    method WriteControl(messageType: int, data: bytes, inTime: bool) returns (err: Option<WriteError>)
      requires WireValid()
      modifies conn, this`closeSent, this`frames
      ensures WireValid() && OnlyControls(old(frames), frames)
      ensures err == Some(BadWriteOpCode) <==> !IsControl(messageType)
      ensures err == Some(InvalidControlFrame) <==> IsControl(messageType) && |data| > MAX_CONTROL_PAYLOAD
      ensures err == Some(WriteTimeout) <==> IsControl(messageType) && |data| <= MAX_CONTROL_PAYLOAD && !inTime
      ensures err == Some(CloseSent) ==> old(closeSent)
      ensures err == Some(NetworkError) ==> old(conn.failures) < conn.failures
      ensures Tried() && (conn.wire == old(conn.wire) ==> conn.open == old(conn.open))
      ensures closeSent <==> old(closeSent) || (messageType == CLOSE && (err.None? || err == Some(NetworkError)))
      ensures err.Some? ==> frames == old(frames) && err != Some(WriteClosed) && err != Some(InternalError)
      ensures err.None? ==> |frames| == |old(frames)| + 1 && frames[|old(frames)|].opcode == messageType
                            && frames[|old(frames)|].payload == data
      ensures old(closeSent) ==> err.Some? && closeSent && conn.wire == old(conn.wire)
      ensures !old(conn.open) ==> !conn.open
      ensures old(Valid()) ==> Valid()
    {
      hide Legal, Carries, Run, Feed;
      if !IsControl(messageType) {
        return Some(BadWriteOpCode);
      }
      if |data| > MAX_CONTROL_PAYLOAD {
        return Some(InvalidControlFrame);
      }
      var buf, key := [FirstByte(true, messageType)], None;
      if isServer {
        buf := buf + [|data|] + data;
      } else {
        var k := newMaskKey();
        key := Some(k);
        buf := buf + [|data| + 128] + k + Mask(k, 0, data);
      }
      ghost var f := Frame(true, messageType, key, data);
      ControlBytes(f, buf);
      if !inTime {
        return Some(WriteTimeout);
      }
      err := sendControl(f, messageType, buf);
    }

    /** WriteControl once it holds the mutex. */
    method sendControl(ghost f: Frame, messageType: int, buf: bytes) returns (err: Option<WriteError>)
      requires WireValid() && ValidFrame(f) && IsControl(f.opcode) && f.opcode == messageType && f.key.Some? == !isServer
      requires buf == Encode(f)
      modifies conn, this`closeSent, this`frames
      ensures WireValid() && OnlyControls(old(frames), frames)
      ensures frames == if err.None? then old(frames) + [f] else old(frames)
      ensures old(closeSent) ==> err.Some? && closeSent && conn.wire == old(conn.wire)
      ensures err.Some? ==> err == Some(if old(closeSent) then CloseSent else NetworkError)
      ensures err == Some(NetworkError) ==> old(conn.failures) < conn.failures
      ensures Tried() && (conn.wire == old(conn.wire) ==> conn.open == old(conn.open))
      ensures closeSent <==> old(closeSent) || messageType == CLOSE
      ensures !old(conn.open) ==> !conn.open
    {
      hide Run, Feed;
      if closeSent {
        return Some(CloseSent);
      }
      if messageType == CLOSE {
        closeSent := true;
      }
      var n, failed := conn.Write(buf);
      if n != 0 && n != |buf| {
        CarriesPart(old(conn.wire), frames, !isServer, f, n);
        conn.Close();
      }
      if failed {
        assert n == 0 ==> buf[..0] == [] && conn.wire == old(conn.wire);
        return Some(NetworkError);
      }
      assert buf[..n] == buf;
      CarriesWhole(old(conn.wire), frames, !isServer, f, buf);
      AddControl(frames, frames, f, !isServer);
      frames := frames + [f];
      return None;
    }

    /** What other goroutines do while this one waits for the mutex: any WriteControl calls. */
    method OtherGoroutines()
      requires WireValid()
      modifies conn, this`closeSent, this`frames
      ensures WireValid() && OnlyControls(old(frames), frames)
      ensures old(closeSent) ==> closeSent && conn.wire == old(conn.wire) && frames == old(frames)
      ensures !old(conn.open) ==> !conn.open
      ensures Tried()
    {
      var calls: nat := *;
      while calls > 0
        invariant WireValid() && OnlyControls(old(frames), frames)
        invariant old(closeSent) ==> closeSent && conn.wire == old(conn.wire) && frames == old(frames)
        invariant !old(conn.open) ==> !conn.open
        invariant Tried()
      {
        var messageType: int, data: bytes, inTime: bool := *, *, *;
        ghost var before := frames;
        var err := WriteControl(messageType, data, inTime);
        ControlsTrans(old(frames), before, frames);
        calls := calls - 1;
      }
    }

    /** One buffer of write: closes the network on a partial write. */
    method writeBuffer(buf: bytes) returns (failed: bool, ghost n: nat)
      modifies conn
      ensures n <= |buf| && conn.wire == old(conn.wire) + buf[..n]
      ensures !failed ==> n == |buf| && conn.open == old(conn.open) && (buf != [] ==> conn.open)
      ensures failed ==> !conn.open && n < |buf|
      ensures !old(conn.open) ==> n == 0
      ensures conn.failures == old(conn.failures) + if failed then 1 else 0
    {
      if |buf| > 0 {
        var k, err := conn.Write(buf);
        n := k;
        if k != |buf| {
          conn.Close();
        }
        failed := err;
      } else {
        failed, n := false, 0;
        assert buf[..0] == [];
      }
    }

    /** write: the frame f is in buf and extra. */
    method write(ghost f: Frame, frameType: int, buf: bytes, extra: bytes)
      returns (err: Option<WriteError>, ghost mid: seq<Frame>)
      requires WireValid() && Fits(Run(START, frames).open, f, !isServer)
      requires frameType == f.opcode && buf != [] && buf + extra == Encode(f)
      modifies conn, this`closeSent, this`frames
      ensures WireValid() && Tried()
      ensures err.Some? ==> OnlyControls(old(frames), frames) && Caused(err) && err != Some(InternalError)
      ensures err == Some(NetworkError) ==> old(conn.failures) < conn.failures
      ensures frameType == CLOSE ==> closeSent
      ensures err.None? ==> OnlyControls(old(frames), mid) && frames == mid + [f]
                            && Run(START, frames) == Feed(Run(START, mid), f)
      ensures old(closeSent) ==> closeSent && err == Some(CloseSent) && conn.wire == old(conn.wire)
    {
      OtherGoroutines();
      mid := frames;
      err := writeLocked(f, frameType, buf, extra);
    }

    /** write once it holds the mutex. */
    method writeLocked(ghost f: Frame, frameType: int, buf: bytes, extra: bytes) returns (err: Option<WriteError>)
      requires WireValid() && Fits(Run(START, frames).open, f, !isServer)
      requires frameType == f.opcode && buf != [] && buf + extra == Encode(f)
      modifies conn, this`closeSent, this`frames
      ensures WireValid() && Tried()
      ensures err == Some(NetworkError) ==> old(conn.failures) < conn.failures
      ensures closeSent <==> old(closeSent) || frameType == CLOSE
      ensures err.Some? ==> frames == old(frames) && err != Some(InternalError)
      ensures Caused(err) && (err == Some(CloseSent) ==> old(closeSent))
      ensures err.None? ==> frames == old(frames) + [f] && Run(START, frames) == Feed(Run(START, old(frames)), f)
      ensures old(closeSent) ==> closeSent && err == Some(CloseSent) && conn.wire == old(conn.wire)
    {
      if closeSent {
        return Some(CloseSent);
      } else if frameType == CLOSE {
        closeSent := true;
      }
      var failed := writeBuffers(frames, f, buf, extra);
      if failed {
        return Some(NetworkError);
      }
      AddFrame(frames, f, !isServer);
      frames := frames + [f];
      return None;
    }

    /** The loop of write over its two buffers. */
    method writeBuffers(ghost fs: seq<Frame>, ghost f: Frame, buf: bytes, extra: bytes) returns (failed: bool)
      requires Carries(conn.wire, conn.open, fs, !isServer) && LegalNext(Run(START, fs), f, !isServer)
      requires buf != [] && buf + extra == Encode(f)
      modifies conn
      ensures failed ==> Carries(conn.wire, conn.open, fs, !isServer) && !conn.open
      ensures !failed ==> Carries(conn.wire, conn.open, fs + [f], !isServer) && conn.open == old(conn.open)
      ensures conn.failures == old(conn.failures) + if failed then 1 else 0
    {
      ghost var wire, open := conn.wire, conn.open;
      ghost var n, k;
      failed, n := writeBuffer(buf);
      if failed {
        TornFrame(wire, open, fs, !isServer, f, buf, extra, n, 0);
        assert extra[..0] == [] && conn.wire == wire + buf[..n] + [];
        return;
      }
      failed, k := writeBuffer(extra);
      if failed {
        TornFrame(wire, open, fs, !isServer, f, buf, extra, n, k);
        return;
      }
      WholeFrame(wire, fs, !isServer, f, buf, extra);
    }

    method putBytes(pos: nat, s: bytes)
      requires pos + |s| <= writeBuf.Length
      modifies writeBuf
      ensures writeBuf[pos..pos + |s|] == s
      ensures writeBuf[..pos] == old(writeBuf[..pos]) && writeBuf[pos + |s|..] == old(writeBuf[pos + |s|..])
    {
      forall i | 0 <= i < |s| {
        writeBuf[pos + i] := s[i];
      }
    }

    /** The two fixed bytes and the extended length, k bytes in network order. */
    method putLength(framePos: nat, b0: byte, b1: byte, length: nat, k: nat)
      requires framePos + 2 + k <= MAX_FRAME_HEADER < writeBuf.Length
      modifies writeBuf
      ensures writeBuf[framePos..framePos + 2 + k] == [b0, b1] + BigEndian(length, k)
      ensures writeBuf[MAX_FRAME_HEADER..] == old(writeBuf[MAX_FRAME_HEADER..])
    {
      ghost var tail := writeBuf[MAX_FRAME_HEADER..];
      putBytes(framePos, [b0, b1]);
      assert writeBuf[MAX_FRAME_HEADER..] == writeBuf[framePos + 2..][MAX_FRAME_HEADER - framePos - 2..];
      assert writeBuf[MAX_FRAME_HEADER..] == tail;
      ghost var head := writeBuf[..framePos + 2];
      assert writeBuf[framePos..framePos + 2] == head[framePos..];
      putBytes(framePos + 2, BigEndian(length, k));
      assert writeBuf[framePos..framePos + 2] == head[framePos..];
      ArraySplit(writeBuf, framePos, framePos + 2, framePos + 2 + k);
      assert writeBuf[MAX_FRAME_HEADER..] == writeBuf[framePos + 2 + k..][MAX_FRAME_HEADER - framePos - 2 - k..];
    }

    /** The three length encodings, each put so that the header ends where the key or the payload begins. */
    method putHeader(final: bool, length: nat) returns (framePos: nat)
      requires MAX_FRAME_HEADER < writeBuf.Length && 0 <= writeFrameType < 16
      modifies writeBuf
      ensures var end := if isServer then 14 else 10;
              framePos < end && writeBuf[framePos..end] == Header(final, writeFrameType, !isServer, length)
      ensures writeBuf[MAX_FRAME_HEADER..] == old(writeBuf[MAX_FRAME_HEADER..])
    {
      var b0 := FirstByte(final, writeFrameType);
      var b1: byte := if isServer then 0 else 128;
      framePos := if isServer then 4 else 0;
      if length >= 65536 {
        putLength(framePos, b0, b1 + 127, length, 8);
      } else if length > 125 {
        framePos := framePos + 6;
        putLength(framePos, b0, b1 + 126, length, 2);
      } else {
        framePos := framePos + 8;
        putLength(framePos, b0, b1 + length, 0, 0);
      }
    }

    /** Key and masked payload, in place behind the header. */
    method maskPayload() returns (key: bytes)
      requires MAX_FRAME_HEADER <= writePos <= writeBuf.Length
      modifies writeBuf
      ensures |key| == 4 && writeBuf[10..writePos] == key + Mask(key, 0, old(Buffered()))
      ensures writeBuf[..10] == old(writeBuf[..10])
    {
      key := newMaskKey();
      forall i | 0 <= i < 4 {
        writeBuf[10 + i] := key[i];
      }
      assert writeBuf[MAX_FRAME_HEADER..writePos] == old(Buffered());
      assert writeBuf[..MAX_FRAME_HEADER] == old(writeBuf[..10]) + key;
      var pos := maskBytes(key, 0, writeBuf, MAX_FRAME_HEADER, writePos);
      assert writeBuf[10..writePos] == writeBuf[..MAX_FRAME_HEADER][10..] + writeBuf[MAX_FRAME_HEADER..writePos];
      assert writeBuf[..10] == writeBuf[..MAX_FRAME_HEADER][..10];
    }

    /** Header, key and masking: afterwards the buffer and extra are the encoding of the frame f. */
    method buildFrame(final: bool, extra: bytes) returns (framePos: nat, ghost f: Frame)
      requires MAX_FRAME_HEADER <= writePos <= writeBuf.Length && MAX_FRAME_HEADER < writeBuf.Length
      requires writeFrameType == CONTINUATION || IsData(writeFrameType) || IsControl(writeFrameType)
      requires writePos - MAX_FRAME_HEADER + |extra| < MAX_LENGTH
      requires IsControl(writeFrameType) ==> final && writePos - MAX_FRAME_HEADER + |extra| <= MAX_CONTROL_PAYLOAD
      modifies writeBuf
      ensures framePos < writePos && ValidFrame(f)
      ensures f.final == final && f.opcode == writeFrameType && f.payload == old(Buffered()) + extra
      ensures f.key.Some? == !isServer
      ensures isServer || extra == [] ==> writeBuf[framePos..writePos] + extra == Encode(f)
    {
      ghost var payload := Buffered() + extra;
      framePos := putHeader(final, writePos - MAX_FRAME_HEADER + |extra|);
      assert Buffered() == writeBuf[MAX_FRAME_HEADER..][..writePos - MAX_FRAME_HEADER];
      assert old(Buffered()) == old(writeBuf[MAX_FRAME_HEADER..])[..writePos - MAX_FRAME_HEADER];
      ghost var header := Header(final, writeFrameType, !isServer, |payload|);
      if !isServer {
        assert writeBuf[framePos..10] == writeBuf[..10][framePos..];
        var key := maskPayload();
        f := Frame(final, writeFrameType, Some(key), payload);
        assert writeBuf[framePos..10] == writeBuf[..10][framePos..];
        ArraySplit(writeBuf, framePos, 10, writePos);
        if extra == [] {
          assert payload == old(Buffered());
          assert writeBuf[framePos..writePos] + extra == header + (key + Mask(key, 0, payload));
        }
      } else {
        f := Frame(final, writeFrameType, None, payload);
        ArraySplit(writeBuf, framePos, MAX_FRAME_HEADER, writePos);
        ConcatAssoc(header, Buffered(), extra);
      }
    }

    /** The frame sent last. */
    ghost predicate LastFrame(final: bool, opcode: int, payload: bytes)
      reads this
    {
      frames != [] &&
      var f := frames[|frames| - 1];
      f.final == final && f.opcode == opcode && f.payload == payload
    }

    /** A flush of the open message with extra bytes: on success the frame is on the wire and the message goes on, or is done when final. */
    method flushFrame(final: bool, extra: bytes) returns (err: Option<WriteError>)
      requires Valid() && writeErr.None? && writeFrameType != NO_FRAME
      requires writePos - MAX_FRAME_HEADER + |extra| < MAX_LENGTH
      modifies this, conn, writeBuf
      ensures Valid() && issued == old(issued)
      ensures Onward() && (isServer || extra == [] ==> Tried())
      ensures err.None? ==>
                && writeErr.None? && writePos == MAX_FRAME_HEADER
                && current == Message(old(current).kind, old(current).data + extra)
                && sent == old(sent) + (if final && IsData(current.kind) then [current] else [])
                && writeFrameType == (if final then NO_FRAME else CONTINUATION)
                && writeSeq == old(writeSeq) + (if final then 1 else 0)
      ensures err == Some(InvalidControlFrame) <==>
                IsControl(old(writeFrameType)) && (!final || old(writePos) - MAX_FRAME_HEADER + |extra| > MAX_CONTROL_PAYLOAD)
      ensures err == Some(InvalidControlFrame) ==>
                writeErr.None? && writeFrameType == NO_FRAME && writeSeq == old(writeSeq) + 1 && sent == old(sent)
                && Silent()
      ensures err.Some? && err != Some(InvalidControlFrame) ==> writeErr == err && sent == old(sent)
      ensures err == Some(InternalError) ==> extra != []
      ensures !final ==> Fragments(old(frames), frames, old(writePos) - MAX_FRAME_HEADER + |extra|)
      ensures err.None? ==> LastFrame(final, old(writeFrameType), old(Buffered()) + extra)
    {
      var length := writePos - MAX_FRAME_HEADER + |extra|;
      if IsControl(writeFrameType) && (!final || length > MAX_CONTROL_PAYLOAD) {
        writeSeq := writeSeq + 1;
        writeFrameType := NO_FRAME;
        writePos := MAX_FRAME_HEADER;
        return Some(InvalidControlFrame);
      }
      err := sendFrame(final, extra);
    }

    /** The part of flushFrame after its check of control frames. */
    method sendFrame(final: bool, extra: bytes) returns (err: Option<WriteError>)
      requires Valid() && writeErr.None? && writeFrameType != NO_FRAME
      requires writePos - MAX_FRAME_HEADER + |extra| < MAX_LENGTH
      requires IsControl(writeFrameType) ==> final && writePos - MAX_FRAME_HEADER + |extra| <= MAX_CONTROL_PAYLOAD
      modifies this, conn, writeBuf
      ensures Valid() && issued == old(issued)
      ensures Onward() && (isServer || extra == [] ==> Tried())
      ensures err.None? ==>
                && writeErr.None? && writePos == MAX_FRAME_HEADER
                && current == Message(old(current).kind, old(current).data + extra)
                && sent == old(sent) + (if final && IsData(current.kind) then [current] else [])
                && writeFrameType == (if final then NO_FRAME else CONTINUATION)
                && writeSeq == old(writeSeq) + (if final then 1 else 0)
      ensures err.Some? ==> err != Some(InvalidControlFrame) && writeErr == err && sent == old(sent)
      ensures err == Some(InternalError) ==> extra != []
      ensures !final ==> Fragments(old(frames), frames, old(writePos) - MAX_FRAME_HEADER + |extra|)
      ensures err.None? ==> LastFrame(final, old(writeFrameType), old(Buffered()) + extra)
    {
      ghost var buffered := Buffered();
      var framePos, f := buildFrame(final, extra);
      if !isServer && |extra| > 0 {
        writeErr := Some(InternalError);
        return writeErr;
      }
      err := transmit(f, buffered, framePos, final, extra);
    }

    /** Writes the frame that buildFrame left in the buffer and sets up for the next one. */
    method transmit(ghost f: Frame, ghost buffered: bytes, framePos: nat, final: bool, extra: bytes)
      returns (err: Option<WriteError>)
      requires WireValid() && writeErr.None? && framePos < writePos <= writeBuf.Length && MAX_FRAME_HEADER < writeBuf.Length < MAX_LENGTH
      requires writeFrameType == CONTINUATION || IsData(writeFrameType) || IsControl(writeFrameType)
      requires (forall s :: s in issued ==> s <= writeSeq) && writeSeq in issued
      requires InSync(Run(START, frames), sent, writeFrameType, current, buffered)
      requires ValidFrame(f) && f.final == final && f.opcode == writeFrameType && f.payload == buffered + extra
      requires f.key.Some? == !isServer && writeBuf[framePos..writePos] + extra == Encode(f)
      modifies this, conn
      ensures Valid() && issued == old(issued)
      ensures Onward() && Tried()
      ensures err.None? ==>
                && writeErr.None? && writePos == MAX_FRAME_HEADER
                && current == Message(old(current).kind, old(current).data + extra)
                && sent == old(sent) + (if final && IsData(current.kind) then [current] else [])
                && writeFrameType == (if final then NO_FRAME else CONTINUATION)
                && writeSeq == old(writeSeq) + (if final then 1 else 0)
      ensures err.Some? ==> err != Some(InvalidControlFrame) && writeErr == err && sent == old(sent) && err != Some(InternalError)
      ensures !final ==> Fragments(old(frames), frames, |buffered| + |extra|)
      ensures err.None? ==> frames != [] && frames[|frames| - 1] == f
    {
      hide Legal, Carries, Run, Feed, Encode;
      ghost var before := frames;
      ghost var mid;
      err, mid := write(f, writeFrameType, writeBuf[framePos..writePos], extra);
      if err.None? {
        FlushSync(before, mid, sent, current, buffered, extra, f);
      }
      endFrame(err, final, extra);
    }

    /** The end of flushFrame: the buffer is empty and the message goes on or is done. */
    method endFrame(err: Option<WriteError>, final: bool, ghost extra: bytes)
      requires WireValid() && Caused(err) && MAX_FRAME_HEADER < writeBuf.Length < MAX_LENGTH
      requires (forall s :: s in issued ==> s <= writeSeq) && writeSeq in issued
      requires err.Some? ==> Run(START, frames).done == sent
      requires err.None? ==>
                 var m := Message(current.kind, current.data + extra);
                 InSync(Run(START, frames), sent + (if final && IsData(m.kind) then [m] else []),
                        if final then NO_FRAME else CONTINUATION, m, [])
      modifies this`writeErr, this`writePos, this`writeFrameType, this`writeSeq, this`current, this`sent
      ensures Valid() && writeErr == err && writePos == MAX_FRAME_HEADER
      ensures writeFrameType == (if final then NO_FRAME else CONTINUATION)
      ensures writeSeq == old(writeSeq) + (if final then 1 else 0)
      ensures err.None? ==> current == Message(old(current).kind, old(current).data + extra)
      ensures err.None? ==> sent == old(sent) + (if final && IsData(current.kind) then [current] else [])
      ensures err.Some? ==> sent == old(sent)
    {
      writeErr := err;
      writePos := MAX_FRAME_HEADER;
      writeFrameType := CONTINUATION;
      if final {
        writeSeq := writeSeq + 1;
        writeFrameType := NO_FRAME;
      }
      if err.None? {
        current := Message(current.kind, current.data + extra);
        sent := sent + if final && IsData(current.kind) then [current] else [];
      }
      assert Buffered() == [];
    }

    /** An error is the one kept by the connection, or a control message did not fit one frame. */
    ghost predicate Reported(err: Option<WriteError>, control: bool)
      reads this
    {
      err.Some? ==> err == writeErr || (err == Some(InvalidControlFrame) && control)
    }

    /** A writer may still write: its message is the open one. */
    ghost predicate Writing(w: nat)
      reads this
    {
      writeErr.None? && writeSeq == w && writeFrameType != NO_FRAME
    }

    /** The messages that are done once the open one is flushed. */
    ghost function Flushed(): seq<Message>
      reads this
    {
      sent + if writeFrameType != NO_FRAME && IsData(current.kind) then [current] else []
    }

    /** NextWriter first closes a writer that the caller left open. */
    method finishOpen() returns (err: Option<WriteError>)
      requires Valid() && writeErr.None?
      modifies this, conn, writeBuf
      ensures Valid() && Onward() && Tried() && issued == old(issued)
      ensures err.None? ==> writeErr.None? && writeFrameType == NO_FRAME && sent == old(Flushed())
      ensures old(writeFrameType) == NO_FRAME ==> err.None? && Silent() && Buffered() == old(Buffered())
      ensures Reported(err, IsControl(old(writeFrameType)))
    {
      if writeFrameType != NO_FRAME {
        err := flushFrame(true, []);
        assert old(current).data + [] == old(current).data;
      } else {
        err := None;
      }
    }

    /** The writer handed out is the sequence number of its message. */
    method NextWriter(messageType: int) returns (w: nat, err: Option<WriteError>)
      requires Valid()
      modifies this, conn, writeBuf
      ensures Valid() && Onward() && Tried()
      ensures old(writeErr).Some? ==> err == old(writeErr) && Untouched()
      ensures old(writeFrameType) == NO_FRAME ==> Silent()
      ensures err.None? ==> Writing(w) && current == Message(messageType, []) && (IsControl(messageType) || IsData(messageType))
      ensures err.None? ==> writeFrameType == messageType
      ensures err.None? ==> sent == old(Flushed()) && issued == old(issued) + {w} && w !in old(issued)
      ensures err.Some? ==> issued == old(issued)
      ensures err == Some(BadWriteOpCode) ==> writeErr.None? && writeFrameType == NO_FRAME && sent == old(Flushed())
      ensures if err == Some(BadWriteOpCode) then !IsControl(messageType) && !IsData(messageType)
              else Reported(err, IsControl(old(writeFrameType)))
    {
      hide Legal, Carries, Run, Feed;
      w := 0;
      if writeErr.Some? {
        return w, writeErr;
      }
      err := finishOpen();
      if err.Some? {
        return;
      }
      if !IsControl(messageType) && !IsData(messageType) {
        return w, Some(BadWriteOpCode);
      }
      writeFrameType := messageType;
      w := writeSeq;
      issued := issued + {w};
      current := Message(messageType, []);
      return w, None;
    }

    method writerErr(w: nat) returns (err: Option<WriteError>)
      ensures err == if writeSeq != w then Some(WriteClosed) else writeErr
    {
      if writeSeq != w {
        return Some(WriteClosed);
      }
      return writeErr;
    }

    /** Room for the next bytes; a full buffer goes out as a frame that is not final. */
    method ncopy(max: nat) returns (n: nat, err: Option<WriteError>)
      requires Valid() && writeErr.None? && writeFrameType != NO_FRAME && max > 0
      modifies this, conn, writeBuf
      ensures Valid() && issued == old(issued) && sent == old(sent) && Onward() && Tried()
      ensures Fragments(old(frames), frames, Room())
      ensures old(writePos) < writeBuf.Length ==> err.None? && Untouched() && (n == max || n == writeBuf.Length - writePos)
      ensures Reported(err, IsControl(old(writeFrameType)))
      ensures err.None? && IsControl(old(writeFrameType)) ==> writeFrameType == old(writeFrameType)
      ensures err.None? ==> Writing(old(writeSeq)) && current == old(current) && 0 < n <= max && n <= writeBuf.Length - writePos
    {
      if writeBuf.Length - writePos <= 0 {
        err := flushFrame(false, []);
        if err.Some? {
          return 0, err;
        }
        assert old(current).data + [] == old(current).data;
      }
      n := writeBuf.Length - writePos;
      if n > max {
        n := max;
      }
      return n, None;
    }

    /** Copies a chunk behind the buffered bytes. */
    method putChunk(chunk: bytes)
      requires MAX_FRAME_HEADER <= writePos && |chunk| <= writeBuf.Length - writePos
      modifies writeBuf, this`writePos
      ensures writePos == old(writePos) + |chunk| && Buffered() == old(Buffered()) + chunk
    {
      ghost var before := writeBuf[..writePos];
      putBytes(writePos, chunk);
      assert writeBuf[MAX_FRAME_HEADER..writePos] == before[MAX_FRAME_HEADER..];
      ArraySplit(writeBuf, MAX_FRAME_HEADER, writePos, writePos + |chunk|);
      writePos := writePos + |chunk|;
    }

    method copyIn(chunk: bytes)
      requires Valid() && writeErr.None? && writeFrameType != NO_FRAME && |chunk| <= writeBuf.Length - writePos
      modifies writeBuf, this`writePos, this`current
      ensures Valid() && current == Message(old(current).kind, old(current).data + chunk)
    {
      ghost var before := Buffered();
      putChunk(chunk);
      if writeFrameType == CONTINUATION {
        ConcatAssoc(Run(START, frames).open.value.data, before, chunk);
      }
      current := Message(current.kind, current.data + chunk);
    }

    /** One round of the copying loop. */
    method copySome(w: nat, rest: bytes) returns (n: nat, err: Option<WriteError>)
      requires Valid() && Writing(w) && rest != []
      modifies this, conn, writeBuf
      ensures Valid() && issued == old(issued) && sent == old(sent) && Onward() && Tried()
      ensures Fragments(old(frames), frames, Room())
      ensures |rest| <= writeBuf.Length - old(writePos) ==>
                err.None? && Silent() && n == |rest| && writePos == old(writePos) + |rest| && writeFrameType == old(writeFrameType)
      ensures Reported(err, IsControl(old(writeFrameType)))
      ensures err.None? && IsControl(old(writeFrameType)) ==> writeFrameType == old(writeFrameType)
      ensures err.None? && IsControl(writeFrameType) ==> IsControl(old(writeFrameType))
      ensures err.None? ==> 0 < n <= |rest| && Writing(w)
      ensures err.None? ==> current == Message(old(current).kind, old(current).data + rest[..n])
    {
      n, err := ncopy(|rest|);
      if err.None? {
        copyIn(rest[..n]);
      }
    }

    lemma {:induction false} CopyStep(data: bytes, done: bytes, rest: bytes, n: nat)
      requires n <= |rest|
      ensures (done + rest[..n]) + rest[n..] == done + rest && (data + done) + rest[..n] == data + (done + rest[..n])
    {
      TakeDrop(rest, n);
      ConcatAssoc(done, rest[..n], rest[n..]);
    }

    /** The copying loop of write and WriteString. */
    method copyLoop(w: nat, p: bytes) returns (err: Option<WriteError>)
      requires Valid() && Writing(w)
      modifies this, conn, writeBuf
      ensures Valid() && issued == old(issued) && sent == old(sent) && Onward() && Tried()
      ensures Fragments(old(frames), frames, Room())
      ensures |p| <= writeBuf.Length - old(writePos) ==>
                err.None? && Silent() && writePos == old(writePos) + |p| && writeFrameType == old(writeFrameType)
      ensures Reported(err, IsControl(old(writeFrameType)))
      ensures err.None? && IsControl(old(writeFrameType)) ==> writeFrameType == old(writeFrameType)
      ensures err.None? ==> Writing(w) && current == Message(old(current).kind, old(current).data + p)
    {
      var rest := p;
      ghost var done: bytes := [];
      assert old(current).data + [] == old(current).data;
      while |rest| > 0
        invariant Valid() && Writing(w) && issued == old(issued) && sent == old(sent) && Onward() && Tried()
        invariant Fragments(old(frames), frames, Room())
        invariant |p| <= writeBuf.Length - old(writePos) ==>
                    Silent() && writePos == old(writePos) + |done| && writeFrameType == old(writeFrameType)
        invariant IsControl(writeFrameType) ==> IsControl(old(writeFrameType))
        invariant IsControl(old(writeFrameType)) ==> writeFrameType == old(writeFrameType)
        invariant done + rest == p && current == Message(old(current).kind, old(current).data + done)
        decreases |rest|
      {
        var n;
        ghost var before := frames;
        n, err := copySome(w, rest);
        FragmentsTrans(old(frames), before, frames, Room());
        if err.Some? {
          return;
        }
        CopyStep(old(current).data, done, rest, n);
        done := done + rest[..n];
        rest := rest[n..];
      }
      assert done == p;
      return None;
    }

    /** A large write of a server goes out at once, with the buffered bytes, in one frame. */
    method writerWrite(w: nat, final: bool, p: bytes) returns (n: nat, err: Option<WriteError>)
      requires Valid() && w in issued && writeBuf.Length + |p| < MAX_LENGTH
      modifies this, conn, writeBuf
      ensures Valid() && issued == old(issued) && Onward() && Tried()
      ensures old(writeSeq) == w ==> Reported(err, IsControl(old(writeFrameType)))
      ensures old(writeSeq) != w ==> err == Some(WriteClosed) && Untouched()
      ensures !isServer || |p| <= 2 * writeBuf.Length ==> Fragments(old(frames), frames, Room())
      ensures isServer && |p| > 2 * writeBuf.Length && err.None? ==>
                LastFrame(final, old(writeFrameType), old(Buffered()) + p) && writePos == MAX_FRAME_HEADER
                && writeFrameType == (if final then NO_FRAME else CONTINUATION)
      ensures old(Writing(w)) && |p| <= writeBuf.Length - old(writePos) ==>
                err.None? && Silent() && writeFrameType == old(writeFrameType)
      ensures err.Some? ==> n == 0 && sent == old(sent)
      ensures err.None? ==> n == |p| && writeErr.None?
      ensures err.None? ==> current == Message(old(current).kind, old(current).data + p)
      ensures err.None? && IsControl(old(writeFrameType)) ==>
                if writeFrameType == NO_FRAME then LastFrame(true, old(writeFrameType), old(current).data + p)
                else writeFrameType == old(writeFrameType)
      ensures err.None? && writeFrameType != NO_FRAME ==> Writing(w) && sent == old(sent)
      ensures err.None? && writeFrameType == NO_FRAME ==>
                final && writeSeq == w + 1 && sent == old(sent) + if IsData(current.kind) then [current] else []
    {
      err := writerErr(w);
      if err.Some? {
        return 0, err;
      }
      if |p| > 2 * writeBuf.Length && isServer {
        err := flushFrame(final, p);
        if err.Some? {
          return 0, err;
        }
        return |p|, None;
      }
      err := copyLoop(w, p);
      if err.Some? {
        return 0, err;
      }
      return |p|, None;
    }

    method Write(w: nat, p: bytes) returns (n: nat, err: Option<WriteError>)
      requires Valid() && w in issued && writeBuf.Length + |p| < MAX_LENGTH
      modifies this, conn, writeBuf
      ensures Valid() && issued == old(issued) && Onward() && Tried() && sent == old(sent)
      ensures old(writeSeq) == w ==> Reported(err, IsControl(old(writeFrameType)))
      ensures old(writeSeq) != w ==> err == Some(WriteClosed) && Untouched()
      ensures !isServer || |p| <= 2 * writeBuf.Length ==> Fragments(old(frames), frames, Room())
      ensures isServer && |p| > 2 * writeBuf.Length && err.None? ==>
                LastFrame(false, old(writeFrameType), old(Buffered()) + p) && writePos == MAX_FRAME_HEADER
      ensures old(Writing(w)) && |p| <= writeBuf.Length - old(writePos) ==> err.None? && Silent()
      ensures err.Some? ==> n == 0
      ensures err.None? ==> n == |p| && Writing(w) && current == Message(old(current).kind, old(current).data + p)
    {
      n, err := writerWrite(w, false, p);
    }

    method WriteString(w: nat, p: bytes) returns (n: nat, err: Option<WriteError>)
      requires Valid() && w in issued
      modifies this, conn, writeBuf
      ensures Valid() && issued == old(issued) && Onward() && Tried() && sent == old(sent)
      ensures old(writeSeq) == w ==> Reported(err, IsControl(old(writeFrameType)))
      ensures old(writeSeq) != w ==> err == Some(WriteClosed) && Untouched()
      ensures Fragments(old(frames), frames, Room())
      ensures old(Writing(w)) && |p| <= writeBuf.Length - old(writePos) ==> err.None? && Silent()
      ensures err.Some? ==> n == 0
      ensures err.None? ==> n == |p| && Writing(w) && current == Message(old(current).kind, old(current).data + p)
    {
      err := writerErr(w);
      if err.Some? {
        return 0, err;
      }
      err := copyLoop(w, p);
      if err.Some? {
        return 0, err;
      }
      return |p|, None;
    }

    /** ReadFrom copies everything a reader has left into the message. */
    method ReadFrom(w: nat, r: BufReader.Source) returns (nn: nat, err: Option<WriteError>)
      requires Valid() && w in issued
      modifies this, conn, writeBuf, r
      ensures Valid() && issued == old(issued) && Onward() && Tried() && sent == old(sent)
      ensures old(writeSeq) == w ==> Reported(err, IsControl(old(writeFrameType)))
      ensures old(writeSeq) != w ==> err == Some(WriteClosed) && Untouched()
      ensures Fragments(old(frames), frames, Room())
      ensures nn + |r.Unread()| == |old(r.Unread())|
      ensures err.None? ==> Writing(w) && r.Unread() == [] && nn == |old(r.Unread())|
                            && current == Message(old(current).kind, old(current).data + old(r.Unread()))
    {
      nn := 0;
      err := writerErr(w);
      if err.None? {
        nn, err := readLoop(w, r);
      }
    }

    /** The loop of ReadFrom. */
    method readLoop(w: nat, r: BufReader.Source) returns (nn: nat, err: Option<WriteError>)
      requires Valid() && Writing(w)
      modifies this, conn, writeBuf, r
      ensures Valid() && issued == old(issued) && Onward() && Tried() && sent == old(sent)
      ensures Reported(err, IsControl(old(writeFrameType)))
      ensures Fragments(old(frames), frames, Room())
      ensures nn + |r.Unread()| == |old(r.Unread())|
      ensures err.None? ==> Writing(w) && r.Unread() == [] && nn == |old(r.Unread())|
      ensures err.None? ==> current == Message(old(current).kind, old(current).data + old(r.Unread()))
    {
      nn := 0;
      ghost var done: bytes := [];
      assert old(current).data + [] == old(current).data;
      while true
        invariant Valid() && Writing(w) && issued == old(issued) && sent == old(sent) && Onward() && Tried()
        invariant done + r.Unread() == old(r.Unread()) && nn == |done|
        invariant Fragments(old(frames), frames, Room())
        invariant IsControl(writeFrameType) ==> IsControl(old(writeFrameType))
        invariant current == Message(old(current).kind, old(current).data + done)
        decreases r.Effort()
      {
        var chunk, eof;
        ghost var before := frames;
        chunk, eof, err := readChunk(w, r);
        FragmentsTrans(old(frames), before, frames, Room());
        if err.Some? {
          return;
        }
        ConcatAssoc(done, chunk, r.Unread());
        ConcatAssoc(old(current).data, done, chunk);
        done := done + chunk;
        nn := nn + |chunk|;
        if eof {
          assert done + [] == done;
          return;
        }
      }
    }

    /** One round of ReadFrom: makes room when the buffer is full, then reads into it. */
    method readChunk(w: nat, r: BufReader.Source) returns (chunk: bytes, eof: bool, err: Option<WriteError>)
      requires Valid() && Writing(w)
      modifies this, conn, writeBuf, r
      ensures Valid() && issued == old(issued) && sent == old(sent) && Onward() && Tried()
      ensures Fragments(old(frames), frames, Room())
      ensures err.None? ==> Writing(w) && current == Message(old(current).kind, old(current).data + chunk)
      ensures err.Some? ==> r.Unread() == old(r.Unread())
      ensures err.None? ==> chunk + r.Unread() == old(r.Unread())
      ensures err.None? ==> if eof then r.Unread() == [] else r.Effort() < old(r.Effort())
      ensures Reported(err, IsControl(old(writeFrameType)))
      ensures err.None? && IsControl(writeFrameType) ==> IsControl(old(writeFrameType))
    {
      chunk, eof := [], false;
      if writePos == writeBuf.Length {
        err := flushFrame(false, []);
        if err.Some? {
          return;
        }
        assert old(current).data + [] == old(current).data;
      }
      var e;
      chunk, e := r.Read(writeBuf.Length - writePos);
      copyIn(chunk);
      return chunk, e.Some?, None;
    }

    /** Closing a writer sends the rest of its message; its number is never current again. */
    method CloseWriter(w: nat) returns (err: Option<WriteError>)
      requires Valid() && w in issued
      modifies this, conn, writeBuf
      ensures Valid() && issued == old(issued) && Onward() && Tried()
      ensures old(writeSeq) == w ==> Reported(err, IsControl(old(writeFrameType)))
      ensures old(writeSeq) != w ==> err == Some(WriteClosed) && Untouched()
      ensures err.None? ==> writeErr.None? && writeFrameType == NO_FRAME && writeSeq == w + 1 && sent == old(Flushed())
      ensures err.None? && IsControl(old(writeFrameType)) ==> LastFrame(true, old(writeFrameType), old(current).data)
      ensures err.Some? ==> sent == old(sent)
    {
      err := writerErr(w);
      if err.Some? {
        return;
      }
      assert old(current).data + [] == old(current).data;
      assert Buffered() + [] == Buffered();
      err := flushFrame(true, []);
    }

    /** The whole message in one go, when the writer was just made. */
    method writeWhole(w: nat, data: bytes) returns (err: Option<WriteError>)
      requires Valid() && w in issued && Writing(w) && current.data == [] && current.kind == writeFrameType
      requires writeBuf.Length + |data| < MAX_LENGTH
      modifies this, conn, writeBuf
      ensures Valid() && Onward() && Tried()
      ensures Reported(err, IsControl(old(writeFrameType)))
      ensures err.None? ==> writeErr.None? && writeFrameType == NO_FRAME
      ensures err.None? ==>
                sent == old(sent) + if IsData(old(writeFrameType)) then [Message(old(writeFrameType), data)] else []
      ensures err.None? && (IsControl(old(writeFrameType)) || InOneFrame(|data|)) ==> LastFrame(true, old(writeFrameType), data)
    {
      hide Legal, Carries, Run, Feed, Fragments;
      assert writeFrameType != CONTINUATION && |Buffered()| == 0 && Buffered() + data == data;
      var n;
      n, err := writerWrite(w, true, data);
      if err.Some? {
        return;
      }
      assert [] + data == data;
      if writeSeq == w {
        ghost var whole := current;
        assert IsControl(writeFrameType) || IsData(writeFrameType) ==> whole == Message(writeFrameType, Buffered());
        assert Buffered() + [] == Buffered() && whole.data + [] == whole.data;
        err := flushFrame(true, []);
      }
    }

    method WriteMessage(messageType: int, data: bytes) returns (err: Option<WriteError>)
      requires Valid() && writeBuf.Length + |data| < MAX_LENGTH
      modifies this, conn, writeBuf
      ensures Valid() && Onward() && Tried()
      ensures if err == Some(BadWriteOpCode) then !IsControl(messageType) && !IsData(messageType)
              else Reported(err, IsControl(old(writeFrameType)) || IsControl(messageType))
      ensures err.None? ==> writeErr.None? && writeFrameType == NO_FRAME
      ensures err.None? ==> sent == old(Flushed()) + if IsData(messageType) then [Message(messageType, data)] else []
      ensures err.None? && (IsControl(messageType) || InOneFrame(|data|)) ==> LastFrame(true, messageType, data)
    {
      var w;
      w, err := NextWriter(messageType);
      if err.Some? {
        return;
      }
      err := writeWhole(w, data);
    }
  }

  lemma {:induction false} FlushSync(before: seq<Frame>, mid: seq<Frame>, sent: seq<Message>, current: Message,
      buffered: bytes, extra: bytes, f: Frame)
    requires OnlyControls(before, mid) && Run(START, mid + [f]) == Feed(Run(START, mid), f)
    requires ValidFrame(f) && InSync(Run(START, before), sent, f.opcode, current, buffered) && f.payload == buffered + extra
    ensures var m := Message(current.kind, current.data + extra);
            InSync(Run(START, mid + [f]), sent + (if f.final && IsData(m.kind) then [m] else []),
                   if f.final then NO_FRAME else CONTINUATION, m, [])
  {
    FeedSync(Run(START, mid), sent, f.opcode, current, buffered, extra, f);
  }

  lemma {:induction false} ArraySplit(b: array<byte>, lo: nat, mid: nat, hi: nat)
    requires lo <= mid <= hi <= b.Length
    ensures b[lo..hi] == b[lo..mid] + b[mid..hi]
  {
  }

  /** A write that stopped after n bytes of buf and k bytes of extra. */
  lemma {:induction false} TornFrame(wire: bytes, open: bool, fs: seq<Frame>, masked: bool, f: Frame, buf: bytes, extra: bytes,
      n: nat, k: nat)
    requires Carries(wire, open, fs, masked) && LegalNext(Run(START, fs), f, masked) && buf + extra == Encode(f)
    requires n <= |buf| && k <= |extra| && n + k < |buf + extra| && (k > 0 ==> n == |buf|) && (!open ==> n == 0 && k == 0)
    ensures Carries(wire + buf[..n] + extra[..k], false, fs, masked)
  {
    if open {
      assert Encode(f)[..n + k] == buf[..n] + extra[..k];
      ConcatAssoc(wire, buf[..n], extra[..k]);
      CarriesPart(wire, fs, masked, f, n + k);
    } else {
      assert wire + buf[..0] + extra[..0] == wire;
    }
  }

  lemma {:induction false} WholeFrame(wire: bytes, fs: seq<Frame>, masked: bool, f: Frame, buf: bytes, extra: bytes)
    requires Carries(wire, true, fs, masked) && ValidFrame(f) && buf + extra == Encode(f)
    ensures Carries(wire + buf[..|buf|] + extra[..|extra|], true, fs + [f], masked)
  {
    assert buf[..|buf|] == buf && extra[..|extra|] == extra;
    ConcatAssoc(wire, buf, extra);
    CarriesWhole(wire, fs, masked, f, Encode(f));
  }

  lemma {:induction false} ControlsTrans(a: seq<Frame>, b: seq<Frame>, c: seq<Frame>)
    requires OnlyControls(a, b) && OnlyControls(b, c)
    ensures OnlyControls(a, c)
  {
    assert forall i :: |a| <= i < |b| ==> c[i] == b[i];
  }

  lemma {:induction false} AddFrame(fs: seq<Frame>, f: Frame, masked: bool)
    requires Legal(START, fs, masked) && !Run(START, fs).closed && Fits(Run(START, fs).open, f, masked)
    ensures Legal(START, fs + [f], masked) && Run(START, fs + [f]) == Feed(Run(START, fs), f)
  {
    RunSnoc(START, fs, f, masked);
  }

  lemma {:induction false} ControlBytes(f: Frame, buf: bytes)
    requires ValidFrame(f) && IsControl(f.opcode)
    requires buf == if f.key.None? then [FirstByte(true, f.opcode)] + [|f.payload|] + f.payload
                    else [FirstByte(true, f.opcode)] + [|f.payload| + 128] + f.key.value + Mask(f.key.value, 0, f.payload)
    ensures buf == Encode(f)
  {
  }
}
