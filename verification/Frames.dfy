/** Frames of RFC 6455, sections 5.2 to 5.5, and the messages a sequence of frames carries. */
module Frames {
  import opened Bytes

  const CONTINUATION := 0
  const TEXT := 1
  const BINARY := 2
  const CLOSE := 8
  const PING := 9
  const PONG := 10
  const NO_FRAME := -1

  const MAX_CONTROL_PAYLOAD := 125
  const MAX_LENGTH: int := 0x8000_0000_0000_0000

  predicate IsControl(t: int) {
    t == CLOSE || t == PING || t == PONG
  }

  predicate IsData(t: int) {
    t == TEXT || t == BINARY
  }

  // Masking ---------------------------------------------------------------------------

  function Mask(key: bytes, pos: nat, s: bytes): (r: bytes)
    requires |key| == 4
    ensures |r| == |s|
  {
    seq(|s|, i requires 0 <= i < |s| => Xor(s[i], key[(pos + i) % 4]))
  }

  /** Masking twice is the identity. */
  lemma {:induction false} MaskTwice(key: bytes, pos: nat, s: bytes)
    requires |key| == 4
    ensures Mask(key, pos, Mask(key, pos, s)) == s
  {
    forall i | 0 <= i < |s|
      ensures Mask(key, pos, Mask(key, pos, s))[i] == s[i]
    {
      XorTwice(s[i], key[(pos + i) % 4]);
    }
  }

  lemma {:induction false} ModShift(pos: nat, n: nat, i: nat)
    ensures ((pos + n) % 4 + i) % 4 == (pos + (n + i)) % 4
  {
  }

  /** Masking in chunks, carrying the position modulo 4, is masking the whole. */
  lemma {:induction false} MaskConcat(key: bytes, pos: nat, s: bytes, t: bytes)
    requires |key| == 4
    ensures Mask(key, pos, s + t) == Mask(key, pos, s) + Mask(key, (pos + |s|) % 4, t)
  {
    var whole, parts := Mask(key, pos, s + t), Mask(key, pos, s) + Mask(key, (pos + |s|) % 4, t);
    forall k | |s| <= k < |whole|
      ensures whole[k] == parts[k]
    {
      ModShift(pos, |s|, k - |s|);
    }
  }

  /** maskBytes on b[lo..hi], in place. */
  method maskBytes(key: bytes, pos: nat, b: array<byte>, lo: nat, hi: nat) returns (pos': nat)
    requires |key| == 4 && lo <= hi <= b.Length
    modifies b
    ensures b[lo..hi] == Mask(key, pos, old(b[lo..hi]))
    ensures b[..lo] == old(b[..lo]) && b[hi..] == old(b[hi..])
    ensures pos' == (pos + (hi - lo)) % 4
  {
    var p := pos;
    for i := lo to hi
      invariant p == pos + (i - lo)
      invariant forall k :: lo <= k < i ==> b[k] == Xor(old(b[k]), key[(pos + (k - lo)) % 4])
      invariant forall k :: 0 <= k < b.Length && !(lo <= k < i) ==> b[k] == old(b[k])
    {
      b[i] := Xor(b[i], key[p % 4]);
      p := p + 1;
    }
    pos' := p % 4;
  }

  // The wire format -------------------------------------------------------------------

  datatype Frame = Frame(final: bool, opcode: int, key: Option<bytes>, payload: bytes)

  /** Known opcode, 4-byte key, 63-bit length; control frames are final and short. */
  predicate ValidFrame(f: Frame) {
    && (f.opcode == CONTINUATION || IsData(f.opcode) || IsControl(f.opcode))
    && (f.key.Some? ==> |f.key.value| == 4)
    && |f.payload| < MAX_LENGTH
    && (IsControl(f.opcode) ==> f.final && |f.payload| <= MAX_CONTROL_PAYLOAD)
  }

  function FirstByte(final: bool, opcode: int): (b: byte)
    requires 0 <= opcode < 16
  {
    opcode + if final then 128 else 0
  }

  /** The shortest of the three length encodings. */
  function LengthBytes(masked: bool, n: nat): (s: bytes)
    ensures |s| == if n >= 65536 then 9 else if n > 125 then 3 else 1
  {
    var bit := if masked then 128 else 0;
    if n >= 65536 then [bit + 127] + BigEndian(n, 8)
    else if n > 125 then [bit + 126] + BigEndian(n, 2)
    else [bit + n]
  }

  function Header(final: bool, opcode: int, masked: bool, n: nat): bytes
    requires 0 <= opcode < 16
  {
    [FirstByte(final, opcode)] + LengthBytes(masked, n)
  }

  function Body(key: Option<bytes>, payload: bytes): bytes
    requires key.Some? ==> |key.value| == 4
  {
    match key
    case None => payload
    case Some(k) => k + Mask(k, 0, payload)
  }

  function Encode(f: Frame): bytes
    requires ValidFrame(f)
  {
    Header(f.final, f.opcode, f.key.Some?, |f.payload|) + Body(f.key, f.payload)
  }

  predicate AllValid(fs: seq<Frame>) {
    forall i :: 0 <= i < |fs| ==> ValidFrame(fs[i])
  }

  function EncodeAll(fs: seq<Frame>): bytes
    requires AllValid(fs)
  {
    if fs == [] then [] else Encode(fs[0]) + EncodeAll(fs[1..])
  }

  lemma {:induction false} EncodeSnoc(fs: seq<Frame>, f: Frame)
    requires AllValid(fs) && ValidFrame(f)
    ensures EncodeAll(fs + [f]) == EncodeAll(fs) + Encode(f)
  {
    if fs == [] {
      assert [f][1..] == [];
    } else {
      assert (fs + [f])[1..] == fs[1..] + [f];
      EncodeSnoc(fs[1..], f);
      ConcatAssoc(Encode(fs[0]), EncodeAll(fs[1..]), Encode(f));
    }
  }

  const HELLO: bytes := [0x48, 0x65, 0x6c, 0x6c, 0x6f]
  const HELLO_KEY: bytes := [0x37, 0xfa, 0x21, 0x3d]

  lemma {:induction false} HelloMasked()
    ensures Mask(HELLO_KEY, 0, HELLO) == [0x7f, 0x9f, 0x4d, 0x51, 0x58]
  {
    hide Xor;
    XorDigits(0x48, 0x37);
    XorDigits(0x65, 0xfa);
    XorDigits(0x6c, 0x21);
    XorDigits(0x6c, 0x3d);
    XorDigits(0x6f, 0x37);
  }

  /** The examples of section 5.7 of RFC 6455: a text message, masked, and in two fragments. */
  lemma {:induction false} TextExamples()
    ensures Encode(Frame(true, TEXT, None, HELLO)) == [0x81, 0x05, 0x48, 0x65, 0x6c, 0x6c, 0x6f]
    ensures Encode(Frame(true, TEXT, Some(HELLO_KEY), HELLO)) ==
            [0x81, 0x85, 0x37, 0xfa, 0x21, 0x3d, 0x7f, 0x9f, 0x4d, 0x51, 0x58]
    ensures Encode(Frame(false, TEXT, None, [0x48, 0x65, 0x6c])) == [0x01, 0x03, 0x48, 0x65, 0x6c]
    ensures Encode(Frame(true, CONTINUATION, None, [0x6c, 0x6f])) == [0x80, 0x02, 0x6c, 0x6f]
  {
    HelloMasked();
  }

  /** A ping and the pong that answers it. */
  lemma {:induction false} ControlExamples()
    ensures Encode(Frame(true, PING, None, HELLO)) == [0x89, 0x05, 0x48, 0x65, 0x6c, 0x6c, 0x6f]
    ensures Encode(Frame(true, PONG, Some(HELLO_KEY), HELLO)) ==
            [0x8a, 0x85, 0x37, 0xfa, 0x21, 0x3d, 0x7f, 0x9f, 0x4d, 0x51, 0x58]
    ensures Encode(Frame(true, CLOSE, None, [0x03, 0xe8])) == [0x88, 0x02, 0x03, 0xe8]
  {
    HelloMasked();
  }

  /** 256 bytes and 64 KiB in a single binary frame. */
  lemma {:induction false} LengthExamples()
    ensures Header(true, BINARY, false, 256) == [0x82, 0x7e, 0x01, 0x00]
    ensures Header(true, BINARY, false, 65536) == [0x82, 0x7f, 0, 0, 0, 0, 0, 1, 0, 0]
  {
    assert BigEndian(256, 2) == [1, 0];
    assert BigEndian(65536, 8) == [0, 0, 0, 0, 0, 1, 0, 0];
  }

  // Messages --------------------------------------------------------------------------

  datatype Message = Message(kind: int, data: bytes)

  /** What frames have carried so far: whole messages, the begun one, and whether a close frame was among them. */
  datatype Assembly = Assembly(done: seq<Message>, open: Option<Message>, closed: bool)

  const START := Assembly([], None, false)

  function Feed(a: Assembly, f: Frame): Assembly {
    if f.opcode == CLOSE then a.(closed := true)
    else if IsControl(f.opcode) then a
    else
      var m := if f.opcode == CONTINUATION && a.open.Some?
               then Message(a.open.value.kind, a.open.value.data + f.payload) else Message(f.opcode, f.payload);
      if f.final then a.(done := a.done + [m], open := None) else a.(open := Some(m))
  }

  /** Sections 5.4 and 5.5: a message starts with its type and goes on with continuations; nothing follows a close frame. */
  predicate LegalNext(a: Assembly, f: Frame, masked: bool) {
    && ValidFrame(f) && !a.closed && f.key.Some? == masked
    && (f.opcode == CONTINUATION ==> a.open.Some?)
    && (IsData(f.opcode) ==> a.open.None?)
  }

  function Run(a: Assembly, fs: seq<Frame>): Assembly
    decreases |fs|
  {
    if fs == [] then a else Run(Feed(a, fs[0]), fs[1..])
  }

  predicate Legal(a: Assembly, fs: seq<Frame>, masked: bool)
    decreases |fs|
  {
    fs == [] || (LegalNext(a, fs[0], masked) && Legal(Feed(a, fs[0]), fs[1..], masked))
  }

  lemma {:induction false} RunSnoc(a: Assembly, fs: seq<Frame>, f: Frame, masked: bool)
    ensures Run(a, fs + [f]) == Feed(Run(a, fs), f)
    ensures Legal(a, fs, masked) && LegalNext(Run(a, fs), f, masked) ==> Legal(a, fs + [f], masked)
    decreases |fs|
  {
    if fs == [] {
      assert [] + [f] == [f] && [f][1..] == [];
    } else {
      assert (fs + [f])[1..] == fs[1..] + [f];
      RunSnoc(Feed(a, fs[0]), fs[1..], f, masked);
    }
  }

  lemma {:induction false} LegalValid(a: Assembly, fs: seq<Frame>, masked: bool)
    requires Legal(a, fs, masked)
    ensures AllValid(fs)
    decreases |fs|
  {
    if fs != [] {
      LegalValid(Feed(a, fs[0]), fs[1..], masked);
      assert forall i :: 0 < i < |fs| ==> fs[i] == fs[1..][i - 1];
    }
  }
}
