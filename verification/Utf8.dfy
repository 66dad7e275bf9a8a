/** The UTF-8 decoder and the streaming validator of the autobahn example server. */
module Utf8 {
  import opened Bytes

  const ACCEPT := 0
  const REJECT := 1

  // The table -------------------------------------------------------------------------

  /** Row k of utf8d: the classes of the bytes 32 * k to 32 * k + 31. */
  function Classes(k: nat): (row: seq<nat>)
    requires k < 8
    ensures |row| == 32
  {
    match k
    case 4 => [1, 1, 1, 1, 1, 1, 1, 1, 1, 1, 1, 1, 1, 1, 1, 1, 9, 9, 9, 9, 9, 9, 9, 9, 9, 9, 9, 9, 9, 9, 9, 9]
    case 5 => [7, 7, 7, 7, 7, 7, 7, 7, 7, 7, 7, 7, 7, 7, 7, 7, 7, 7, 7, 7, 7, 7, 7, 7, 7, 7, 7, 7, 7, 7, 7, 7]
    case 6 => [8, 8, 2, 2, 2, 2, 2, 2, 2, 2, 2, 2, 2, 2, 2, 2, 2, 2, 2, 2, 2, 2, 2, 2, 2, 2, 2, 2, 2, 2, 2, 2]
    case 7 => [10, 3, 3, 3, 3, 3, 3, 3, 3, 3, 3, 3, 3, 4, 3, 3, 11, 6, 6, 6, 5, 8, 8, 8, 8, 8, 8, 8, 8, 8, 8, 8]
    case _ => [0, 0, 0, 0, 0, 0, 0, 0, 0, 0, 0, 0, 0, 0, 0, 0, 0, 0, 0, 0, 0, 0, 0, 0, 0, 0, 0, 0, 0, 0, 0, 0]
  }

  /** The row of utf8d for a state: the next state for each class. */
  function Row(state: nat): (row: seq<nat>)
    requires state < 9
    ensures |row| == 16
  {
    match state
    case 0 => [0, 1, 2, 3, 5, 8, 7, 1, 1, 1, 4, 6, 1, 1, 1, 1]
    case 2 => [1, 0, 1, 1, 1, 1, 1, 0, 1, 0, 1, 1, 1, 1, 1, 1]
    case 3 => [1, 2, 1, 1, 1, 1, 1, 2, 1, 2, 1, 1, 1, 1, 1, 1]
    case 4 => [1, 1, 1, 1, 1, 1, 1, 2, 1, 1, 1, 1, 1, 1, 1, 1]
    case 5 => [1, 2, 1, 1, 1, 1, 1, 1, 1, 2, 1, 1, 1, 1, 1, 1]
    case 6 => [1, 1, 1, 1, 1, 1, 1, 3, 1, 3, 1, 1, 1, 1, 1, 1]
    case 7 => [1, 3, 1, 1, 1, 1, 1, 3, 1, 3, 1, 1, 1, 1, 1, 1]
    case 8 => [1, 3, 1, 1, 1, 1, 1, 1, 1, 1, 1, 1, 1, 1, 1, 1]
    case _ => [1, 1, 1, 1, 1, 1, 1, 1, 1, 1, 1, 1, 1, 1, 1, 1]
  }

  lemma {:induction false} AsciiRow(k: nat, i: nat)
    requires k < 4 && i < 32
    ensures Classes(k)[i] == 0
  {
  }

  lemma {:induction false} TailRows(i: nat)
    requires i < 32
    ensures Classes(4)[i] == (if i < 16 then 1 else 9) && Classes(5)[i] == 7
  {
  }

  lemma {:induction false} LeadRow2(i: nat)
    requires i < 32
    ensures Classes(6)[i] == if i < 2 then 8 else 2
  {
  }

  lemma {:induction false} LeadRow34(i: nat)
    requires i < 32
    ensures Classes(7)[i] ==
            if i == 0 then 10 else if i == 13 then 4 else if i < 16 then 3 else if i == 16 then 11
            else if i < 20 then 6 else if i == 20 then 5 else 8
  {
  }

  lemma {:induction false} ClassRow(b: byte)
    ensures Classes(b / 32)[b % 32] == Range(b)
  {
    var k, i := b / 32, b % 32;
    if k < 4 {
      AsciiRow(k, i);
    } else if k < 6 {
      TailRows(i);
    } else if k == 6 {
      LeadRow2(i);
    } else {
      LeadRow34(i);
    }
  }

  /** The classes by ranges of bytes. */
  function Range(b: byte): (t: nat)
    ensures t < 12
  {
    if b < 0x80 then 0 else if b < 0x90 then 1 else if b < 0xA0 then 9 else if b < 0xC0 then 7
    else if b < 0xC2 then 8 else if b < 0xE0 then 2 else if b == 0xE0 then 10 else if b == 0xED then 4
    else if b < 0xF0 then 3 else if b == 0xF0 then 11 else if b < 0xF4 then 6 else if b == 0xF4 then 5 else 8
  }

  function Class(b: byte): (t: nat)
    ensures t == Range(b)
  {
    ClassRow(b);
    Classes(b / 32)[b % 32]
  }

  // Decoding --------------------------------------------------------------------------

  datatype Decoder = Decoder(state: nat, x: nat)

  /** (0xff >> t) & b. */
  function LowBits(t: nat, b: byte): nat {
    if t == 0 then b else if t == 1 then b % 128 else if t == 2 then b % 64 else if t == 3 then b % 32
    else if t == 4 then b % 16 else if t == 5 then b % 8 else if t == 6 then b % 4 else if t == 7 then b % 2
    else 0
  }

  predicate IsTail(b: byte) {
    0x80 <= b < 0xC0
  }

  /** The table by ranges of bytes. */
  function Next(state: nat, b: byte): (r: nat)
    ensures r < 9
  {
    match state
    case 0 =>
      if b < 0x80 then 0 else if b < 0xC2 then 1 else if b < 0xE0 then 2
      else if b == 0xE0 then 4 else if b == 0xED then 5 else if b < 0xF0 then 3
      else if b == 0xF0 then 6 else if b < 0xF4 then 7 else if b == 0xF4 then 8 else 1
    case 2 => if IsTail(b) then 0 else 1
    case 3 => if IsTail(b) then 2 else 1
    case 4 => if 0xA0 <= b < 0xC0 then 2 else 1
    case 5 => if 0x80 <= b < 0xA0 then 2 else 1
    case 6 => if 0x90 <= b < 0xC0 then 3 else 1
    case 7 => if IsTail(b) then 3 else 1
    case 8 => if 0x80 <= b < 0x90 then 3 else 1
    case _ => 1
  }

  /** What is left of the first byte of a character. */
  function Lead(b: byte): nat {
    if b < 0x80 then b else if b < 0xC2 then 0 else if b < 0xE0 then b - 0xC0 else if b < 0xF0 then b - 0xE0 else b - 0xF0
  }

  lemma {:induction false} LeadIs(b: byte)
    requires b < 0x80 || 0xC2 <= b < 0xF5
    ensures LowBits(Range(b), b) == Lead(b)
  {
  }

  lemma {:induction false} StartRow(t: nat)
    requires t < 12
    ensures Row(0)[t] == match t { case 0 => 0 case 2 => 2 case 3 => 3 case 4 => 5 case 5 => 8 case 6 => 7 case 10 => 4 case 11 => 6 case _ => 1 }
  {
  }

  /** The classes of the tails that continue a character in a state, and the state after. */
  lemma {:induction false} TailRow(state: nat, t: nat)
    requires 1 <= state < 9 && t < 12
    ensures Row(state)[t] ==
            match state {
              case 1 => 1
              case 2 => if t == 1 || t == 7 || t == 9 then 0 else 1
              case 3 => if t == 1 || t == 7 || t == 9 then 2 else 1
              case 4 => if t == 7 then 2 else 1
              case 5 => if t == 1 || t == 9 then 2 else 1
              case 6 => if t == 7 || t == 9 then 3 else 1
              case 7 => if t == 1 || t == 7 || t == 9 then 3 else 1
              case _ => if t == 1 then 3 else 1
            }
  {
  }

  lemma {:induction false} RowIsNext(state: nat, b: byte)
    requires state < 9
    ensures Row(state)[Range(b)] == Next(state, b)
  {
    if state == 0 {
      StartRow(Range(b));
    } else {
      TailRow(state, Range(b));
    }
  }

  function decode(d: Decoder, b: byte): (r: Decoder)
    requires d.state < 9
    ensures r.state == Next(d.state, b)
  {
    var t := Class(b);
    RowIsNext(d.state, b);
    Decoder(Row(d.state)[t], if d.state != ACCEPT then b % 64 + d.x * 64 else LowBits(t, b))
  }

  /** One byte by the meaning of the states; x is the value so far of the character under way. */
  function Advance(d: Decoder, b: byte): Decoder {
    var state := Next(d.state, b);
    Decoder(state, if state == REJECT then 0 else if d.state == ACCEPT then Lead(b) else b % 64 + d.x * 64)
  }

  /** The table does this, except that x means nothing after a rejected byte. */
  lemma {:induction false} DecodeIs(d: Decoder, b: byte)
    requires d.state < 9
    ensures decode(d, b).state == Advance(d, b).state
    ensures decode(d, b).state != REJECT ==> decode(d, b) == Advance(d, b)
  {
    if d.state == ACCEPT && Next(0, b) != REJECT {
      LeadIs(b);
    }
  }

  /** Before a byte is rejected, x fits the 21 bits of a character. */
  predicate Bounded(d: Decoder) {
    match d.state
    case 0 => d.x <= 0x10FFFF
    case 2 => d.x <= 0x43FF
    case 3 => d.x <= 0x10F
    case 4 => d.x == 0
    case 5 => d.x <= 15
    case 6 => d.x == 0
    case 7 => d.x <= 3
    case 8 => d.x <= 4
    case _ => true
  }

  lemma {:induction false} DecodeBounded(d: Decoder, b: byte)
    requires d.state < 9 && Bounded(d) && decode(d, b).state != REJECT
    ensures Bounded(decode(d, b))
  {
    DecodeIs(d, b);
  }

  function Run(d: Decoder, s: bytes): Decoder
    decreases |s|
  {
    if s == [] then d else Run(Advance(d, s[0]), s[1..])
  }

  lemma {:induction false} RunConcat(d: Decoder, s: bytes, t: bytes)
    ensures Run(d, s + t) == Run(Run(d, s), t)
    decreases |s|
  {
    if s == [] {
      assert s + t == t;
    } else {
      assert (s + t)[1..] == s[1..] + t;
      RunConcat(Advance(d, s[0]), s[1..], t);
    }
  }

  /** A rejected byte is never made good. */
  lemma {:induction false} RejectAbsorbs(d: Decoder, s: bytes)
    requires d.state == REJECT
    ensures Run(d, s).state == REJECT
    decreases |s|
  {
    if s != [] {
      RejectAbsorbs(Advance(d, s[0]), s[1..]);
    }
  }

  // Characters ------------------------------------------------------------------------

  /** Unicode scalar values: no surrogates, at most 0x10FFFF. */
  predicate Scalar(cp: nat) {
    cp < 0xD800 || 0xE000 <= cp <= 0x10FFFF
  }

  /** Section 3 of RFC 3629. */
  function Encode(cp: nat): (s: bytes)
    requires Scalar(cp)
    ensures 1 <= |s| <= 4
  {
    if cp < 0x80 then [cp]
    else if cp < 0x800 then [0xC0 + cp / 64, 0x80 + cp % 64]
    else if cp < 0x10000 then [0xE0 + cp / 64 / 64, 0x80 + cp / 64 % 64, 0x80 + cp % 64]
    else [0xF0 + cp / 64 / 64 / 64, 0x80 + cp / 64 / 64 % 64, 0x80 + cp / 64 % 64, 0x80 + cp % 64]
  }

  predicate AllScalar(cps: seq<nat>) {
    forall i :: 0 <= i < |cps| ==> Scalar(cps[i])
  }

  function EncodeAll(cps: seq<nat>): bytes
    requires AllScalar(cps)
  {
    if cps == [] then [] else Encode(cps[0]) + EncodeAll(cps[1..])
  }

  ghost predicate WellFormed(s: bytes) {
    exists cps: seq<nat> :: AllScalar(cps) && EncodeAll(cps) == s
  }

  lemma {:induction false} StepTo(d: Decoder, b: byte, t: bytes)
    requires Next(d.state, b) != REJECT
    ensures Run(d, [b] + t) == Run(Decoder(Next(d.state, b), if d.state == ACCEPT then Lead(b) else b % 64 + d.x * 64), t)
  {
    assert ([b] + t)[1..] == t;
  }

  /** Several bytes that lead from one state to the next. */
  lemma {:induction false} RunThrough(d: Decoder, b: byte, c: byte, t: bytes)
    requires 2 <= d.state < 9 && Next(d.state, b) >= 2 && Next(Next(d.state, b), c) != REJECT
    ensures Run(d, [b] + ([c] + t)) ==
            Run(Decoder(Next(Next(d.state, b), c), c % 64 + (b % 64 + d.x * 64) * 64), t)
  {
    StepTo(d, b, [c] + t);
    StepTo(Decoder(Next(d.state, b), b % 64 + d.x * 64), c, t);
  }

  lemma {:induction false} RunTwo(x: nat, l: byte, b: byte, t: bytes)
    requires Next(0, l) == 2 && IsTail(b)
    ensures Run(Decoder(0, x), [l, b] + t) == Run(Decoder(0, b % 64 + Lead(l) * 64), t)
  {
    StepTo(Decoder(0, x), l, [b] + t);
    StepTo(Decoder(2, Lead(l)), b, t);
    assert [l, b] + t == [l] + ([b] + t);
  }

  lemma {:induction false} RunThree(x: nat, l: byte, b: byte, c: byte, t: bytes)
    requires Next(0, l) >= 2 && Next(Next(0, l), b) == 2 && IsTail(c)
    ensures Run(Decoder(0, x), [l, b, c] + t) == Run(Decoder(0, c % 64 + (b % 64 + Lead(l) * 64) * 64), t)
  {
    StepTo(Decoder(0, x), l, [b] + ([c] + t));
    RunThrough(Decoder(Next(0, l), Lead(l)), b, c, t);
    assert [l, b, c] + t == [l] + ([b] + ([c] + t));
  }

  lemma {:induction false} RunFour(x: nat, l: byte, b: byte, c: byte, d: byte, t: bytes)
    requires Next(0, l) >= 2 && Next(Next(0, l), b) == 3 && IsTail(c) && IsTail(d)
    ensures Run(Decoder(0, x), [l, b, c, d] + t) ==
            Run(Decoder(0, d % 64 + (c % 64 + (b % 64 + Lead(l) * 64) * 64) * 64), t)
  {
    StepTo(Decoder(0, x), l, [b] + ([c] + ([d] + t)));
    RunThrough(Decoder(Next(0, l), Lead(l)), b, c, [d] + t);
    StepTo(Decoder(2, c % 64 + (b % 64 + Lead(l) * 64) * 64), d, t);
    assert [l, b, c, d] + t == [l] + ([b] + ([c] + ([d] + t)));
  }

  lemma {:induction false} EncodeTwo(cp: nat)
    requires 0x80 <= cp < 0x800
    ensures var e := Encode(cp); |e| == 2 && Next(0, e[0]) == 2 && IsTail(e[1]) && e[1] % 64 + Lead(e[0]) * 64 == cp
  {
  }

  lemma {:induction false} EncodeThree(cp: nat)
    requires 0x800 <= cp < 0x10000 && Scalar(cp)
    ensures var e := Encode(cp);
            && |e| == 3 && Next(0, e[0]) >= 2 && Next(Next(0, e[0]), e[1]) == 2 && IsTail(e[2])
            && e[2] % 64 + (e[1] % 64 + Lead(e[0]) * 64) * 64 == cp
  {
  }

  lemma {:induction false} Digits(cp: nat)
    ensures cp == cp % 64 + (cp / 64 % 64 + (cp / 64 / 64 % 64 + cp / 64 / 64 / 64 * 64) * 64) * 64
  {
    var a := cp / 64;
    var b := a / 64;
    assert cp == 64 * a + cp % 64;
    assert a == 64 * b + a % 64;
  }

  lemma {:induction false} FourStates(l: byte, b: byte)
    requires 0xF0 <= l <= 0xF4 && IsTail(b) && (l == 0xF0 ==> b >= 0x90) && (l == 0xF4 ==> b < 0x90)
    ensures Next(0, l) >= 2 && Next(Next(0, l), b) == 3
  {
  }

  lemma {:induction false} EncodeFour(cp: nat)
    requires 0x10000 <= cp <= 0x10FFFF
    ensures var e := Encode(cp);
            && |e| == 4 && Next(0, e[0]) >= 2 && Next(Next(0, e[0]), e[1]) == 3 && IsTail(e[2]) && IsTail(e[3])
            && e[3] % 64 + (e[2] % 64 + (e[1] % 64 + Lead(e[0]) * 64) * 64) * 64 == cp
  {
    Digits(cp);
    FourStates(0xF0 + cp / 64 / 64 / 64, 0x80 + cp / 64 / 64 % 64);
  }

  /** The characters of the examples in section 7 of RFC 3629. */
  lemma {:induction false} Examples()
    ensures Encode(0x41) == [0x41] && Encode(0x0391) == [0xCE, 0x91] && Encode(0x2262) == [0xE2, 0x89, 0xA2]
    ensures Encode(0xD55C) == [0xED, 0x95, 0x9C] && Encode(0x65E5) == [0xE6, 0x97, 0xA5] && Encode(0x233B4) == [0xF0, 0xA3, 0x8E, 0xB4]
    ensures Scalar(0xD7FF) && !Scalar(0xD800) && !Scalar(0xDFFF) && Scalar(0xE000) && Scalar(0x10FFFF) && !Scalar(0x110000)
  {
  }

  /** The decoder takes in one encoded character and has its scalar value in x. */
  lemma {:induction false} RunChar(x: nat, cp: nat, t: bytes)
    requires Scalar(cp)
    ensures Run(Decoder(0, x), Encode(cp) + t) == Run(Decoder(0, cp), t)
  {
    var e := Encode(cp);
    if cp < 0x80 {
      StepTo(Decoder(0, x), cp, t);
    } else if cp < 0x800 {
      EncodeTwo(cp);
      assert e == [e[0], e[1]];
      RunTwo(x, e[0], e[1], t);
    } else if cp < 0x10000 {
      EncodeThree(cp);
      assert e == [e[0], e[1], e[2]];
      RunThree(x, e[0], e[1], e[2], t);
    } else {
      EncodeFour(cp);
      assert e == [e[0], e[1], e[2], e[3]];
      RunFour(x, e[0], e[1], e[2], e[3], t);
    }
  }

  lemma {:induction false} RunAll(x: nat, cps: seq<nat>)
    requires AllScalar(cps)
    ensures Run(Decoder(0, x), EncodeAll(cps)) == Decoder(0, if cps == [] then x else cps[|cps| - 1])
    decreases |cps|
  {
    if cps != [] {
      RunChar(x, cps[0], EncodeAll(cps[1..]));
      RunAll(cps[0], cps[1..]);
    }
  }

  // Back from accepted bytes to characters --------------------------------------------

  lemma {:induction false} ValueTwo(l: byte, b: byte)
    requires Next(0, l) == 2 && IsTail(b)
    ensures var cp := b % 64 + Lead(l) * 64; Scalar(cp) && Encode(cp) == [l, b]
  {
  }

  lemma {:induction false} ValueThree(l: byte, b: byte, c: byte)
    requires 2 < Next(0, l) < 6 && Next(Next(0, l), b) == 2 && IsTail(c)
    ensures var cp := c % 64 + (b % 64 + Lead(l) * 64) * 64; Scalar(cp) && Encode(cp) == [l, b, c]
  {
    var a := b % 64 + Lead(l) * 64;
    var cp := c % 64 + a * 64;
    assert cp / 64 == a && a / 64 == Lead(l);
    assert 0x800 <= cp < 0x10000 && Scalar(cp);
  }

  lemma {:induction false} ValueFour(l: byte, b: byte, c: byte, d: byte)
    requires 6 <= Next(0, l) && Next(Next(0, l), b) == 3 && IsTail(c) && IsTail(d)
    ensures var cp := d % 64 + (c % 64 + (b % 64 + Lead(l) * 64) * 64) * 64; Scalar(cp) && Encode(cp) == [l, b, c, d]
  {
    var a1 := b % 64 + Lead(l) * 64;
    var a2 := c % 64 + a1 * 64;
    var cp := d % 64 + a2 * 64;
    assert cp / 64 == a2 && a2 / 64 == a1 && a1 / 64 == Lead(l);
    assert 0x10000 <= cp <= 0x10FFFF;
  }

  /** A run that ends accepted inside a character has a next byte, and it is not rejected. */
  lemma {:induction false} NextByte(d: Decoder, s: bytes)
    requires d.state != REJECT && Run(d, s).state == ACCEPT && (d.state != ACCEPT || s != [])
    ensures s != [] && Next(d.state, s[0]) != REJECT
    ensures Run(Decoder(Next(d.state, s[0]), if d.state == ACCEPT then Lead(s[0]) else s[0] % 64 + d.x * 64), s[1..])
            == Run(d, s)
  {
    if Next(d.state, s[0]) == REJECT {
      RejectAbsorbs(Advance(d, s[0]), s[1..]);
    }
  }

  /** The same from within a character: its next byte is a tail that leads on. */
  lemma {:induction false} NextTail(d: Decoder, s: bytes)
    requires 2 <= d.state < 9 && Run(d, s).state == ACCEPT
    ensures s != [] && IsTail(s[0]) && Next(d.state, s[0]) != REJECT
    ensures Next(d.state, s[0]) == if d.state == 2 then 0 else if d.state <= 5 then 2 else 3
    ensures Run(Decoder(Next(d.state, s[0]), s[0] % 64 + d.x * 64), s[1..]).state == ACCEPT
  {
    NextByte(d, s);
  }

  lemma {:induction false} TwoTails(d: Decoder, s: bytes)
    requires d.state == 3 && Run(d, s).state == ACCEPT
    ensures |s| >= 2 && IsTail(s[0]) && IsTail(s[1])
    ensures Run(Decoder(0, s[1] % 64 + (s[0] % 64 + d.x * 64) * 64), s[2..]).state == ACCEPT
  {
    NextTail(d, s);
    NextTail(Decoder(2, s[0] % 64 + d.x * 64), s[1..]);
    assert s[1..][1..] == s[2..];
  }

  lemma {:induction false} CharOfTwo(s: bytes) returns (cp: nat)
    requires s != [] && Next(0, s[0]) == 2 && Run(Decoder(2, Lead(s[0])), s[1..]).state == ACCEPT
    ensures Scalar(cp) && Encode(cp) <= s && Run(Decoder(0, cp), s[|Encode(cp)|..]).state == ACCEPT
  {
    NextTail(Decoder(2, Lead(s[0])), s[1..]);
    cp := s[1] % 64 + Lead(s[0]) * 64;
    ValueTwo(s[0], s[1]);
    assert s[1..][1..] == s[2..];
  }

  lemma {:induction false} CharOfThree(s: bytes) returns (cp: nat)
    requires s != [] && 2 < Next(0, s[0]) < 6 && Run(Decoder(Next(0, s[0]), Lead(s[0])), s[1..]).state == ACCEPT
    ensures Scalar(cp) && Encode(cp) <= s && Run(Decoder(0, cp), s[|Encode(cp)|..]).state == ACCEPT
  {
    NextTail(Decoder(Next(0, s[0]), Lead(s[0])), s[1..]);
    assert s[1..][1..] == s[2..] && s[2..][1..] == s[3..];
    var y := s[1] % 64 + Lead(s[0]) * 64;
    NextTail(Decoder(2, y), s[2..]);
    cp := s[2] % 64 + y * 64;
    ValueThree(s[0], s[1], s[2]);
  }

  lemma {:induction false} ThreeTails(d: Decoder, s: bytes)
    requires 6 <= d.state < 9 && Run(d, s).state == ACCEPT
    ensures |s| >= 3 && Next(d.state, s[0]) == 3 && IsTail(s[1]) && IsTail(s[2])
    ensures Run(Decoder(0, s[2] % 64 + (s[1] % 64 + (s[0] % 64 + d.x * 64) * 64) * 64), s[3..]).state == ACCEPT
  {
    NextTail(d, s);
    TwoTails(Decoder(3, s[0] % 64 + d.x * 64), s[1..]);
    assert s[1..][2..] == s[3..];
  }

  lemma {:induction false} CharOfFour(s: bytes) returns (cp: nat)
    requires s != [] && 6 <= Next(0, s[0]) && Run(Decoder(Next(0, s[0]), Lead(s[0])), s[1..]).state == ACCEPT
    ensures Scalar(cp) && Encode(cp) <= s && Run(Decoder(0, cp), s[|Encode(cp)|..]).state == ACCEPT
  {
    ThreeTails(Decoder(Next(0, s[0]), Lead(s[0])), s[1..]);
    assert s[1..][3..] == s[4..];
    cp := s[3] % 64 + (s[2] % 64 + (s[1] % 64 + Lead(s[0]) * 64) * 64) * 64;
    ValueFour(s[0], s[1], s[2], s[3]);
  }

  /** Accepted bytes begin with an encoded character, and the rest is accepted as well. */
  lemma {:induction false} FirstChar(x: nat, s: bytes) returns (cp: nat)
    requires s != [] && Run(Decoder(0, x), s).state == ACCEPT
    ensures Scalar(cp) && Encode(cp) <= s && Run(Decoder(0, cp), s[|Encode(cp)|..]).state == ACCEPT
  {
    NextByte(Decoder(0, x), s);
    var st := Next(0, s[0]);
    if st == ACCEPT {
      cp := s[0];
    } else if st == 2 {
      cp := CharOfTwo(s);
    } else if st < 6 {
      cp := CharOfThree(s);
    } else {
      cp := CharOfFour(s);
    }
  }

  lemma {:induction false} AllChars(x: nat, s: bytes) returns (cps: seq<nat>)
    requires Run(Decoder(0, x), s).state == ACCEPT
    ensures AllScalar(cps) && EncodeAll(cps) == s
    decreases |s|
  {
    if s == [] {
      return [];
    }
    var cp := FirstChar(x, s);
    var e := Encode(cp);
    var more := AllChars(cp, s[|e|..]);
    assert s == e + s[|e|..];
    cps := [cp] + more;
    assert cps[1..] == more;
  }

  /** The decoder accepts exactly the UTF-8 encodings of sequences of scalar values. */
  lemma {:induction false} AcceptsUtf8(x: nat, s: bytes)
    ensures Run(Decoder(0, x), s).state == ACCEPT <==> WellFormed(s)
  {
    if Run(Decoder(0, x), s).state == ACCEPT {
      var cps := AllChars(x, s);
    }
    if WellFormed(s) {
      var cps: seq<nat> :| AllScalar(cps) && EncodeAll(cps) == s;
      RunAll(x, cps);
    }
  }

  // The streaming validator -----------------------------------------------------------

  datatype ReadError = EOF | InvalidUtf8

  /** The reader below: any chunks, and EOF after the last one or, when eager, together with its last bytes. */
  class Feed {
    var chunks: seq<bytes>
    const eager: bool

    constructor (chunks: seq<bytes>, eager: bool)
      ensures this.chunks == chunks && this.eager == eager
    {
      this.chunks, this.eager := chunks, eager;
    }

    ghost function Unread(): bytes
      reads this
    {
      Flatten(chunks)
    }

    method Read(max: nat) returns (p: bytes, eof: bool)
      modifies this
      ensures |p| <= max && p + Unread() == old(Unread())
      ensures eof ==> chunks == []
      ensures max > 0 && !eof ==> |chunks| + |Unread()| < old(|chunks| + |Unread()|)
    {
      if chunks == [] {
        return [], true;
      }
      p := chunks[0];
      if |p| <= max {
        chunks := chunks[1..];
      } else {
        var whole := p;
        p := whole[..max];
        chunks := [whole[max..]] + chunks[1..];
        assert chunks[1..] == old(chunks)[1..];
        TakeDrop(whole, max);
        ConcatAssoc(p, whole[max..], Flatten(chunks[1..]));
      }
      eof := eager && chunks == [];
    }
  }

  const START := Decoder(ACCEPT, 0)

  lemma {:induction false} RejectedForGood(seen: bytes, more: bytes)
    requires Run(START, seen).state == REJECT
    ensures !WellFormed(seen + more)
  {
    RunConcat(START, seen, more);
    RejectAbsorbs(Run(START, seen), more);
    AcceptsUtf8(0, seen + more);
  }

  /** The bytes that complete a character from a state inside it. */
  function Rest(state: nat): bytes {
    match state
    case 2 => [0x80]
    case 3 => [0x80, 0x80]
    case 4 => [0xA0, 0x80]
    case 5 => [0x80, 0x80]
    case 6 => [0x90, 0x80, 0x80]
    case 7 => [0x80, 0x80, 0x80]
    case 8 => [0x80, 0x80, 0x80]
    case _ => []
  }

  lemma {:induction false} RestCompletes(d: Decoder)
    requires d.state < 9 && d.state != REJECT
    ensures Run(d, Rest(d.state)).state == ACCEPT
    decreases |Rest(d.state)|
  {
    if d.state != ACCEPT {
      var d' := Advance(d, Rest(d.state)[0]);
      assert Rest(d.state)[1..] == Rest(d'.state);
      RestCompletes(d');
    }
  }

  /** Bytes that are not rejected begin a valid stream. */
  lemma {:induction false} NotTooEarly(seen: bytes)
    requires Run(START, seen).state < 9 && Run(START, seen).state != REJECT
    ensures WellFormed(seen + Rest(Run(START, seen).state))
  {
    var d := Run(START, seen);
    RunConcat(START, seen, Rest(d.state));
    RestCompletes(d);
    AcceptsUtf8(0, seen + Rest(d.state));
  }

  lemma {:induction false} RunSnoc(d: Decoder, s: bytes, b: byte)
    ensures Run(d, s + [b]) == Advance(Run(d, s), b)
  {
    RunConcat(d, s, [b]);
    assert [b][1..] == [];
    assert Run(Advance(Run(d, s), b), []) == Advance(Run(d, s), b);
  }

  /** d is where the decoder is after s; once a byte was rejected x no longer matters. */
  ghost predicate Follows(d: Decoder, s: bytes) {
    d.state == Run(START, s).state && (d.state != REJECT ==> d == Run(START, s))
  }

  lemma {:induction false} FollowsByte(d: Decoder, s: bytes, b: byte)
    requires d.state < 9 && Follows(d, s)
    ensures Follows(decode(d, b), s + [b])
  {
    RunSnoc(START, s, b);
    DecodeIs(d, b);
  }

  lemma {:induction false} FollowsRejected(d: Decoder, s: bytes, t: bytes)
    requires Follows(d, s) && d.state == REJECT
    ensures Follows(d, s + t)
  {
    RunConcat(START, s, t);
    RejectAbsorbs(Run(START, s), t);
  }

  class Validator {
    const r: Feed
    var state: nat
    var x: nat
    ghost var seen: bytes

    constructor (r: Feed)
      ensures Valid() && this.r == r && seen == []
    {
      this.r, state, x, seen := r, ACCEPT, 0, [];
    }

    ghost predicate Valid()
      reads this
    {
      state < 9 && Follows(Decoder(state, x), seen)
    }

    method decodeByte(d: Decoder, b: byte, ghost before: bytes) returns (r: Decoder)
      requires d.state < 9 && Follows(d, before)
      ensures r.state < 9 && Follows(r, before + [b])
    {
      FollowsByte(d, before, b);
      r := decode(d, b);
    }

    /** Takes in the bytes of p up to the first rejected one. */
    method feed(p: bytes)
      requires Valid()
      modifies this
      ensures Valid() && seen == old(seen) + p
    {
      var d := Decoder(state, x);
      var i := 0;
      assert seen + p[..0] == seen;
      while i < |p|
        invariant i <= |p| && seen == old(seen) && d.state < 9 && Follows(d, seen + p[..i])
      {
        assert seen + p[..i + 1] == (seen + p[..i]) + [p[i]];
        d := decodeByte(d, p[i], seen + p[..i]);
        i := i + 1;
        if d.state == REJECT {
          break;
        }
      }
      assert seen + p == (seen + p[..i]) + p[i..];
      if i < |p| {
        FollowsRejected(d, seen + p[..i], p[i..]);
      } else {
        assert p[..i] == p;
      }
      state, x, seen := d.state, d.x, seen + p;
    }

    /** An invalid stream is reported as soon as no bytes to come could make it valid, at the latest at its end. */
    method Read(max: nat) returns (p: bytes, err: Option<ReadError>)
      requires Valid()
      modifies this, r
      ensures Valid() && |p| <= max && seen == old(seen) + p && p + r.Unread() == old(r.Unread())
      ensures err.None? ==> state != REJECT && (max > 0 ==> |r.chunks| + |r.Unread()| < old(|r.chunks| + |r.Unread()|))
      ensures err == Some(EOF) ==> r.Unread() == [] && WellFormed(seen)
      ensures err == Some(InvalidUtf8) ==> !WellFormed(seen + r.Unread())
      ensures err.None? ==> exists more: bytes :: WellFormed(seen + more)
    {
      var eof;
      p, eof := r.Read(max);
      feed(p);
      AcceptsUtf8(0, seen);
      if state == REJECT || (eof && state != ACCEPT) {
        if state == REJECT {
          RejectedForGood(seen, r.Unread());
        } else {
          assert seen + r.Unread() == seen;
        }
        return p, Some(InvalidUtf8);
      }
      NotTooEarly(seen);
      return p, if eof then Some(EOF) else None;
    }
  }

  /** The verdict on a stream does not depend on how it was split into reads. */
  method Copy(chunks: seq<bytes>, eager: bool) returns (valid: bool)
    ensures valid <==> WellFormed(Flatten(chunks))
  {
    var r := new Feed(chunks, eager);
    var v := new Validator(r);
    assert v.seen + r.Unread() == r.Unread();
    while true
      invariant v.Valid() && v.r == r && v.seen + r.Unread() == Flatten(chunks)
      decreases |r.chunks| + |r.Unread()|
    {
      var size: nat :| size > 0;
      ghost var before := v.seen;
      var p, err := v.Read(size);
      ConcatAssoc(before, p, r.Unread());
      assert v.seen + r.Unread() == Flatten(chunks);
      if err.Some? {
        valid := err.value.EOF?;
        if valid {
          assert v.seen == v.seen + r.Unread();
        }
        return;
      }
    }
  }
}
