/** Nested replies of the Redis protocol: parseReply and parseSlice of redis.v3 parser.go. */
module Replies {
  import opened Bytes
  import opened Resp
  import BufReader

  /** The values parseReply hands out: strings, int64 numbers, nil, and slices. */
  datatype Value = Str(text: bytes) | Num(n: int) | Nil | Items(items: seq<Value>)

  /** "$-1" and "*-1". */
  predicate IsNil(line: bytes) {
    |line| == 3 && line[1] == MINUS && line[2] == ONE
  }

  function BulkOf(line: bytes, s: bytes): (r: (Result<Value>, bytes))
    requires line != []
    ensures |r.1| <= |s|
  {
    match ParseInt(line[1..], INT64)
    case None => (Err(BadNumber), s)
    case Some(n) =>
      if n + 2 < 0 || n + 2 > MAX_INT64 then (Panic, s)
      else
        var (block, rest) := BlockOf(s, n + 2);
        match block
        case Err(e) => (Err(e), rest)
        case Panic => (Panic, rest)
        case Ok(b) => if n < 0 then (Panic, rest) else (Ok(Str(b[..n])), rest)
  }

  /** parseReply with parseSlice, as a function of the stream. */
  function ReplyOf(s: bytes, size: nat): (r: (Result<Value>, bytes))
    ensures |r.1| <= |s|
    decreases |s|, 0
  {
    var (line, rest) := LineOf(s, size);
    match line
    case Err(e) => (Err(e), rest)
    case Panic => (Panic, rest)
    case Ok(value) => if value == [] then (Panic, rest) else AfterLine(value, rest, size)
  }

  /** What the first byte of a line makes of it and of the stream s behind it. */
  function AfterLine(line: bytes, s: bytes, size: nat): (r: (Result<Value>, bytes))
    requires line != []
    ensures |r.1| <= |s|
    decreases |s|
  {
    if line[0] == MINUS then (Err(RedisError(line[1..])), s)
    else if line[0] == PLUS then (Ok(Str(line[1..])), s)
    else if line[0] == COLON then
      var n := ParseInt(line[1..], INT64);
      (if n.Some? then Ok(Num(n.value)) else Err(BadNumber), s)
    else if line[0] == DOLLAR then
      if IsNil(line) then (Err(NilReply), s) else BulkOf(line, s)
    else if line[0] == STAR then
      if IsNil(line) then (Err(NilReply), s)
      else match ParseInt(line[1..], INT64)
        case None => (Err(BadNumber), s)
        case Some(n) => if n < 0 then (Panic, s) else AsItems(ItemsOf(s, size, n))
    else (Err(CannotParse(line)), s)
  }

  function AsItems(r: (Result<seq<Value>>, bytes)): (v: (Result<Value>, bytes))
    ensures v.1 == r.1
  {
    match r.0
    case Ok(items) => (Ok(Items(items)), r.1)
    case Err(e) => (Err(e), r.1)
    case Panic => (Panic, r.1)
  }

  /** n replies in a row; a nil reply becomes a nil item and any other error ends the slice. */
  function ItemsOf(s: bytes, size: nat, n: nat): (r: (Result<seq<Value>>, bytes))
    ensures |r.1| <= |s|
    decreases |s|, n + 1
  {
    if n == 0 then (Ok([]), s)
    else
      var (item, rest) := ReplyOf(s, size);
      match AsItem(item)
      case Ok(v) => var (items, rest') := ItemsOf(rest, size, n - 1); (Prepend([v], items), rest')
      case Err(e) => (Err(e), rest)
      case Panic => (Panic, rest)
  }

  function AsItem(r: Result<Value>): Result<Value> {
    if r == Err(NilReply) then Ok(Nil) else r
  }

  method parseReply(rd: Reader) returns (r: Result<Value>)
    requires rd.Valid()
    modifies rd, rd.buf, rd.rd
    ensures rd.Valid() && |rd.Pending()| <= |old(rd.Pending())|
    ensures old(rd.Steady()) ==> rd.Steady() && (r, rd.Pending()) == ReplyOf(old(rd.Pending()), rd.buf.Length)
    decreases |rd.Pending()|, 0
  {
    var head := readLine(rd);
    if head.Err? {
      return Err(head.error);
    }
    if head.Panic? || head.value == [] {
      return Panic;
    }
    var line := head.value;
    if line[0] == MINUS {
      return Err(RedisError(line[1..]));
    } else if line[0] == PLUS {
      return Ok(Str(line[1..]));
    } else if line[0] == COLON {
      var v := ParseInt(line[1..], INT64);
      return if v.Some? then Ok(Num(v.value)) else Err(BadNumber);
    } else if line[0] == DOLLAR {
      if IsNil(line) {
        return Err(NilReply);
      }
      r := parseBulk(rd, line);
    } else if line[0] == STAR {
      if IsNil(line) {
        return Err(NilReply);
      }
      var repliesNum := ParseInt(line[1..], INT64);
      if repliesNum.None? {
        return Err(BadNumber);
      }
      if repliesNum.value < 0 {
        return Panic;
      }
      var vals := parseSlice(rd, repliesNum.value);
      match vals {
        case Ok(items) => return Ok(Items(items));
        case Err(e) => return Err(e);
        case Panic => return Panic;
      }
    } else {
      return Err(CannotParse(line));
    }
  }

  /** The body of a bulk string, after its length line. */
  method parseBulk(rd: Reader, line: bytes) returns (r: Result<Value>)
    requires rd.Valid() && line != []
    modifies rd, rd.buf, rd.rd
    ensures rd.Valid() && |rd.Pending()| <= |old(rd.Pending())|
    ensures old(rd.Steady()) ==> rd.Steady() && (r, rd.Pending()) == BulkOf(line, old(rd.Pending()))
  {
    var replyLen := ParseInt(line[1..], INT64);
    if replyLen.None? {
      return Err(BadNumber);
    }
    var n := replyLen.value;
    if n + 2 < 0 || n + 2 > MAX_INT64 {
      return Panic;
    }
    var b := readN(rd, n + 2);
    if b.Err? {
      return Err(b.error);
    }
    if b.Panic? || n < 0 {
      return Panic;
    }
    return Ok(Str(b.value[..n]));
  }

  ghost predicate Continues(whole: (Result<seq<Value>>, bytes), done: seq<Value>, r: (Result<seq<Value>>, bytes)) {
    whole.0 == Prepend(done, r.0) && whole.1 == r.1
  }

  /** One turn of the loop of parseSlice. */
  lemma {:induction false} ItemsStep(whole: (Result<seq<Value>>, bytes), done: seq<Value>, s: bytes, size: nat, n: nat)
    requires n > 0 && Continues(whole, done, ItemsOf(s, size, n))
    ensures var (item, rest) := ReplyOf(s, size);
            match AsItem(item)
            case Ok(v) => Continues(whole, done + [v], ItemsOf(rest, size, n - 1))
            case Err(e) => whole == (Err(e), rest)
            case Panic => whole == (Panic, rest)
  {
    var (item, rest) := ReplyOf(s, size);
    if AsItem(item).Ok? {
      PrependTwice(done, [AsItem(item).value], ItemsOf(rest, size, n - 1).0);
    }
  }

  method parseSlice(rd: Reader, n: nat) returns (r: Result<seq<Value>>)
    requires rd.Valid()
    modifies rd, rd.buf, rd.rd
    ensures rd.Valid() && |rd.Pending()| <= |old(rd.Pending())|
    ensures old(rd.Steady()) ==> rd.Steady() && Yields(ItemsOf(old(rd.Pending()), rd.buf.Length, n), r, rd.Pending())
    decreases |rd.Pending()|, n + 1
  {
    hide ReplyOf;
    ghost var size, steady := rd.buf.Length, rd.Steady();
    ghost var whole := ItemsOf(rd.Pending(), size, n);
    var vals: seq<Value> := [];
    PrependNothing(whole.0);
    var i := 0;
    while i < n
      invariant 0 <= i <= n && rd.Valid() && |rd.Pending()| <= |old(rd.Pending())|
      invariant steady ==> rd.Steady() && Continues(whole, vals, ItemsOf(rd.Pending(), size, n - i))
    {
      if steady {
        ItemsStep(whole, vals, rd.Pending(), size, n - i);
      }
      var v := parseReply(rd);
      v := AsItem(v);
      if v.Err? {
        return Err(v.error);
      }
      if v.Panic? {
        return Panic;
      }
      vals := vals + [v.value];
      i := i + 1;
    }
    assert vals + [] == vals;
    return Ok(vals);
  }

  // The round trip ------------------------------------------------------------------

  datatype Reply =
    | Status(text: bytes)
    | Error(text: bytes)
    | Number(n: int)
    | Bulk(data: bytes)
    | NullBulk
    | NullArray
    | Array(replies: seq<Reply>)

  function Encode(r: Reply): bytes {
    match r
    case Status(text) => [PLUS] + text + CRLF
    case Error(text) => [MINUS] + text + CRLF
    case Number(n) => [COLON] + FormatInt(n) + CRLF
    case Bulk(data) => [DOLLAR] + Digits(|data|) + CRLF + (data + CRLF)
    case NullBulk => [DOLLAR, MINUS, ONE] + CRLF
    case NullArray => [STAR, MINUS, ONE] + CRLF
    case Array(replies) => [STAR] + Digits(|replies|) + CRLF + EncodeAll(replies)
  }

  function EncodeAll(rs: seq<Reply>): bytes {
    if rs == [] then [] else Encode(rs[0]) + EncodeAll(rs[1..])
  }

  /** What a server can send: lines without a line feed that fit the buffer, 64-bit numbers and lengths. */
  predicate Sendable(r: Reply, size: nat) {
    match r
    case Status(text) => IndexOf(text, LF) < 0 && |text| + 3 <= size
    case Error(text) => IndexOf(text, LF) < 0 && |text| + 3 <= size
    case Number(n) => -INT64 <= n < INT64
    case Bulk(data) => |data| + 2 <= MAX_INT64
    case NullBulk => true
    case NullArray => true
    case Array(replies) => |replies| < INT64 && forall i :: 0 <= i < |replies| ==> Sendable(replies[i], size)
  }

  /** Is there an error reply anywhere in r? */
  predicate Fails(r: Reply) {
    match r
    case Error(_) => true
    case Array(replies) => exists i :: 0 <= i < |replies| && Fails(replies[i])
    case _ => false
  }

  predicate NoneFails(rs: seq<Reply>) {
    forall i :: 0 <= i < |rs| ==> !Fails(rs[i])
  }

  /** The tree a reply without an error stands for: statuses and bulk strings are both strings. */
  function ToValue(r: Reply): Value
    requires !Fails(r)
  {
    match r
    case Status(text) => Str(text)
    case Number(n) => Num(n)
    case Bulk(data) => Str(data)
    case NullBulk => Nil
    case NullArray => Nil
    case Array(replies) => Items(ToValues(replies))
  }

  function ToValues(rs: seq<Reply>): seq<Value>
    requires NoneFails(rs)
  {
    if rs == [] then [] else [ToValue(rs[0])] + ToValues(rs[1..])
  }

  /** The index of the first reply with an error. */
  function FirstFailing(rs: seq<Reply>): (k: nat)
    requires !NoneFails(rs)
    ensures k < |rs| && Fails(rs[k]) && NoneFails(rs[..k])
  {
    if Fails(rs[0]) then 0
    else
      assert !NoneFails(rs[1..]) by {
        var i :| 0 <= i < |rs| && Fails(rs[i]);
        assert rs[1..][i - 1] == rs[i];
      }
      var k := FirstFailing(rs[1..]);
      assert forall i :: 0 < i < k + 1 ==> rs[i] == rs[1..][..k][i - 1];
      1 + k
  }

  /** The text of the first error in r. */
  function ErrorOf(r: Reply): bytes
    requires Fails(r)
  {
    match r
    case Error(text) => text
    case Array(replies) => ErrorOf(replies[FirstFailing(replies)])
  }

  /** The bytes of r behind its first error. */
  function Behind(r: Reply): bytes
    requires Fails(r)
  {
    match r
    case Error(_) => []
    case Array(replies) =>
      var k := FirstFailing(replies);
      Behind(replies[k]) + EncodeAll(replies[k + 1..])
  }

  /** An error anywhere is the error of the whole; a nil at the top is the error Nil, and below it a nil item. */
  function Outcome(r: Reply): Result<Value> {
    if Fails(r) then Err(RedisError(ErrorOf(r)))
    else if r.NullBulk? || r.NullArray? then Err(NilReply)
    else Ok(ToValue(r))
  }

  /** What parseReply leaves of r. */
  function Leftover(r: Reply): bytes {
    if Fails(r) then Behind(r) else []
  }

  lemma {:induction false} HeadLine(kind: byte, body: bytes, rest: bytes, size: nat)
    requires kind != LF && IndexOf(body, LF) < 0 && |body| + 3 <= size
    ensures LineOf([kind] + body + CRLF + rest, size) == (Ok([kind] + body), rest)
    ensures ([kind] + body)[0] == kind && ([kind] + body)[1..] == body
  {
    IndexOfConcat([kind], body, LF);
    LineOfEncoded([kind] + body, rest, size);
  }

  lemma {:induction false} BulkRoundTrip(data: bytes, rest: bytes, size: nat)
    requires size >= 32 && |data| + 2 <= MAX_INT64
    ensures ReplyOf(Encode(Bulk(data)) + rest, size) == (Ok(Str(data)), rest)
  {
    FormatIntRoundTrip(|data|, INT64);
    ConcatAssoc([DOLLAR] + Digits(|data|) + CRLF, data + CRLF, rest);
    HeadLine(DOLLAR, Digits(|data|), data + CRLF + rest, size);
    BlockOfEncoded(data, rest);
    var line := [DOLLAR] + Digits(|data|);
    assert |line| == 3 ==> line[1] == Digits(|data|)[0];
  }

  lemma {:induction false} NullRoundTrip(kind: byte, rest: bytes, size: nat)
    requires size >= 32 && (kind == DOLLAR || kind == STAR)
    ensures ReplyOf([kind, MINUS, ONE] + CRLF + rest, size) == (Err(NilReply), rest)
  {
    assert IndexFrom([MINUS, ONE], LF, 1) == -1;
    assert [kind, MINUS, ONE] == [kind] + [MINUS, ONE];
    HeadLine(kind, [MINUS, ONE], rest, size);
  }

  /** Replies that are one line. */
  lemma {:induction false} LineRoundTrip(r: Reply, rest: bytes, size: nat)
    requires size >= 32 && Sendable(r, size) && (r.Status? || r.Error? || r.Number?)
    ensures ReplyOf(Encode(r) + rest, size) == (Outcome(r), rest)
  {
    match r
    case Status(text) => HeadLine(PLUS, text, rest, size);
    case Error(text) => HeadLine(MINUS, text, rest, size);
    case Number(n) =>
      FormatIntRoundTrip(n, INT64);
      HeadLine(COLON, FormatInt(n), rest, size);
  }

  lemma {:induction false} ArrayHead(n: nat, tail: bytes, size: nat)
    requires size >= 32 && n < INT64
    ensures ReplyOf([STAR] + Digits(n) + CRLF + tail, size) == AsItems(ItemsOf(tail, size, n))
  {
    var line := [STAR] + Digits(n);
    FormatIntRoundTrip(n, INT64);
    HeadLine(STAR, Digits(n), tail, size);
    assert |line| == 3 ==> line[1] == Digits(n)[0];
    assert AfterLine(line, tail, size) == AsItems(ItemsOf(tail, size, n));
  }

  lemma {:induction false} ItemsFirst(s: bytes, size: nat, n: nat, v: Value, rest: bytes)
    requires n > 0 && AsItem(ReplyOf(s, size).0) == Ok(v) && ReplyOf(s, size).1 == rest
    ensures ItemsOf(s, size, n) == (Prepend([v], ItemsOf(rest, size, n - 1).0), ItemsOf(rest, size, n - 1).1)
  {
  }

  lemma {:induction false} ItemsStop(s: bytes, size: nat, n: nat, e: Resp.Error)
    requires n > 0 && ReplyOf(s, size).0 == Err(e) && e != NilReply
    ensures ItemsOf(s, size, n) == (Err(e), ReplyOf(s, size).1)
  {
  }

  lemma {:induction false} EncodeFirst(rs: seq<Reply>, tail: bytes)
    requires rs != []
    ensures EncodeAll(rs) + tail == Encode(rs[0]) + (EncodeAll(rs[1..]) + tail)
  {
    ConcatAssoc(Encode(rs[0]), EncodeAll(rs[1..]), tail);
  }

  lemma {:induction false} EncodeSplit(rs: seq<Reply>, k: nat)
    requires k < |rs|
    ensures EncodeAll(rs) == EncodeAll(rs[..k]) + (Encode(rs[k]) + EncodeAll(rs[k + 1..]))
  {
    if k > 0 {
      assert rs[1..][..k - 1] == rs[..k][1..] && rs[1..][k..] == rs[k + 1..];
      EncodeSplit(rs[1..], k - 1);
      ConcatAssoc(Encode(rs[0]), EncodeAll(rs[..k][1..]), Encode(rs[k]) + EncodeAll(rs[k + 1..]));
    }
  }

  lemma {:induction false} ArraySplit(rs: seq<Reply>, k: nat, rest: bytes)
    requires k < |rs|
    ensures Encode(Array(rs)) + rest ==
            [STAR] + Digits(|rs|) + CRLF + (EncodeAll(rs[..k]) + (Encode(rs[k]) + (EncodeAll(rs[k + 1..]) + rest)))
  {
    EncodeSplit(rs, k);
    ConcatAssoc([STAR] + Digits(|rs|) + CRLF, EncodeAll(rs), rest);
    ConcatAssoc(EncodeAll(rs[..k]), Encode(rs[k]) + EncodeAll(rs[k + 1..]), rest);
    ConcatAssoc(Encode(rs[k]), EncodeAll(rs[k + 1..]), rest);
  }

  lemma {:induction false} ItemIs(r: Reply)
    requires !Fails(r)
    ensures AsItem(Outcome(r)) == Ok(ToValue(r))
  {
  }

  /**
   * parseReply returns the tree that was sent and leaves exactly the following bytes. A reply with an error in it
   * gives its first error, and leaves all that was sent behind that error.
   */
  lemma {:induction false} ReplyRoundTrip(r: Reply, rest: bytes, size: nat)
    requires size >= 32 && Sendable(r, size)
    ensures ReplyOf(Encode(r) + rest, size) == (Outcome(r), Leftover(r) + rest)
    decreases r, 1
  {
    assert [] + rest == rest;
    match r
    case Bulk(data) => BulkRoundTrip(data, rest, size);
    case NullBulk => NullRoundTrip(DOLLAR, rest, size);
    case NullArray => NullRoundTrip(STAR, rest, size);
    case Array(replies) =>
      if NoneFails(replies) {
        ArrayRoundTrip(replies, rest, size);
      } else {
        ArrayStops(replies, rest, size);
      }
    case _ => LineRoundTrip(r, rest, size);
  }

  lemma {:induction false} ArrayRoundTrip(rs: seq<Reply>, rest: bytes, size: nat)
    requires size >= 32 && Sendable(Array(rs), size) && NoneFails(rs)
    ensures ReplyOf(Encode(Array(rs)) + rest, size) == (Ok(Items(ToValues(rs))), rest)
    decreases rs, 1
  {
    hide ReplyOf, AfterLine;
    ConcatAssoc([STAR] + Digits(|rs|) + CRLF, EncodeAll(rs), rest);
    ArrayHead(|rs|, EncodeAll(rs) + rest, size);
    ItemsRoundTrip(rs, rest, size, 0);
    assert ToValues(rs) + [] == ToValues(rs);
  }

  /** Items as sent, and k more from the bytes behind them. */
  lemma {:induction false} ItemsRoundTrip(rs: seq<Reply>, tail: bytes, size: nat, k: nat)
    requires size >= 32 && NoneFails(rs) && forall i :: 0 <= i < |rs| ==> Sendable(rs[i], size)
    ensures ItemsOf(EncodeAll(rs) + tail, size, |rs| + k) ==
            (Prepend(ToValues(rs), ItemsOf(tail, size, k).0), ItemsOf(tail, size, k).1)
    decreases rs, 0
  {
    hide ReplyOf, ItemsOf;
    if rs == [] {
      assert EncodeAll(rs) + tail == tail;
      PrependNothing(ItemsOf(tail, size, k).0);
    } else {
      var more := EncodeAll(rs[1..]) + tail;
      EncodeFirst(rs, tail);
      ReplyRoundTrip(rs[0], more, size);
      ItemIs(rs[0]);
      assert [] + more == more;
      ItemsFirst(EncodeAll(rs) + tail, size, |rs| + k, ToValue(rs[0]), more);
      ItemsRoundTrip(rs[1..], tail, size, k);
      PrependTwice([ToValue(rs[0])], ToValues(rs[1..]), ItemsOf(tail, size, k).0);
    }
  }

  /** An array ends at the first item that cannot be read, and the next bytes to read are those behind that item. */
  lemma {:induction false} ItemsFail(n: nat, good: seq<Reply>, tail: bytes, size: nat, e: Resp.Error)
    requires size >= 32 && |good| < n < INT64 && NoneFails(good) && forall i :: 0 <= i < |good| ==> Sendable(good[i], size)
    requires ReplyOf(tail, size).0 == Err(e) && e != NilReply
    ensures ReplyOf([STAR] + Digits(n) + CRLF + (EncodeAll(good) + tail), size) == (Err(e), ReplyOf(tail, size).1)
    decreases good, 1
  {
    hide ReplyOf, ItemsOf;
    ArrayHead(n, EncodeAll(good) + tail, size);
    ItemsRoundTrip(good, tail, size, n - |good|);
    ItemsStop(tail, size, n - |good|, e);
  }

  /** The first item with an error ends the array: its error is the error of the array. */
  lemma {:induction false} ArrayStops(rs: seq<Reply>, rest: bytes, size: nat)
    requires size >= 32 && Sendable(Array(rs), size) && !NoneFails(rs)
    ensures var k := FirstFailing(rs);
            ReplyOf(Encode(Array(rs)) + rest, size) ==
            (Err(RedisError(ErrorOf(rs[k]))), Behind(rs[k]) + EncodeAll(rs[k + 1..]) + rest)
    decreases rs, 1
  {
    hide ReplyOf, FirstFailing, Behind, ErrorOf;
    var k := FirstFailing(rs);
    var more := EncodeAll(rs[k + 1..]) + rest;
    ReplyRoundTrip(rs[k], more, size);
    ItemsFail(|rs|, rs[..k], Encode(rs[k]) + more, size, RedisError(ErrorOf(rs[k])));
    ArraySplit(rs, k, rest);
    ConcatAssoc(Behind(rs[k]), EncodeAll(rs[k + 1..]), rest);
  }

  /** An array of a status, an error, a number, a bulk string and the two kinds of null, in bytes. */
  lemma {:induction false} ReplyExample()
    ensures Encode(Status([79, 75])) == [43, 79, 75, 13, 10]
    ensures Encode(Error([69])) == [45, 69, 13, 10]
    ensures Encode(Number(-17)) == [58, 45, 49, 55, 13, 10]
    ensures Encode(Bulk([120])) == [36, 49, 13, 10, 120, 13, 10]
    ensures Encode(NullBulk) == [36, 45, 49, 13, 10] && Encode(NullArray) == [42, 45, 49, 13, 10]
    ensures Encode(Array([NullBulk])) == [42, 49, 13, 10, 36, 45, 49, 13, 10]
  {
    assert EncodeAll([NullBulk]) == Encode(NullBulk) + EncodeAll([]);
  }

  // What is not a reply ---------------------------------------------------------------

  /** A length announces n bytes and a line end; these two bytes are not looked at. */
  lemma {:induction false} BulkMeans(line: bytes, rest: bytes)
    requires line != []
    ensures !IsNumberIn(line[1..], INT64) ==> BulkOf(line, rest) == (Err(BadNumber), rest)
    ensures IsNumberIn(line[1..], INT64) ==>
              var n := NumberOf(line[1..]);
              if -2 <= n <= MAX_INT64 - 2 && |rest| < n + 2 then BulkOf(line, rest) == (Err(IO(BufReader.EOF)), [])
              else if 0 <= n <= MAX_INT64 - 2 then BulkOf(line, rest) == (Ok(Str(rest[..n])), rest[n + 2..])
              else BulkOf(line, rest).0 == Panic
  {
    ParseIntMeans(line[1..], INT64);
    if IsNumberIn(line[1..], INT64) && 0 <= NumberOf(line[1..]) <= |rest| - 2 {
      var n := NumberOf(line[1..]);
      assert rest[..n + 2][..n] == rest[..n];
    }
  }

  lemma {:induction false} ReplyStep(s: bytes, size: nat, line: bytes, rest: bytes)
    requires BufReader.FirstLine(s, size, line, rest)
    ensures ReplyOf(s, size) == if line == [] then (Panic, rest) else AfterLine(line, rest, size)
  {
    BufReader.LineFits(s, size, line, rest);
  }

  lemma {:induction false} NilMeans(line: bytes)
    requires line != []
    ensures IsNil(line) <==> line == [line[0], MINUS, ONE]
    ensures IsNil(line) ==> IsNumberIn(line[1..], INT64)
  {
    if IsNil(line) {
      var one: bytes := [ONE];
      assert line[1..] == [MINUS, ONE] && line[1..][1..] == one;
      assert one[1..] == [] && Places(one[1..]) == 0 && Pow(10, 0) == 1;
      assert Places(one) == 1 && NumberOf(line[1..]) == -1;
    }
  }

  /** What parseReply makes of any first line: of a bulk string with the bytes behind it, of an array its count only. */
  lemma {:induction false} ReplyLines(s: bytes, size: nat, line: bytes, rest: bytes)
    requires BufReader.FirstLine(s, size, line, rest)
    ensures line == [] ==> ReplyOf(s, size) == (Panic, rest)
    ensures line != [] && line[0] !in {PLUS, MINUS, COLON, DOLLAR, STAR} ==> ReplyOf(s, size) == (Err(CannotParse(line)), rest)
    ensures line != [] && line[0] == PLUS ==> ReplyOf(s, size) == (Ok(Str(line[1..])), rest)
    ensures line != [] && line[0] == MINUS ==> ReplyOf(s, size) == (Err(RedisError(line[1..])), rest)
    ensures line != [] && line[0] == COLON ==>
              ReplyOf(s, size) == (if IsNumberIn(line[1..], INT64) then Ok(Num(NumberOf(line[1..]))) else Err(BadNumber), rest)
    ensures line == [DOLLAR, MINUS, ONE] || line == [STAR, MINUS, ONE] ==> ReplyOf(s, size) == (Err(NilReply), rest)
    ensures line != [] && line[0] == DOLLAR && line != [DOLLAR, MINUS, ONE] ==> ReplyOf(s, size) == BulkOf(line, rest)
    ensures line != [] && line[0] == STAR && line != [STAR, MINUS, ONE] ==>
              if !IsNumberIn(line[1..], INT64) then ReplyOf(s, size) == (Err(BadNumber), rest)
              else if NumberOf(line[1..]) < 0 then ReplyOf(s, size) == (Panic, rest)
              else if NumberOf(line[1..]) == 0 then ReplyOf(s, size) == (Ok(Items([])), rest)
              else ReplyOf(s, size) == AsItems(ItemsOf(rest, size, NumberOf(line[1..])))
  {
    hide IsNumber, NumberOf, ReplyOf, BulkOf;
    ReplyStep(s, size, line, rest);
    if line != [] {
      ParseIntMeans(line[1..], INT64);
      NilMeans(line);
    }
  }
}
