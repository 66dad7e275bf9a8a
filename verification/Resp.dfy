/** Commands and replies of the Redis protocol, redis.v3 parser.go. */
module Resp {
  import opened Bytes
  import BufReader

  type Reader = BufReader.Reader

  const MAX_INT64: int := 0x7fff_ffff_ffff_ffff
  const STAR: byte := 42
  const DOLLAR: byte := 36
  const PLUS: byte := 43
  const MINUS: byte := 45
  const COLON: byte := 58
  const ONE: byte := 49
  const CRLF: bytes := [CR, LF]

  datatype Error =
    | IO(cause: BufReader.Error)
    | ReaderTooSmall
    | BadNumber
    | Expected(line: bytes)
    | CannotParse(line: bytes)
    | RedisError(text: bytes)
    | NilReply

  /** Panic is a run-time panic: an index or a slice bound out of range. */
  datatype Result<+T> = Ok(value: T) | Err(error: Error) | Panic

  // Decimal numbers -----------------------------------------------------------------

  function Digits(n: nat): (s: bytes)
    ensures s != []
  {
    if n < 10 then [48 + n] else Digits(n / 10) + [48 + n % 10]
  }

  function FormatInt(n: int): bytes {
    if n < 0 then [MINUS] + Digits(-n) else Digits(n)
  }

  function ParseDigits(s: bytes): Option<nat> {
    if s == [] then Some(0)
    else
      var front, d := ParseDigits(s[..|s| - 1]), s[|s| - 1];
      if front.Some? && 48 <= d <= 57 then Some(10 * front.value + (d - 48)) else None
  }

  /** strconv.ParseInt in base 10; limit is 2 to the power bitSize - 1. */
  function ParseInt(s: bytes, limit: int): Option<int> {
    var signed := s != [] && (s[0] == PLUS || s[0] == MINUS);
    var digits := if signed then s[1..] else s;
    if digits == [] then None
    else match ParseDigits(digits)
      case None => None
      case Some(v) =>
        var m: int := v;
        var n := if signed && s[0] == MINUS then -m else m;
        if -limit <= n < limit then Some(n) else None
  }

  predicate IsDigits(s: bytes) {
    forall k :: 0 <= k < |s| ==> 48 <= s[k] <= 57
  }

  /** The number that decimal digits stand for, by the place of each. */
  function Places(s: bytes): nat
    requires IsDigits(s)
  {
    if s == [] then 0 else (s[0] - 48) * Pow(10, |s| - 1) + Places(s[1..])
  }

  /** s is a decimal number with an optional sign. */
  predicate IsNumber(s: bytes) {
    var digits := if s != [] && (s[0] == PLUS || s[0] == MINUS) then s[1..] else s;
    digits != [] && IsDigits(digits)
  }

  function NumberOf(s: bytes): int
    requires IsNumber(s)
  {
    if s[0] == PLUS then Places(s[1..])
    else if s[0] == MINUS then var n: int := Places(s[1..]); -n
    else Places(s)
  }

  lemma {:induction false} TenTimes(d: nat, p: nat, n: nat, c: nat)
    ensures d * (10 * p) + (10 * n + c) == 10 * (d * p + n) + c
  {
  }

  lemma {:induction false} PlacesSnoc(s: bytes, d: byte)
    requires IsDigits(s) && 48 <= d <= 57
    ensures IsDigits(s + [d]) && Places(s + [d]) == 10 * Places(s) + (d - 48)
  {
    var t := s + [d];
    assert IsDigits(t);
    if s == [] {
      assert t[1..] == [] && Pow(10, 0) == 1;
    } else {
      assert t[1..] == s[1..] + [d] && t[0] == s[0];
      PlacesSnoc(s[1..], d);
      assert Pow(10, |s|) == 10 * Pow(10, |s| - 1);
      TenTimes(s[0] - 48, Pow(10, |s| - 1), Places(s[1..]), d - 48);
    }
  }

  lemma {:induction false} ParseDigitsMeans(s: bytes)
    ensures ParseDigits(s) == if IsDigits(s) then Some(Places(s)) else None
  {
    if s != [] {
      var front, d := s[..|s| - 1], s[|s| - 1];
      ParseDigitsMeans(front);
      assert s == front + [d];
      if IsDigits(s) {
        PlacesSnoc(front, d);
      }
    }
  }

  /** ParseInt accepts exactly the decimal numbers in range, and returns their value. */
  lemma {:induction false} ParseIntMeans(s: bytes, limit: int)
    ensures ParseInt(s, limit) == if IsNumber(s) && -limit <= NumberOf(s) < limit then Some(NumberOf(s)) else None
  {
    var signed := s != [] && (s[0] == PLUS || s[0] == MINUS);
    ParseDigitsMeans(if signed then s[1..] else s);
  }

  const INT32: int := 0x8000_0000
  const INT64: int := 0x8000_0000_0000_0000

  lemma {:induction false} ParseDigitsRoundTrip(n: nat)
    ensures ParseDigits(Digits(n)) == Some(n)
  {
    if n >= 10 {
      ParseDigitsRoundTrip(n / 10);
      assert Digits(n)[..|Digits(n)| - 1] == Digits(n / 10);
    } else {
      assert Digits(n)[..0] == [];
    }
  }

  lemma {:induction false} DigitsShape(n: nat, width: nat)
    requires n < Pow(10, width) && width > 0
    ensures |Digits(n)| <= width
    ensures forall k :: 0 <= k < |Digits(n)| ==> 48 <= Digits(n)[k] <= 57
  {
    assert Pow(10, 1) == 10;
    if n >= 10 {
      DigitsShape(n / 10, width - 1);
    }
  }

  lemma {:induction false} Pow19()
    ensures Pow(10, 19) == 10_000_000_000_000_000_000
  {
    assert Pow(10, 5) == 100_000;
    assert Pow(10, 10) == 10_000_000_000;
    assert Pow(10, 15) == 1_000_000_000_000_000;
  }

  /** A formatted 64-bit number is short, has no line feed, and parses back. */
  lemma {:induction false} FormatIntRoundTrip(n: int, limit: int)
    requires limit <= INT64 && -limit <= n < limit
    ensures ParseInt(FormatInt(n), limit) == Some(n)
    ensures 0 < |FormatInt(n)| <= 20 && IndexOf(FormatInt(n), LF) < 0
    ensures n >= 0 ==> FormatInt(n)[0] != MINUS
  {
    var v := if n < 0 then -n else n;
    Pow19();
    DigitsShape(v, 19);
    ParseDigitsRoundTrip(v);
    if n < 0 {
      assert FormatInt(n)[1..] == Digits(v);
    }
  }

  // Lines and blocks ----------------------------------------------------------------

  /** readLine as a function of the stream and the size of the buffer. */
  function LineOf(s: bytes, size: nat): (r: (Result<bytes>, bytes))
    ensures |r.1| <= |s|
    ensures r.0.Ok? && r.0.value != [] ==> |r.1| < |s|
  {
    var f := BufReader.LineOf(s, size);
    var line := if f.err.Some? then Err(IO(f.err.value)) else if f.isPrefix then Err(ReaderTooSmall) else Ok(f.line);
    (line, s[f.used..])
  }

  /** readN does not depend on the size of the buffer. */
  function BlockOf(s: bytes, n: nat): (r: (Result<bytes>, bytes))
    ensures |r.1| <= |s|
  {
    if n <= |s| then (Ok(s[..n]), s[n..]) else (Err(IO(BufReader.EOF)), [])
  }

  lemma {:induction false} LineOfEncoded(line: bytes, rest: bytes, size: nat)
    requires IndexOf(line, LF) < 0 && |line| + 2 <= size
    ensures LineOf(line + CRLF + rest, size) == (Ok(line), rest)
  {
    assert IndexFrom(CRLF, LF, 1) == 1;
    IndexOfConcat(line, CRLF, LF);
    IndexOfConcat(line + CRLF, rest, LF);
    SplitRight(line + CRLF, rest, 0);
    var s := line + CRLF + rest;
    assert s[..|line| + 2] == line + CRLF && s[|line| + 2..] == rest;
    assert BufReader.Chop(line + CRLF) == line;
  }

  lemma {:induction false} BlockOfEncoded(data: bytes, rest: bytes)
    ensures BlockOf(data + CRLF + rest, |data| + 2) == (Ok(data + CRLF), rest)
    ensures (data + CRLF)[..|data|] == data
  {
    SplitRight(data + CRLF, rest, 0);
  }

  // Requests ------------------------------------------------------------------------

  function EncodeArgs(args: seq<bytes>): bytes {
    if args == [] then []
    else ([DOLLAR] + Digits(|args[0]|) + CRLF) + (args[0] + CRLF + EncodeArgs(args[1..]))
  }

  function EncodeReq(args: seq<bytes>): bytes {
    [STAR] + Digits(|args|) + CRLF + EncodeArgs(args)
  }

  lemma {:induction false} EncodeArgsSnoc(args: seq<bytes>, arg: bytes)
    ensures EncodeArgs(args + [arg]) == EncodeArgs(args) + ([DOLLAR] + Digits(|arg|) + CRLF + arg + CRLF)
  {
    if args == [] {
      assert [arg][1..] == [];
    } else {
      assert (args + [arg])[1..] == args[1..] + [arg];
      EncodeArgsSnoc(args[1..], arg);
    }
  }

  method appendArgs(buf: bytes, args: seq<bytes>) returns (out: bytes)
    ensures out == buf + EncodeReq(args)
  {
    out := buf + [STAR];
    out := out + Digits(|args|);
    out := out + CRLF;
    ghost var head := out;
    assert head == buf + ([STAR] + Digits(|args|) + CRLF);
    for i := 0 to |args|
      invariant out == head + EncodeArgs(args[..i])
    {
      var arg := args[i];
      ghost var done := out;
      out := out + [DOLLAR] + Digits(|arg|) + CRLF + arg + CRLF;
      assert out == done + ([DOLLAR] + Digits(|arg|) + CRLF + arg + CRLF);
      EncodeArgsSnoc(args[..i], arg);
      ConcatAssoc(head, EncodeArgs(args[..i]), [DOLLAR] + Digits(|arg|) + CRLF + arg + CRLF);
      assert args[..i + 1] == args[..i] + [arg];
    }
    assert args[..|args|] == args;
    ConcatAssoc(buf, [STAR] + Digits(|args|) + CRLF, EncodeArgs(args));
  }

  function Prepend<T>(front: seq<T>, r: Result<seq<T>>): Result<seq<T>> {
    if r.Ok? then Ok(front + r.value) else r
  }

  /** One argument of a request: "$", its length, and its bytes. */
  function ArgOf(s: bytes, size: nat): (r: (Result<bytes>, bytes))
    ensures |r.1| <= |s|
  {
    var (line, rest) := LineOf(s, size);
    if !line.Ok? then (line, rest)
    else if line.value == [] then (Panic, rest)
    else if line.value[0] != DOLLAR then (Err(Expected(line.value)), rest)
    else match ParseInt(line.value[1..], INT32)
      case None => (Err(BadNumber), rest)
      case Some(n) =>
        if n + 2 < 0 then (Panic, rest)
        else
          var (block, rest') := BlockOf(rest, n + 2);
          if !block.Ok? then (block, rest')
          else if n < 0 then (Panic, rest')
          else (Ok(block.value[..n]), rest')
  }

  function ArgsOf(s: bytes, size: nat, n: nat): (Result<seq<bytes>>, bytes)
    decreases n
  {
    if n == 0 then (Ok([]), s)
    else
      var (arg, rest) := ArgOf(s, size);
      match arg
      case Ok(value) => var (args, rest') := ArgsOf(rest, size, n - 1); (Prepend([value], args), rest')
      case Err(e) => (Err(e), rest)
      case Panic => (Panic, rest)
  }

  /** parseReq as a function of the stream. */
  function ReqOf(s: bytes, size: nat): (Result<seq<bytes>>, bytes) {
    var (line, rest) := LineOf(s, size);
    match line
    case Err(e) => (Err(e), rest)
    case Panic => (Panic, rest)
    case Ok(value) =>
      if value == [] then (Panic, rest)
      else if value[0] != STAR then (Ok([value]), rest)
      else match ParseInt(value[1..], INT64)
        case None => (Err(BadNumber), rest)
        case Some(n) => if n < 0 then (Panic, rest) else ArgsOf(rest, size, n)
  }

  method readLine(rd: Reader) returns (line: Result<bytes>)
    requires rd.Valid()
    modifies rd, rd.buf, rd.rd
    ensures rd.Valid() && |rd.Pending()| <= |old(rd.Pending())|
    ensures line.Ok? && line.value != [] ==> |rd.Pending()| < |old(rd.Pending())|
    ensures old(rd.Steady()) ==> rd.Steady() && (line, rd.Pending()) == LineOf(old(rd.Pending()), rd.buf.Length)
  {
    var bytes, isPrefix, err := rd.ReadLine();
    if err.Some? {
      return Err(IO(err.value));
    }
    if isPrefix {
      return Err(ReaderTooSmall);
    }
    return Ok(bytes);
  }

  method readN(rd: Reader, n: nat) returns (block: Result<bytes>)
    requires rd.Valid()
    modifies rd, rd.buf, rd.rd
    ensures rd.Valid() && |rd.Pending()| <= |old(rd.Pending())|
    ensures block.Ok? ==> |block.value| == n
    ensures old(rd.Steady()) ==> rd.Steady() && (block, rd.Pending()) == BlockOf(old(rd.Pending()), n)
  {
    ghost var s := rd.Pending();
    var b, err := rd.ReadN(n);
    if err == Some(BufReader.BufferFull) {
      while |b| < n
        invariant rd.Valid() && |b| <= n && b + rd.Pending() == s
        invariant old(rd.Steady()) ==> rd.Steady()
        decreases rd.Effort()
      {
        ghost var t := rd.Pending();
        var more, e := rd.Read(n - |b|);
        ConcatAssoc(b, more, rd.Pending());
        b := b + more;
        if |b| >= n {
          break;
        }
        if e.Some? {
          return Err(IO(e.value));
        }
      }
    } else if err.Some? {
      return Err(IO(err.value));
    }
    return Ok(b);
  }

  method parseReq(rd: Reader) returns (r: Result<seq<bytes>>)
    requires rd.Valid()
    modifies rd, rd.buf, rd.rd
    ensures rd.Valid()
    ensures old(rd.Steady()) ==> rd.Steady() && (r, rd.Pending()) == ReqOf(old(rd.Pending()), rd.buf.Length)
  {
    var line := readLine(rd);
    match line {
      case Err(e) => return Err(e);
      case Panic => return Panic;
      case Ok(head) =>
        if head == [] {
          return Panic;
        }
        if head[0] != STAR {
          return Ok([head]);
        }
        var num := ParseInt(head[1..], INT64);
        if num.None? {
          return Err(BadNumber);
        }
        if num.value < 0 {
          return Panic;
        }
        r := parseArgs(rd, num.value);
    }
  }

  /** The result of a function of the stream, taken apart. */
  ghost predicate Yields<T(!new)>(whole: (Result<T>, bytes), r: Result<T>, rest: bytes) {
    whole.0 == r && whole.1 == rest
  }

  /** The rest of the loop gives what is still missing of the whole result. */
  ghost predicate Continues(whole: (Result<seq<bytes>>, bytes), done: seq<bytes>, r: (Result<seq<bytes>>, bytes)) {
    whole.0 == Prepend(done, r.0) && whole.1 == r.1
  }

  /** One turn of the loop of parseReq. */
  lemma {:induction false} ArgsStep(whole: (Result<seq<bytes>>, bytes), done: seq<bytes>, s: bytes, size: nat, n: nat)
    requires n > 0 && Continues(whole, done, ArgsOf(s, size, n))
    ensures var (arg, rest) := ArgOf(s, size);
            match arg
            case Ok(v) => Continues(whole, done + [v], ArgsOf(rest, size, n - 1))
            case Err(e) => whole == (Err(e), rest)
            case Panic => whole == (Panic, rest)
  {
    var (arg, rest) := ArgOf(s, size);
    if arg.Ok? {
      PrependTwice(done, [arg.value], ArgsOf(rest, size, n - 1).0);
    }
  }

  /** The loop of parseReq. */
  method parseArgs(rd: Reader, n: nat) returns (r: Result<seq<bytes>>)
    requires rd.Valid()
    modifies rd, rd.buf, rd.rd
    ensures rd.Valid()
    ensures old(rd.Steady()) ==> rd.Steady() && Yields(ArgsOf(old(rd.Pending()), rd.buf.Length, n), r, rd.Pending())
  {
    hide ArgOf;
    ghost var size, steady := rd.buf.Length, rd.Steady();
    ghost var whole := ArgsOf(rd.Pending(), size, n);
    var args: seq<bytes> := [];
    PrependNothing(whole.0);
    var i := 0;
    while i < n
      invariant 0 <= i <= n && rd.Valid()
      invariant steady ==> rd.Steady() && Continues(whole, args, ArgsOf(rd.Pending(), size, n - i))
    {
      if steady {
        ArgsStep(whole, args, rd.Pending(), size, n - i);
      }
      var arg := parseArg(rd);
      if arg.Err? {
        return Err(arg.error);
      }
      if arg.Panic? {
        return Panic;
      }
      args := args + [arg.value];
      i := i + 1;
    }
    assert args + [] == args;
    return Ok(args);
  }

  lemma {:induction false} PrependNothing<T>(r: Result<seq<T>>)
    ensures Prepend([], r) == r
  {
    if r.Ok? {
      assert [] + r.value == r.value;
    }
  }

  lemma {:induction false} PrependTwice<T>(a: seq<T>, b: seq<T>, r: Result<seq<T>>)
    ensures Prepend(a, Prepend(b, r)) == Prepend(a + b, r)
  {
    if r.Ok? {
      assert a + (b + r.value) == (a + b) + r.value;
    }
  }

  method parseArg(rd: Reader) returns (r: Result<bytes>)
    requires rd.Valid()
    modifies rd, rd.buf, rd.rd
    ensures rd.Valid()
    ensures old(rd.Steady()) ==> rd.Steady() && (r, rd.Pending()) == ArgOf(old(rd.Pending()), rd.buf.Length)
  {
    r := readLine(rd);
    if !r.Ok? {
      return;
    }
    var line := r.value;
    if line == [] {
      return Panic;
    }
    if line[0] != DOLLAR {
      return Err(Expected(line));
    }
    var argLen := ParseInt(line[1..], INT32);
    if argLen.None? {
      return Err(BadNumber);
    }
    if argLen.value + 2 < 0 {
      return Panic;
    }
    r := readN(rd, argLen.value + 2);
    if r.Ok? {
      if argLen.value < 0 {
        return Panic;
      }
      return Ok(r.value[..argLen.value]);
    }
  }

  lemma {:induction false} ArgRoundTrip(arg: bytes, rest: bytes, size: nat)
    requires size >= 32 && |arg| < INT32
    ensures ArgOf([DOLLAR] + Digits(|arg|) + CRLF + (arg + CRLF + rest), size) == (Ok(arg), rest)
  {
    FormatIntRoundTrip(|arg|, INT32);
    var line := [DOLLAR] + Digits(|arg|);
    IndexOfConcat([DOLLAR], Digits(|arg|), LF);
    LineOfEncoded(line, arg + CRLF + rest, size);
    BlockOfEncoded(arg, rest);
    assert line[1..] == Digits(|arg|);
  }

  lemma {:induction false} EncodeArgsFirst(args: seq<bytes>, tail: bytes)
    requires args != []
    ensures EncodeArgs(args) + tail ==
            [DOLLAR] + Digits(|args[0]|) + CRLF + (args[0] + CRLF + (EncodeArgs(args[1..]) + tail))
  {
    var more := EncodeArgs(args[1..]);
    ConcatAssoc([DOLLAR] + Digits(|args[0]|) + CRLF, args[0] + CRLF + more, tail);
    ConcatAssoc(args[0] + CRLF, more, tail);
  }

  lemma {:induction false} ArgsFirst(s: bytes, size: nat, n: nat, arg: bytes, rest: bytes)
    requires n > 0 && ArgOf(s, size) == (Ok(arg), rest)
    ensures ArgsOf(s, size, n) == (Prepend([arg], ArgsOf(rest, size, n - 1).0), ArgsOf(rest, size, n - 1).1)
  {
  }

  /** Arguments as sent, and k more from the bytes behind them. */
  lemma {:induction false} ArgsAppend(args: seq<bytes>, tail: bytes, size: nat, k: nat)
    requires size >= 32 && forall i :: 0 <= i < |args| ==> |args[i]| < INT32
    ensures ArgsOf(EncodeArgs(args) + tail, size, |args| + k) ==
            (Prepend(args, ArgsOf(tail, size, k).0), ArgsOf(tail, size, k).1)
  {
    hide ArgOf, ArgsOf;
    if args == [] {
      assert EncodeArgs(args) + tail == tail;
      PrependNothing(ArgsOf(tail, size, k).0);
    } else {
      var more := EncodeArgs(args[1..]) + tail;
      EncodeArgsFirst(args, tail);
      ArgRoundTrip(args[0], more, size);
      ArgsFirst(EncodeArgs(args) + tail, size, |args| + k, args[0], more);
      ArgsAppend(args[1..], tail, size, k);
      PrependTwice([args[0]], args[1..], ArgsOf(tail, size, k).0);
      assert [args[0]] + args[1..] == args;
    }
  }

  lemma {:induction false} ReqHead(n: nat, tail: bytes, size: nat)
    requires size >= 32 && n < INT64
    ensures ReqOf([STAR] + Digits(n) + CRLF + tail, size) == ArgsOf(tail, size, n)
  {
    FormatIntRoundTrip(n, INT64);
    var line := [STAR] + Digits(n);
    IndexOfConcat([STAR], Digits(n), LF);
    LineOfEncoded(line, tail, size);
    assert line[1..] == Digits(n);
  }

  /** parseReq undoes appendArgs and leaves exactly what follows the command. */
  lemma {:induction false} ReqRoundTrip(args: seq<bytes>, rest: bytes, size: nat)
    requires size >= 32 && |args| < INT64 && forall i :: 0 <= i < |args| ==> |args[i]| < INT32
    ensures ReqOf(EncodeReq(args) + rest, size) == (Ok(args), rest)
  {
    ConcatAssoc([STAR] + Digits(|args|) + CRLF, EncodeArgs(args), rest);
    ReqHead(|args|, EncodeArgs(args) + rest, size);
    ArgsAppend(args, rest, size, 0);
    assert args + [] == args;
  }

  /** GET k, in bytes. */
  lemma {:induction false} CommandExample()
    ensures EncodeReq([[71, 69, 84], [107]]) ==
            [42, 50, 13, 10, 36, 51, 13, 10, 71, 69, 84, 13, 10, 36, 49, 13, 10, 107, 13, 10]
  {
    var args: seq<bytes> := [[71, 69, 84], [107]];
    assert args[1..] == [[107]] && args[1..][1..] == [];
    assert EncodeArgs(args[1..]) == [36, 49, 13, 10, 107, 13, 10];
  }

  // What is not a command ------------------------------------------------------------

  /** readLine returns the first line when it fits the buffer, and otherwise an error with a cause. */
  lemma {:induction false} LineOfMeans(s: bytes, size: nat)
    requires size > 0
    ensures var (line, rest) := LineOf(s, size);
            match line
            case Ok(l) => BufReader.FirstLine(s, size, l, rest)
            case Err(e) =>
              if s == [] then e == IO(BufReader.EOF) && rest == []
              else e == ReaderTooSmall && forall l, t :: !BufReader.FirstLine(s, size, l, t)
            case Panic => false
  {
    BufReader.LineMeans(s, size);
    forall l, t | BufReader.FirstLine(s, size, l, t)
      ensures LineOf(s, size) == (Ok(l), t)
    {
      BufReader.LineFits(s, size, l, t);
    }
  }

  predicate IsNumberIn(s: bytes, limit: int) {
    IsNumber(s) && -limit <= NumberOf(s) < limit
  }

  /** What parseReq makes of any first line, but for the arguments that follow a count. */
  lemma {:induction false} ReqLines(s: bytes, size: nat, line: bytes, rest: bytes)
    requires BufReader.FirstLine(s, size, line, rest)
    ensures line == [] ==> ReqOf(s, size) == (Panic, rest)
    ensures line != [] && line[0] != STAR ==> ReqOf(s, size) == (Ok([line]), rest)
    ensures line != [] && line[0] == STAR && !IsNumberIn(line[1..], INT64) ==> ReqOf(s, size) == (Err(BadNumber), rest)
    ensures line != [] && line[0] == STAR && IsNumberIn(line[1..], INT64) && NumberOf(line[1..]) < 0 ==>
              ReqOf(s, size) == (Panic, rest)
    ensures line != [] && line[0] == STAR && IsNumberIn(line[1..], INT64) && NumberOf(line[1..]) == 0 ==>
              ReqOf(s, size) == (Ok([]), rest)
  {
    BufReader.LineFits(s, size, line, rest);
    if line != [] {
      ParseIntMeans(line[1..], INT64);
    }
  }

  /** What it makes of any line in the place of an argument; the two bytes after the argument are not looked at. */
  lemma {:induction false} ArgLines(s: bytes, size: nat, line: bytes, rest: bytes)
    requires BufReader.FirstLine(s, size, line, rest)
    ensures line == [] ==> ArgOf(s, size) == (Panic, rest)
    ensures line != [] && line[0] != DOLLAR ==> ArgOf(s, size) == (Err(Expected(line)), rest)
    ensures line != [] && line[0] == DOLLAR && !IsNumberIn(line[1..], INT32) ==> ArgOf(s, size) == (Err(BadNumber), rest)
    ensures line != [] && line[0] == DOLLAR && IsNumberIn(line[1..], INT32) ==>
              var n := NumberOf(line[1..]);
              if n >= -2 && |rest| < n + 2 then ArgOf(s, size) == (Err(IO(BufReader.EOF)), [])
              else if n < 0 then ArgOf(s, size).0 == Panic
              else ArgOf(s, size) == (Ok(rest[..n]), rest[n + 2..])
  {
    BufReader.LineFits(s, size, line, rest);
    if line != [] {
      ParseIntMeans(line[1..], INT32);
      if IsNumberIn(line[1..], INT32) && 0 <= NumberOf(line[1..]) <= |rest| - 2 {
        var n := NumberOf(line[1..]);
        assert rest[..n + 2][..n] == rest[..n];
      }
    }
  }

  lemma {:induction false} ArgsStop(s: bytes, size: nat, n: nat)
    requires n > 0 && !ArgOf(s, size).0.Ok?
    ensures ArgsOf(s, size, n) == (match ArgOf(s, size).0 case Err(e) => Err(e) case _ => Panic, ArgOf(s, size).1)
  {
  }

  /** A command whose arguments go wrong after the first |good| fails as the first wrong one does, right behind it. */
  lemma {:induction false} ReqStops(n: nat, good: seq<bytes>, tail: bytes, size: nat)
    requires size >= 32 && |good| < n < INT64 && forall i :: 0 <= i < |good| ==> |good[i]| < INT32
    requires !ArgOf(tail, size).0.Ok?
    ensures var (fault, rest) := ArgOf(tail, size);
            ReqOf([STAR] + Digits(n) + CRLF + (EncodeArgs(good) + tail), size) ==
            (match fault case Err(e) => Err(e) case _ => Panic, rest)
  {
    hide ArgOf, ArgsOf, ReqOf;
    ReqHead(n, EncodeArgs(good) + tail, size);
    ArgsAppend(good, tail, size, n - |good|);
    ArgsStop(tail, size, n - |good|);
  }

  /** The commands of a pipeline, read one by one. */
  function ReqsOf(s: bytes, size: nat, n: nat): (Result<seq<seq<bytes>>>, bytes)
    decreases n
  {
    if n == 0 then (Ok([]), s)
    else
      var (req, rest) := ReqOf(s, size);
      match req
      case Ok(args) => var (reqs, rest') := ReqsOf(rest, size, n - 1); (Prepend([args], reqs), rest')
      case Err(e) => (Err(e), rest)
      case Panic => (Panic, rest)
  }

  function EncodeReqs(reqs: seq<seq<bytes>>): bytes {
    if reqs == [] then [] else EncodeReq(reqs[0]) + EncodeReqs(reqs[1..])
  }

  /** Concatenated commands parse back one by one. */
  lemma {:induction false} PipelineRoundTrip(reqs: seq<seq<bytes>>, rest: bytes, size: nat)
    requires size >= 32 && forall i :: 0 <= i < |reqs| ==> |reqs[i]| < INT64
    requires forall i, j :: 0 <= i < |reqs| && 0 <= j < |reqs[i]| ==> |reqs[i][j]| < INT32
    ensures ReqsOf(EncodeReqs(reqs) + rest, size, |reqs|) == (Ok(reqs), rest)
  {
    if reqs == [] {
      assert EncodeReqs(reqs) + rest == rest;
    } else {
      ConcatAssoc(EncodeReq(reqs[0]), EncodeReqs(reqs[1..]), rest);
      ReqRoundTrip(reqs[0], EncodeReqs(reqs[1..]) + rest, size);
      PipelineRoundTrip(reqs[1..], rest, size);
      assert [reqs[0]] + reqs[1..] == reqs;
    }
  }
}
