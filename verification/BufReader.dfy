/** The buffered reader of bufio.v1: a sliding window over an unbounded stream. */
module BufReader {
  import opened Bytes

  datatype Error = EOF | NoProgress | BufferFull | NegativeCount

  const MAX_EMPTY_READS := 100

  /** Number of empty chunks at the front. */
  function LeadingEmpty(chunks: seq<bytes>): (n: nat)
    ensures n <= |chunks|
  {
    if chunks == [] || chunks[0] != [] then 0 else 1 + LeadingEmpty(chunks[1..])
  }

  /** Never as many empty reads in a row as make fill give up. */
  predicate SteadyChunks(chunks: seq<bytes>) {
    LeadingEmpty(chunks) < MAX_EMPTY_READS && (chunks != [] ==> SteadyChunks(chunks[1..]))
  }

  /**
   * The underlying io.Reader. Each read takes from the next chunk, so the list of chunks
   * stands for any way the bytes can arrive; an empty chunk is a read of zero bytes.
   */
  class Source {
    var chunks: seq<bytes>

    constructor (chunks: seq<bytes>)
      ensures this.chunks == chunks
    {
      this.chunks := chunks;
    }

    ghost function Unread(): bytes
      reads this
    {
      Flatten(chunks)
    }

    ghost function Effort(): nat
      reads this
    {
      |chunks| + |Unread()|
    }

    method Read(max: nat) returns (p: bytes, err: Option<Error>)
      requires max > 0
      modifies this
      ensures |p| <= max
      ensures p + Unread() == old(Unread())
      ensures err.Some? ==> err == Some(EOF) && p == [] && old(chunks) == [] && chunks == []
      ensures err.None? ==> Effort() < old(Effort())
      ensures |chunks| <= old(|chunks|)
      ensures p == [] && err.None? ==> LeadingEmpty(chunks) + 1 == LeadingEmpty(old(chunks))
      ensures SteadyChunks(old(chunks)) ==> SteadyChunks(chunks)
    {
      if chunks == [] {
        return [], Some(EOF);
      }
      p, err := chunks[0], None;
      if |p| <= max {
        chunks := chunks[1..];
      } else {
        var whole := p;
        p := whole[..max];
        chunks := [whole[max..]] + chunks[1..];
        assert chunks[1..] == old(chunks)[1..];
      }
    }
  }

  /** How much of a stream an operation takes, and the error it reports. */
  datatype Cut = Cut(n: nat, err: Option<Error>)

  function SliceCut(s: bytes, size: nat, delim: byte): (c: Cut)
    ensures c.n <= |s|
  {
    var i := IndexOf(s, delim);
    if 0 <= i < size then Cut(i + 1, None)
    else if |s| >= size then Cut(size, Some(BufferFull))
    else Cut(|s|, Some(EOF))
  }

  function TakeCut(s: bytes, size: nat, n: nat): (c: Cut)
    ensures c.n <= |s|
  {
    if n <= |s| && n <= size then Cut(n, None)
    else if size <= |s| then Cut(size, Some(BufferFull))
    else Cut(|s|, Some(EOF))
  }

  /** ReadBytes does not depend on the size of the buffer. */
  function BytesCut(s: bytes, delim: byte): (c: Cut)
    ensures c.n <= |s|
  {
    var i := IndexOf(s, delim);
    if i >= 0 then Cut(i + 1, None) else Cut(|s|, Some(EOF))
  }

  /** A delimiter found in the window is the first one of the stream; a full window has none. */
  lemma {:induction false} WindowCut(window: bytes, rest: bytes, size: nat, delim: byte)
    requires |window| <= size
    ensures IndexOf(window, delim) >= 0 ==>
              SliceCut(window + rest, size, delim) == Cut(IndexOf(window, delim) + 1, None)
    ensures IndexOf(window, delim) < 0 && |window| == size ==>
              SliceCut(window + rest, size, delim) == Cut(size, Some(BufferFull))
    ensures IndexOf(window, delim) < 0 && |window| < size && rest == [] ==>
              SliceCut(window + rest, size, delim) == Cut(|window|, Some(EOF))
  {
    IndexOfConcat(window, rest, delim);
  }

  lemma {:induction false} CutNoDelim(s: bytes, size: nat, delim: byte)
    requires SliceCut(s, size, delim).err.Some?
    ensures IndexOf(s[..SliceCut(s, size, delim).n], delim) < 0
  {
    var n := SliceCut(s, size, delim).n;
    TakeDrop(s, n);
    IndexOfConcat(s[..n], s[n..], delim);
  }

  /** p is what precedes rest up to the first delimiter, which it holds. */
  predicate UpTo(s: bytes, p: bytes, rest: bytes, delim: byte) {
    s == p + rest && p != [] && p[|p| - 1] == delim && delim !in p[..|p| - 1]
  }

  /** A slice ends at the first delimiter, fills the buffer without one, or is the rest of the stream without one. */
  predicate Slices(s: bytes, size: nat, delim: byte, p: bytes, rest: bytes, e: Option<Error>) {
    match e
    case None => UpTo(s, p, rest, delim) && |p| <= size
    case Some(BufferFull) => s == p + rest && |p| == size && delim !in p
    case Some(EOF) => s == p && rest == [] && |p| < size && delim !in p
    case _ => false
  }

  lemma {:induction false} SliceMeans(s: bytes, size: nat, delim: byte)
    ensures var c := SliceCut(s, size, delim);
            Slices(s, size, delim, s[..c.n], s[c.n..], c.err)
  {
    var c := SliceCut(s, size, delim);
    IndexOfFirst(s, delim);
    TakeDrop(s, c.n);
    if c.err.None? {
      assert s[..c.n][..c.n - 1] == s[..c.n - 1];
    }
  }

  /** The whole of ReadBytes: like a slice of a buffer that never fills. */
  lemma {:induction false} BytesMeans(s: bytes, delim: byte)
    ensures var c := BytesCut(s, delim);
            if c.err.None? then UpTo(s, s[..c.n], s[c.n..], delim) else c == Cut(|s|, Some(EOF)) && delim !in s
  {
    var c := BytesCut(s, delim);
    IndexOfFirst(s, delim);
    TakeDrop(s, c.n);
    if c.err.None? {
      assert s[..c.n][..c.n - 1] == s[..c.n - 1];
    }
  }

  /** Bytes without the delimiter can be passed over first. */
  lemma {:induction false} BytesSkip(before: bytes, s: bytes, delim: byte)
    requires IndexOf(before, delim) < 0
    ensures BytesCut(before + s, delim) == Cut(|before| + BytesCut(s, delim).n, BytesCut(s, delim).err)
  {
    IndexOfConcat(before, s, delim);
  }

  /** One fragment of ReadBytes, after the fragments before. */
  lemma {:induction false} BytesStep(before: bytes, s: bytes, size: nat, delim: byte,
      frag: bytes, e: Option<Error>, rest: bytes)
    requires IndexOf(before, delim) < 0 && frag + rest == s
    requires if e == Some(NoProgress) then IndexOf(frag, delim) < 0
             else SliceCut(s, size, delim) == Cut(|frag|, e)
    ensures (before + frag) + rest == before + s
    ensures e == Some(BufferFull) || e == Some(NoProgress) ==> IndexOf(before + frag, delim) < 0
    ensures e == Some(BufferFull) ==> |frag| == size
    ensures e == None || e == Some(EOF) ==> BytesCut(before + s, delim) == Cut(|before + frag|, e)
  {
    ConcatAssoc(before, frag, rest);
    BytesSkip(before, s, delim);
    if e.Some? {
      if e != Some(NoProgress) {
        CutNoDelim(s, size, delim);
        assert frag == s[..|frag|];
      }
      IndexOfConcat(before, frag, delim);
    }
  }

  lemma {:induction false} FlattenSnoc(chunks: seq<bytes>, last: bytes)
    ensures Flatten(chunks + [last]) == Flatten(chunks) + last
  {
    FlattenAppend(chunks, [last]);
    assert Flatten([last]) == last;
  }

  /** A line without its end, "\n" or "\r\n". */
  function Chop(line: bytes): (r: bytes)
    ensures |r| <= |line|
  {
    if line == [] || line[|line| - 1] != LF then line
    else if |line| > 1 && line[|line| - 2] == CR then line[..|line| - 2]
    else line[..|line| - 1]
  }

  /** What ReadLine returns, and how many bytes of the stream it uses up. */
  datatype LineResult = LineResult(line: bytes, isPrefix: bool, err: Option<Error>, used: nat)

  function LineOf(s: bytes, size: nat): (f: LineResult)
    ensures f.used <= |s| && |f.line| <= f.used
  {
    var c := SliceCut(s, size, LF);
    if c.err == Some(BufferFull) then
      var used := if c.n > 0 && s[c.n - 1] == CR then c.n - 1 else c.n;
      LineResult(s[..used], true, None, used)
    else if c.n == 0 then LineResult([], false, c.err, 0)
    else LineResult(Chop(s[..c.n]), false, None, c.n)
  }

  /** The first line of s and what follows, whatever the size of a buffer. */
  function SplitLine(s: bytes): (bytes, bytes) {
    var n := BytesCut(s, LF).n;
    (Chop(s[..n]), s[n..])
  }

  predicate EndsInCR(line: bytes) {
    line != [] && line[|line| - 1] == CR
  }

  /** line is the first line of s, ended by "\r\n", by "\n" alone, or by the end of the stream, and rest follows it. */
  predicate IsLine(s: bytes, line: bytes, rest: bytes) {
    && LF !in line
    && (s == line + [CR, LF] + rest || (s == line + [LF] + rest && !EndsInCR(line)) || (s == line && rest == []))
  }

  /** The bytes of a line with its end. */
  lemma {:induction false} ChopMeans(p: bytes, rest: bytes)
    requires p != [] && LF !in p[..|p| - 1]
    requires p[|p| - 1] != LF ==> rest == []
    ensures IsLine(p + rest, Chop(p), rest)
  {
    var n := |p|;
    if p[n - 1] != LF {
      assert p + rest == p;
    } else if n > 1 && p[n - 2] == CR {
      assert p == p[..n - 2] + [CR, LF];
      assert p[..n - 2] == p[..n - 1][..n - 2];
    } else {
      assert p == p[..n - 1] + [LF];
    }
  }

  /** The first line of a stream is what SplitLine finds. */
  lemma {:induction false} SplitLineMeans(s: bytes)
    ensures IsLine(s, SplitLine(s).0, SplitLine(s).1)
  {
    var n := BytesCut(s, LF).n;
    BytesMeans(s, LF);
    TakeDrop(s, n);
    if s != [] {
      ChopMeans(s[..n], s[n..]);
    }
  }

  lemma {:induction false} IndexOfBefore(p: bytes, c: byte, t: bytes)
    requires c !in p
    ensures IndexOf(p + [c] + t, c) == |p|
  {
    IndexOfConcat(p, [c], c);
    IndexOfConcat(p + [c], t, c);
  }

  /** And nothing else is: a stream has one first line. */
  lemma {:induction false} OneLine(s: bytes, line: bytes, rest: bytes)
    requires IsLine(s, line, rest)
    ensures SplitLine(s) == (line, rest)
  {
    if s == line + [CR, LF] + rest {
      assert s == (line + [CR]) + [LF] + rest;
      IndexOfBefore(line + [CR], LF, rest);
      assert s[..|line| + 2] == line + [CR, LF] && s[|line| + 2..] == rest;
    } else if s == line + [LF] + rest {
      IndexOfBefore(line, LF, rest);
      assert s[..|line| + 1] == line + [LF] && s[|line| + 1..] == rest;
    } else {
      assert s[..|s|] == s && s[|s|..] == [] && IndexOf(s, LF) < 0;
      assert s != [] ==> s[|s| - 1] in line;
    }
  }

  lemma {:induction false} ChopSkip(g: bytes, line: bytes)
    requires g != [] && g[|g| - 1] == CR ==> line != [] && line[0] != LF
    requires g != [] ==> g[|g| - 1] != LF
    ensures Chop(g + line) == g + Chop(line)
  {
    if line != [] {
      assert (g + line)[|g + line| - 1] == line[|line| - 1];
    }
    if |line| > 1 {
      assert (g + line)[|g + line| - 2] == line[|line| - 2];
    }
  }

  /**
   * What ReadLine may return on the stream s: a line whose end fits the buffer; a prefix that fills the buffer, but
   * for a CR that may belong to the end of the line; or EOF on the empty stream.
   */
  predicate ReadsLine(s: bytes, size: nat, line: bytes, isPrefix: bool, e: Option<Error>, rest: bytes) {
    if e.Some? then e == Some(EOF) && s == line == rest == [] && !isPrefix
    else if isPrefix then
      && s == line + rest && LF !in line
      && if |line| == size then !EndsInCR(line) else |line| + 1 == size && rest != [] && rest[0] == CR
    else FirstLine(s, size, line, rest)
  }

  /** line is the first line of s, and with its end it fits a buffer of the given size. */
  predicate FirstLine(s: bytes, size: nat, line: bytes, rest: bytes) {
    s != [] && IsLine(s, line, rest) && |s| - |rest| <= size && (s == line ==> |line| < size)
  }

  /** Such a line is read in one piece. */
  lemma {:induction false} LineFits(s: bytes, size: nat, line: bytes, rest: bytes)
    requires FirstLine(s, size, line, rest)
    ensures LineOf(s, size) == LineResult(line, false, None, |s| - |rest|) && s[|s| - |rest|..] == rest
  {
    OneLine(s, line, rest);
    BytesMeans(s, LF);
    assert LF in s ==> BytesCut(s, LF).err.None?;
    assert |s[BytesCut(s, LF).n..]| == |rest|;
  }

  /** What ReadLine makes of the slice p. */
  lemma {:induction false} LineFrom(s: bytes, size: nat, p: bytes, rest: bytes, e: Option<Error>)
    requires p + rest == s && SliceCut(s, size, LF) == Cut(|p|, e)
    ensures s[|p|..] == rest && s[0..] == s
    ensures EndsInCR(p) ==> s[|p| - 1..] == [CR] + rest
    ensures LineOf(s, size) ==
            if e == Some(BufferFull) then
              if EndsInCR(p) then LineResult(p[..|p| - 1], true, None, |p| - 1) else LineResult(p, true, None, |p|)
            else if p == [] then LineResult([], false, e, 0)
            else LineResult(Chop(p), false, None, |p|)
  {
    assert s[..|p|] == p;
    if EndsInCR(p) {
      assert s[..|p| - 1] == p[..|p| - 1];
    }
  }

  lemma {:induction false} LineMeans(s: bytes, size: nat)
    requires size > 0
    ensures var f := LineOf(s, size);
            ReadsLine(s, size, f.line, f.isPrefix, f.err, s[f.used..])
  {
    var c, f := SliceCut(s, size, LF), LineOf(s, size);
    SliceMeans(s, size, LF);
    TakeDrop(s, f.used);
    if f.isPrefix {
      assert s[..f.used] == s[..c.n][..f.used];
    } else if s != [] {
      ChopMeans(s[..c.n], s[c.n..]);
    }
  }

  /** Splitting s gives what splitting t gives, after the bytes before. */
  predicate Joined(s: bytes, before: bytes, t: bytes) {
    SplitLine(s).0 == before + SplitLine(t).0 && SplitLine(s).1 == SplitLine(t).1
  }

  lemma {:induction false} JoinedTrans(s: bytes, b: bytes, t: bytes, c: bytes, u: bytes)
    requires Joined(s, b, t) && Joined(t, c, u)
    ensures Joined(s, b + c, u)
  {
    ConcatAssoc(b, c, SplitLine(u).0);
  }

  lemma {:induction false} JoinedSelf(s: bytes)
    ensures Joined(s, [], s)
  {
    assert [] + SplitLine(s).0 == SplitLine(s).0;
  }

  lemma {:induction false} JoinedEnd(s: bytes, before: bytes, t: bytes, line: bytes, rest: bytes)
    requires Joined(s, before, t) && SplitLine(t) == (line, rest)
    ensures SplitLine(s) == (before + line, rest)
  {
  }

  /** Bytes that cannot belong to a line end can be split off a line. */
  lemma {:induction false} SplitLineSkip(g: bytes, t: bytes)
    requires IndexOf(g, LF) < 0 && g != []
    requires g[|g| - 1] == CR ==> t != [] && t[0] != LF
    ensures Joined(g + t, g, t)
  {
    var n := BytesCut(t, LF).n;
    BytesSkip(g, t, LF);
    SplitRight(g, t, n);
    IndexOfFirst(g, LF);
    ChopSkip(g, t[..n]);
  }

  /** A prefix fragment is not empty and what it leaves completes the same line. */
  lemma {:induction false} PrefixStep(s: bytes, size: nat)
    requires size >= 16 && LineOf(s, size).isPrefix
    ensures var f := LineOf(s, size); f.line != [] && f.err.None? && Joined(s, f.line, s[f.used..])
  {
    var used := LineOf(s, size).used;
    CutNoDelim(s, size, LF);
    TakeDrop(s[..size], used);
    assert s[..size][..used] == s[..used];
    IndexOfConcat(s[..used], s[..size][used..], LF);
    TakeDrop(s, used);
    SplitLineSkip(s[..used], s[used..]);
  }

  /**
   * ReadLine loses nothing at the edge of the buffer, also when "\r\n" straddles a full
   * buffer: joining fragments until isPrefix is false gives the line of the stream.
   */
  lemma {:induction false} JoinStep(s: bytes, size: nat)
    requires size >= 16
    ensures var f := LineOf(s, size);
            && (f.err.Some? ==> s == [] && f.line == [] && f.err == Some(EOF) && SplitLine(s) == ([], []))
            && (f.err.None? && !f.isPrefix ==> s != [] && SplitLine(s) == (f.line, s[f.used..]))
            && (f.isPrefix ==> f.line != [] && f.err.None? && f.used > 0 && Joined(s, f.line, s[f.used..]))
  {
    var f := LineOf(s, size);
    if f.isPrefix {
      PrefixStep(s, size);
    }
  }

  class Reader {
    const buf: array<byte>
    const rd: Source
    var r: nat
    var w: nat
    var err: Option<Error>

    constructor (rd: Source, size: nat)
      ensures Valid() && fresh(buf) && this.rd == rd && buf.Length == if size < 16 then 16 else size
      ensures err.None? && Pending() == rd.Unread()
    {
      var n := if size < 16 then 16 else size;
      buf := new byte[n](_ => 0);
      this.rd := rd;
      r, w, err := 0, 0, None;
    }

    ghost predicate Valid()
      reads this, rd
    {
      && r <= w <= buf.Length
      && buf.Length >= 16
      && (err.Some? ==> w - r < buf.Length)
      && (err.Some? && err != Some(NoProgress) ==> err == Some(EOF) && rd.chunks == [])
    }

    /** Everything still to be delivered. */
    ghost function Pending(): bytes
      requires Valid()
      reads this, buf, rd
    {
      buf[r..w] + rd.Unread()
    }

    /** The stream never stalls long enough for NoProgress. */
    ghost predicate Steady()
      reads this, rd
    {
      err != Some(NoProgress) && SteadyChunks(rd.chunks)
    }

    /** Bounds the reads that can still succeed. */
    ghost function Effort(): nat
      requires Valid()
      reads this, buf, rd
    {
      |Pending()| + |rd.chunks|
    }

    function Buffered(): (n: nat)
      requires Valid()
      reads this, rd
    {
      w - r
    }

    method Slide()
      requires Valid()
      modifies this`r, this`w, buf
      ensures Valid() && r == 0 && buf[..w] == old(buf[r..w])
    {
      if r > 0 {
        forall i | 0 <= i < w - r {
          buf[i] := buf[r + i];
        }
        w := w - r;
        r := 0;
      }
    }

    method Append(p: bytes)
      requires Valid() && |p| <= buf.Length - w && err.None?
      modifies this`w, buf
      ensures Valid() && w == old(w) + |p|
      ensures buf[r..w] == old(buf[r..w]) + p
    {
      forall i | 0 <= i < |p| {
        buf[w + i] := p[i];
      }
      w := w + |p|;
      assert buf[r..w] == buf[r..old(w)] + buf[old(w)..w];
    }

    method fill()
      requires Valid() && err.None?
      requires Buffered() < buf.Length
      modifies this, buf, rd
      ensures Valid() && Pending() == old(Pending())
      ensures r == 0 && old(buf[r..w]) <= buf[..w]
      ensures if err.None? then w > old(w - r) else w == old(w - r)
      ensures |rd.chunks| <= old(|rd.chunks|)
      ensures old(Steady()) ==> Steady()
    {
      Slide();
      ghost var held := buf[..w];
      var i := MAX_EMPTY_READS;
      while i > 0
        invariant Valid() && err.None? && r == 0 && w < buf.Length
        invariant Pending() == old(Pending()) && buf[..w] == held
        invariant 0 <= i <= MAX_EMPTY_READS
        invariant |rd.chunks| <= old(|rd.chunks|)
        invariant SteadyChunks(old(rd.chunks)) ==> SteadyChunks(rd.chunks)
        invariant LeadingEmpty(rd.chunks) + MAX_EMPTY_READS - i == LeadingEmpty(old(rd.chunks))
      {
        label L:
        var p, e := rd.Read(buf.Length - w);
        Append(p);
        assert buf[..w] == held + p;
        assert Pending() == held + (p + rd.Unread());
        if e.Some? {
          err := e;
          return;
        }
        if |p| > 0 {
          return;
        }
        assert held + p == held;
        i := i - 1;
      }
      err := Some(NoProgress);
    }

    method readErr() returns (e: Option<Error>)
      requires Valid()
      modifies this`err
      ensures Valid() && e == old(err) && err.None?
    {
      e := err;
      err := None;
    }

    /** Hands out the next n buffered bytes. */
    method Deliver(n: nat) returns (p: bytes)
      requires Valid() && n <= Buffered()
      modifies this`r
      ensures Valid() && r == old(r) + n
      ensures p == old(buf[r..w])[..n] && buf[r..w] == old(buf[r..w])[n..]
      ensures p + Pending() == old(Pending())
    {
      ghost var window := buf[r..w];
      p := buf[r..w][..n];
      assert buf[r + n..w] == window[n..];
      TakeDrop(window, n);
      ConcatAssoc(p, window[n..], rd.Unread());
      r := r + n;
    }

    method DeliverAll() returns (p: bytes)
      requires Valid()
      modifies this`r
      ensures Valid() && r == w && p == buf[old(r)..w]
      ensures Pending() == rd.Unread() && p + Pending() == old(Pending())
      ensures |p| == buf.Length ==> p == buf[..]
    {
      ghost var window := buf[r..w];
      p := Deliver(w - r);
      assert p == window && buf[r..w] == [];
      assert [] + rd.Unread() == rd.Unread();
    }

    method DeliverLine(i: nat, delim: byte) returns (p: bytes)
      requires Valid() && i == IndexOf(buf[r..w], delim)
      modifies this`r
      ensures Valid() && p + Pending() == old(Pending())
      ensures SliceCut(old(Pending()), buf.Length, delim) == Cut(|p|, None)
    {
      WindowCut(buf[r..w], rd.Unread(), buf.Length, delim);
      p := Deliver(i + 1);
    }

    /** A large read with an empty buffer bypasses the buffer. */
    method ReadDirect(max: nat) returns (p: bytes, e: Option<Error>)
      requires Valid() && r == w && err.None? && max > 0
      modifies this`err, rd
      ensures Valid() && |p| <= max && err.None?
      ensures p + Pending() == old(Pending())
      ensures e.Some? ==> e == Some(EOF) && p == [] && Pending() == []
      ensures e.None? ==> Effort() < old(Effort())
      ensures Effort() <= old(Effort())
      ensures old(Steady()) ==> Steady()
    {
      p, err := rd.Read(max);
      e := readErr();
    }

    method Peek(n: int) returns (p: bytes, e: Option<Error>)
      requires Valid()
      modifies this, buf, rd
      ensures Valid() && Pending() == old(Pending())
      ensures n < 0 ==> p == [] && e == Some(NegativeCount)
      ensures n > buf.Length ==> p == [] && e == Some(BufferFull)
      ensures 0 <= n <= buf.Length ==> p <= Pending() && |p| <= n && (e.None? <==> |p| == n)
      ensures 0 <= n <= buf.Length && e.Some? && old(Steady()) ==> e == Some(EOF) && p == Pending()
      ensures old(Steady()) ==> Steady()
    {
      if n < 0 {
        return [], Some(NegativeCount);
      }
      if n > buf.Length {
        return [], Some(BufferFull);
      }
      while w - r < n && err.None?
        invariant Valid() && Pending() == old(Pending())
        invariant old(Steady()) ==> Steady()
        decreases err.None?, n - (w - r)
      {
        fill();
      }
      var m := w - r;
      if m > n {
        m := n;
      }
      p := buf[r..r + m];
      assert p == buf[r..w][..m];
      SplitLeft(buf[r..w], rd.Unread(), m);
      assert p == Pending()[..m];
      if m < n {
        e := readErr();
        if e.None? {
          e := Some(BufferFull);
        }
      } else {
        e := None;
      }
    }

    /** The caller's slice is given by its length max and the bytes it receives. */
    method Read(max: nat) returns (p: bytes, e: Option<Error>)
      requires Valid()
      modifies this, buf, rd
      ensures Valid() && |p| <= max
      ensures p + Pending() == old(Pending())
      ensures e.Some? ==> p == []
      ensures e == Some(EOF) && max > 0 ==> Pending() == []
      ensures max > 0 && e.None? ==> Effort() < old(Effort())
      ensures Effort() <= old(Effort())
      ensures old(err).None? ==> err.None? && (max == 0 ==> e.None?)
      ensures old(Steady()) ==> Steady() && (e.None? || e == Some(EOF))
    {
      if max == 0 {
        e := readErr();
        return [], e;
      }
      if r == w {
        if err.Some? {
          e := readErr();
          return [], e;
        }
        if max >= buf.Length {
          p, e := ReadDirect(max);
          return;
        }
        fill();
        if w == r {
          e := readErr();
          return [], e;
        }
      }
      var n := max;
      if n > w - r {
        n := w - r;
      }
      p := Deliver(n);
      e := None;
    }

    method ReadByte() returns (c: byte, e: Option<Error>)
      requires Valid()
      modifies this, buf, rd
      ensures Valid()
      ensures e.None? ==> [c] + Pending() == old(Pending())
      ensures e.Some? ==> Pending() == old(Pending())
      ensures e == Some(EOF) ==> Pending() == []
      ensures old(Steady()) ==> Steady() && (e.None? || e == Some(EOF))
    {
      while r == w
        invariant Valid() && Pending() == old(Pending())
        invariant old(Steady()) ==> Steady()
        decreases r == w, err.None?
      {
        if err.Some? {
          e := readErr();
          return 0, e;
        }
        fill();
      }
      c := buf[r];
      ghost var p := Deliver(1);
      e := None;
    }

    method ReadSlice(delim: byte) returns (line: bytes, e: Option<Error>)
      requires Valid()
      modifies this, buf, rd
      ensures Valid() && line + Pending() == old(Pending())
      ensures e != Some(NoProgress) ==> SliceCut(old(Pending()), buf.Length, delim) == Cut(|line|, e)
      ensures e == Some(BufferFull) ==> r == w == buf.Length && line == buf[..] && err.None?
      ensures e == Some(NoProgress) ==> IndexOf(line, delim) < 0 && !old(Steady())
      ensures |rd.chunks| <= old(|rd.chunks|)
      ensures old(Steady()) ==> Steady()
    {
      while true
        invariant Valid() && Pending() == old(Pending())
        invariant |rd.chunks| <= old(|rd.chunks|)
        invariant old(Steady()) ==> Steady()
        decreases err.None?, buf.Length - (w - r)
      {
        var i := IndexOf(buf[r..w], delim);
        if i >= 0 {
          line := DeliverLine(i, delim);
          return line, None;
        }
        if err.Some? {
          WindowCut(buf[r..w], rd.Unread(), buf.Length, delim);
          line := DeliverAll();
          e := readErr();
          return;
        }
        if Buffered() >= buf.Length {
          WindowCut(buf[r..w], rd.Unread(), buf.Length, delim);
          line := DeliverAll();
          return line, Some(BufferFull);
        }
        fill();
      }
    }

    method ReadBytes(delim: byte) returns (line: bytes, e: Option<Error>)
      requires Valid()
      modifies this, buf, rd
      ensures Valid() && line + Pending() == old(Pending())
      ensures e != Some(NoProgress) ==> BytesCut(old(Pending()), delim) == Cut(|line|, e)
      ensures e == Some(NoProgress) ==> IndexOf(line, delim) < 0 && !old(Steady())
      ensures old(Steady()) ==> Steady()
    {
      var full: seq<bytes> := [];
      var frag: bytes := [];
      ghost var s, before := Pending(), [];
      while true
        invariant Valid() && s == Pending() && before + s == old(Pending())
        invariant before == Flatten(full) && IndexOf(before, delim) < 0
        invariant old(Steady()) ==> Steady()
        decreases |s|
      {
        frag, e := ReadSlice(delim);
        BytesStep(before, s, buf.Length, delim, frag, e, Pending());
        if e != Some(BufferFull) {
          break;
        }
        FlattenSnoc(full, frag);
        full, s, before := full + [frag], Pending(), before + frag;
      }
      line := Flatten(full) + frag;
    }

    method ReadN(n: nat) returns (p: bytes, e: Option<Error>)
      requires Valid()
      modifies this, buf, rd
      ensures Valid() && p + Pending() == old(Pending())
      ensures e != Some(NoProgress) ==> TakeCut(old(Pending()), buf.Length, n) == Cut(|p|, e)
      ensures e == Some(NoProgress) ==> |p| < n && !old(Steady())
      ensures old(Steady()) ==> Steady()
    {
      while Buffered() < n
        invariant Valid() && Pending() == old(Pending())
        invariant old(Steady()) ==> Steady()
        decreases err.None?, buf.Length - (w - r)
      {
        if err.Some? {
          p := DeliverAll();
          e := readErr();
          return;
        }
        if Buffered() >= buf.Length {
          p := DeliverAll();
          return p, Some(BufferFull);
        }
        fill();
      }
      p := Deliver(n);
      return p, None;
    }

    method StepBack()
      requires Valid() && r > 0 && err.None?
      modifies this`r
      ensures Valid() && r == old(r) - 1 && Pending() == [buf[r]] + old(Pending())
    {
      r := r - 1;
      assert buf[r..w] == [buf[r]] + buf[r + 1..w];
    }

    method ReadLine() returns (line: bytes, isPrefix: bool, e: Option<Error>)
      requires Valid()
      modifies this, buf, rd
      ensures Valid() && |line| + |Pending()| <= |old(Pending())|
      ensures old(Steady()) ==> Steady()
      ensures old(Steady()) ==>
                var f := LineOf(old(Pending()), buf.Length);
                line == f.line && isPrefix == f.isPrefix && e == f.err && Pending() == old(Pending())[f.used..]
      ensures old(Steady()) ==> ReadsLine(old(Pending()), buf.Length, line, isPrefix, e, Pending())
    {
      hide ReadsLine, LineOf, SliceCut, Chop;
      ghost var s := Pending();
      LineMeans(s, buf.Length);
      line, e := ReadSlice(LF);
      if e != Some(NoProgress) {
        LineFrom(s, buf.Length, line, Pending(), e);
      }
      if e == Some(BufferFull) {
        if |line| > 0 && line[|line| - 1] == CR {
          StepBack();
          line := line[..|line| - 1];
        }
        return line, true, None;
      }
      if |line| == 0 {
        return line, false, e;
      }
      line, isPrefix, e := Chop(line), false, None;
    }

    /** A client that joins the fragments of one line. */
    method JoinLine() returns (line: bytes, end: bool)
      requires Valid() && Steady()
      modifies this, buf, rd
      ensures Valid() && Steady()
      ensures end ==> old(Pending()) == [] && line == []
      ensures !end ==> old(Pending()) != [] && (line, Pending()) == SplitLine(old(Pending()))
      ensures !end ==> IsLine(old(Pending()), line, Pending())
    {
      hide IsLine, ReadsLine, LineOf, SplitLine, Joined;
      line := [];
      ghost var s := Pending();
      SplitLineMeans(s);
      JoinedSelf(s);
      var started := false;
      while true
        invariant Valid() && Steady()
        invariant started ==> s != []
        invariant !started ==> s == Pending() && line == []
        invariant Joined(s, line, Pending())
        decreases |Pending()|
      {
        ghost var t := Pending();
        var frag, isPrefix, e := ReadLine();
        JoinStep(t, buf.Length);
        if e.Some? {
          JoinedEnd(s, line, t, [], Pending());
          assert line + [] == line;
          return line, !started;
        }
        if isPrefix {
          JoinedTrans(s, line, t, frag, Pending());
        } else {
          JoinedEnd(s, line, t, frag, Pending());
        }
        line, started := line + frag, true;
        if !isPrefix {
          return line, false;
        }
      }
    }
  }
}
