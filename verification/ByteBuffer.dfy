/** The growable byte buffer of bufio.v1, buffer.go. */
module ByteBuffer {
  import opened Bytes

  datatype ReadOp = OpInvalid | OpRead

  datatype BufferError = EOF | NotARead

  const BOOTSTRAP := 64

  function Max(a: nat, b: nat): nat {
    if a < b then b else a
  }

  /** Up to the first delimiter, which is found, or everything. */
  function DelimCut(c: bytes, delim: byte): (r: (nat, bool))
    ensures r.0 <= |c|
  {
    var i := IndexOf(c, delim);
    if i >= 0 then (i + 1, true) else (|c|, false)
  }

  /** p ends with the first delimiter, or holds none and is all there was. */
  predicate UpTo(p: bytes, rest: bytes, delim: byte, found: bool) {
    if found then p != [] && p[|p| - 1] == delim && delim !in p[..|p| - 1] else delim !in p && rest == []
  }

  lemma {:induction false} DelimMeans(c: bytes, delim: byte, p: bytes, rest: bytes)
    requires p + rest == c && |p| == DelimCut(c, delim).0
    ensures UpTo(p, rest, delim, DelimCut(c, delim).1)
  {
    IndexOfFirst(c, delim);
    assert p == c[..|p|];
    if p != [] {
      assert p[..|p| - 1] == c[..|p| - 1];
    }
  }

  /** The bytes before the read position end the bytes that were read. */
  ghost predicate EndsWith(consumed: bytes, kept: bytes) {
    |kept| <= |consumed| && consumed[|consumed| - |kept|..] == kept
  }

  lemma {:induction false} EndsWithMore(consumed: bytes, kept: bytes, p: bytes)
    requires EndsWith(consumed, kept)
    ensures EndsWith(consumed + p, kept + p)
  {
  }

  lemma {:induction false} EndsWithLess(consumed: bytes, kept: bytes)
    requires EndsWith(consumed, kept) && kept != []
    ensures EndsWith(consumed[..|consumed| - 1], kept[..|kept| - 1])
    ensures consumed[|consumed| - 1] == kept[|kept| - 1]
  {
  }

  lemma {:induction false} ArrayCut(a: array<byte>, i: nat, n: nat, l: nat)
    requires i + n <= l <= a.Length
    ensures a[..i] + a[i..l][..n] == a[..i + n] && a[i..l][n..] == a[i + n..l] && a[i..l][..n] == a[i..i + n]
  {
  }

  class Buffer {
    // The slice is buf[..len] with the capacity of the array; isNil marks the nil slice.
    var buf: array<byte>
    var isNil: bool
    var len: nat
    var off: nat
    var lastRead: ReadOp
    // History: bytes read and not put back, bytes moved by grow, the largest need of grow, the first capacity.
    ghost var consumed: bytes
    ghost var moved: nat
    ghost var peak: nat
    ghost const initial: nat

    /** new(Buffer). */
    constructor ()
      ensures Valid() && fresh(buf) && Contents() == [] && consumed == [] && moved == 0 && initial == 0
    {
      buf, isNil, len, off, lastRead := new byte[0], true, 0, 0, OpInvalid;
      consumed, moved, peak, initial := [], 0, 0, 0;
    }

    /** NewBuffer of a slice of length len. */
    constructor NewBuffer(buf: array<byte>, len: nat)
      requires len <= buf.Length
      ensures Valid() && this.buf == buf && Contents() == buf[..len] && consumed == [] && moved == 0 && initial == buf.Length
    {
      this.buf, isNil, this.len, off, lastRead := buf, false, len, 0, OpInvalid;
      consumed, moved, peak, initial := [], 0, 0, buf.Length;
    }

    /**
     * moved + off <= |consumed| + capacity is the amortised cost of grow; the other bound says the buffer
     * never takes more than five times what was needed at once.
     */
    ghost predicate Valid()
      reads this, buf
    {
      && off <= len <= buf.Length
      && (isNil ==> buf.Length == 0)
      && EndsWith(consumed, buf[..off])
      && moved + off <= |consumed| + buf.Length
      && buf.Length <= Max(initial, Max(BOOTSTRAP, 5 * peak))
    }

    /** The unread bytes: the queue this buffer stands for. */
    ghost function Contents(): bytes
      requires off <= len <= buf.Length
      reads this, buf
    {
      buf[off..len]
    }

    /** The bytes that making room for n more moves: all unread ones when the array has no room behind them. */
    ghost function Cost(n: nat): nat
      requires off <= len <= buf.Length
      reads this
    {
      if len + n > buf.Length then len - off else 0
    }

    function Len(): nat
      requires off <= len
      reads this
    {
      len - off
    }

    /** Panics when n is negative or more than the unread bytes. */
    method Truncate(n: int) returns (panics: bool)
      requires Valid()
      modifies this`len, this`off, this`lastRead
      ensures Valid() && lastRead == OpInvalid
      ensures panics <==> n < 0 || n > |old(Contents())|
      ensures Contents() == if panics then old(Contents()) else old(Contents())[..n]
      ensures n == 0 ==> off == len == 0
      ensures off <= old(off) && len <= old(len)
    {
      lastRead := OpInvalid;
      if n < 0 || n > Len() {
        return true;
      }
      ArrayCut(buf, off, n, len);
      len := off + n;
      if n == 0 {
        // Reuses the space.
        off, len := 0, 0;
        assert EndsWith(consumed, buf[..off]);
      }
      return false;
    }

    /** Moves the unread bytes to the front of the array. */
    method slide()
      requires Valid() && Len() <= off
      modifies this`len, this`off, this`moved, buf
      ensures Valid() && off == 0 && Contents() == old(Contents()) && moved == old(moved) + |Contents()|
    {
      var m := Len();
      forall i | 0 <= i < m {
        buf[i] := buf[off + i];
      }
      moved := moved + m;
      off, len := 0, m;
      assert EndsWith(consumed, buf[..off]);
    }

    /** Moves the unread bytes to a new array, larger by at least their number. */
    method reallocate(size: nat)
      requires Valid() && size >= buf.Length + Len() && size <= Max(initial, Max(BOOTSTRAP, 5 * peak))
      modifies this`buf, this`isNil, this`len, this`off, this`moved
      ensures Valid() && fresh(buf) && buf.Length == size && !isNil && off == 0 && Contents() == old(Contents())
      ensures moved == old(moved) + |Contents()|
    {
      var m := Len();
      var bigger := new byte[size](_ => 0);
      forall i | 0 <= i < m {
        bigger[i] := buf[off + i];
      }
      assert bigger[..m] == Contents();
      moved := moved + m;
      buf, isNil, off, len := bigger, false, 0, m;
      assert EndsWith(consumed, buf[..off]);
    }

    /** The space for n more bytes: kept, from the 64 bytes inside a new Buffer, by sliding, or doubled. */
    method makeSpace(n: nat)
      requires Valid() && peak >= Len() + n
      modifies this`buf, this`isNil, this`len, this`off, this`moved, buf
      ensures Valid() && (buf == old(buf) || fresh(buf)) && len + n <= buf.Length
      ensures Contents() == old(Contents())
      ensures off == old(off) || off == 0
      ensures moved == old(moved) + old(Cost(n))
    {
      var m := Len();
      if len + n > buf.Length {
        if isNil && n <= BOOTSTRAP {
          reallocate(BOOTSTRAP);
        } else if m + n <= buf.Length / 2 {
          slide();
        } else {
          reallocate(2 * buf.Length + n);
        }
      }
    }

    /** Makes the slice n bytes longer, and returns where the new bytes begin. */
    method grow(n: nat) returns (w: nat)
      requires Valid()
      modifies this`buf, this`isNil, this`len, this`off, this`lastRead, this`moved, this`peak, buf
      ensures Valid() && (buf == old(buf) || fresh(buf))
      ensures off <= w && w + n == len && buf[off..w] == old(Contents())
      ensures peak == Max(old(peak), |old(Contents())| + n)
      ensures lastRead == old(lastRead) || lastRead == OpInvalid
      ensures moved == old(moved) + old(Cost(n)) && consumed == old(consumed)
    {
      // If the buffer is empty, recovers space.
      if Len() == 0 && off != 0 {
        var panics := Truncate(0);
      }
      peak := Max(peak, Len() + n);
      makeSpace(n);
      w := len;
      len := w + n;
    }

    /** Afterwards n more bytes fit without another allocation. */
    method Grow(n: int) returns (panics: bool)
      requires Valid()
      modifies this`buf, this`isNil, this`len, this`off, this`lastRead, this`moved, this`peak, buf
      ensures Valid() && (buf == old(buf) || fresh(buf))
      ensures panics <==> n < 0
      ensures Contents() == old(Contents()) && (!panics ==> len + n <= buf.Length)
      ensures !panics ==> peak == Max(old(peak), |Contents()| + n) && moved == old(moved) + old(Cost(n))
      ensures panics ==> peak == old(peak) && moved == old(moved)
    {
      if n < 0 {
        return true;
      }
      var w := grow(n);
      len := w;
      return false;
    }

    /** Copies p to the end of the slice. */
    method fillIn(w: nat, p: bytes)
      requires Valid() && off <= w && w + |p| == len
      modifies buf
      ensures Valid() && Contents() == old(buf[off..w]) + p
    {
      ghost var kept := buf[..off];
      forall i | 0 <= i < |p| {
        buf[w + i] := p[i];
      }
      assert buf[..off] == kept;
      assert buf[off..w] == old(buf[off..w]);
    }

    method Write(p: bytes) returns (n: nat)
      requires Valid()
      modifies this`buf, this`isNil, this`len, this`off, this`lastRead, this`moved, this`peak, buf
      ensures Valid() && (buf == old(buf) || fresh(buf))
      ensures n == |p| && Contents() == old(Contents()) + p && lastRead == OpInvalid
      ensures peak == Max(old(peak), |Contents()|) && moved == old(moved) + old(Cost(|p|))
    {
      lastRead := OpInvalid;
      var w := grow(|p|);
      fillIn(w, p);
      n := |p|;
    }

    method WriteByte(c: byte)
      requires Valid()
      modifies this`buf, this`isNil, this`len, this`off, this`lastRead, this`moved, this`peak, buf
      ensures Valid() && (buf == old(buf) || fresh(buf))
      ensures Contents() == old(Contents()) + [c] && lastRead == OpInvalid
      ensures peak == Max(old(peak), |Contents()|) && moved == old(moved) + old(Cost(1))
    {
      lastRead := OpInvalid;
      var w := grow(1);
      fillIn(w, [c]);
    }

    /** The next n unread bytes. */
    method take(n: nat) returns (p: bytes)
      requires Valid() && n <= Len()
      modifies this`off, this`consumed
      ensures Valid() && off == old(off) + n && |p| == n
      ensures p + Contents() == old(Contents()) && consumed == old(consumed) + p
    {
      p := buf[off..off + n];
      ArrayCut(buf, off, n, len);
      TakeDrop(Contents(), n);
      EndsWithMore(consumed, buf[..off], p);
      off := off + n;
      consumed := consumed + p;
    }

    /** The caller's slice has length max. */
    method Read(max: nat) returns (p: bytes, err: Option<BufferError>)
      requires Valid()
      modifies this`len, this`off, this`lastRead, this`consumed
      ensures Valid() && p + Contents() == old(Contents()) && consumed == old(consumed) + p
      ensures |p| == if max < |old(Contents())| then max else |old(Contents())|
      ensures err == if old(Contents()) == [] && max > 0 then Some(EOF) else None
      ensures lastRead == if p != [] then OpRead else OpInvalid
    {
      lastRead := OpInvalid;
      if off >= len {
        // Buffer is empty, recovers space.
        var panics := Truncate(0);
        assert consumed + [] == consumed;
        return [], if max == 0 then None else Some(EOF);
      }
      p := take(if max < Len() then max else Len());
      if |p| > 0 {
        lastRead := OpRead;
      }
      return p, None;
    }

    method Next(n: nat) returns (p: bytes)
      requires Valid()
      modifies this`off, this`lastRead, this`consumed
      ensures Valid() && p + Contents() == old(Contents()) && consumed == old(consumed) + p
      ensures |p| == if n < |old(Contents())| then n else |old(Contents())|
      ensures lastRead == if p != [] then OpRead else OpInvalid
    {
      lastRead := OpInvalid;
      var m := if n > Len() then Len() else n;
      p := take(m);
      if m > 0 {
        lastRead := OpRead;
      }
    }

    method ReadByte() returns (c: byte, err: Option<BufferError>)
      requires Valid()
      modifies this`len, this`off, this`lastRead, this`consumed
      ensures Valid()
      ensures if old(Contents()) == [] then err == Some(EOF) && Contents() == [] && consumed == old(consumed)
              else err.None? && [c] + Contents() == old(Contents()) && consumed == old(consumed) + [c]
      ensures lastRead == if err.None? then OpRead else OpInvalid
    {
      lastRead := OpInvalid;
      if off >= len {
        var panics := Truncate(0);
        return 0, Some(EOF);
      }
      var p := take(1);
      lastRead := OpRead;
      return p[0], None;
    }

    /** How much readSlice takes, and whether it found the delimiter. */
    method findDelim(delim: byte) returns (n: nat, found: bool)
      requires Valid()
      ensures n <= |Contents()| && n == DelimCut(Contents(), delim).0 && found == DelimCut(Contents(), delim).1
    {
      var i := IndexOf(buf[off..len], delim);
      if i < 0 {
        return len - off, false;
      }
      return i + 1, true;
    }

    /** Up to the first delim, or everything and EOF when there is none. */
    method ReadBytes(delim: byte) returns (line: bytes, err: Option<BufferError>)
      requires Valid()
      modifies this`off, this`lastRead, this`consumed
      ensures Valid() && line + Contents() == old(Contents()) && consumed == old(consumed) + line
      ensures |line| == DelimCut(old(Contents()), delim).0
      ensures err == if DelimCut(old(Contents()), delim).1 then None else Some(EOF)
      ensures UpTo(line, Contents(), delim, err.None?)
      ensures lastRead == OpRead
    {
      hide UpTo, DelimCut;
      ghost var before := Contents();
      var n, found := findDelim(delim);
      line := take(n);
      lastRead := OpRead;
      err := if found then None else Some(EOF);
      DelimMeans(before, delim, line, Contents());
    }

    /** Puts back the last byte that was read and is still held. */
    method UnreadByte() returns (err: Option<BufferError>)
      requires Valid()
      modifies this`off, this`lastRead, this`consumed
      ensures Valid() && lastRead == OpInvalid
      ensures err == if old(lastRead) == OpRead then None else Some(NotARead)
      ensures err.None? && old(off) > 0 ==>
                Contents() != [] && old(consumed) == consumed + [Contents()[0]] && Contents()[1..] == old(Contents())
      ensures err.Some? || old(off) == 0 ==> consumed == old(consumed) && Contents() == old(Contents())
    {
      if lastRead != OpRead {
        return Some(NotARead);
      }
      lastRead := OpInvalid;
      if off > 0 {
        EndsWithLess(consumed, buf[..off]);
        assert buf[..off][..off - 1] == buf[..off - 1];
        off := off - 1;
        consumed := consumed[..|consumed| - 1];
      }
      return None;
    }
  }
}
