/** The buffered writer of bufio.v1, bufio.go. */
module BufWriter {
  import opened Bytes

  datatype WriteError = SinkError | ShortWrite

  /** What one Write of the sink does: how much it takes at most, and whether it reports an error. */
  datatype Outcome = Outcome(n: nat, fails: bool)

  /** The underlying io.Writer: follows its script, which may write short or fail at any call, then accepts everything. */
  class Sink {
    var data: bytes
    var script: seq<Outcome>
    // Counts the writes that failed, and those that failed or were short.
    ghost var failures: nat
    ghost var troubles: nat

    constructor (script: seq<Outcome>)
      ensures data == [] && this.script == script
    {
      data, this.script, failures, troubles := [], script, 0, 0;
    }

    method Write(p: bytes) returns (n: nat, failed: bool)
      modifies this
      ensures n <= |p| && data == old(data) + p[..n]
      ensures old(script) == [] ==> n == |p| && !failed && script == []
      ensures old(script) != [] ==> |script| < |old(script)|
      ensures failures == old(failures) + if failed then 1 else 0
      ensures troubles == old(troubles) + if failed || n < |p| then 1 else 0
    {
      n, failed := |p|, false;
      if script != [] {
        n, failed := if script[0].n < |p| then script[0].n else |p|, script[0].fails;
        script := script[1..];
      }
      data := data + p[..n];
      if failed || n < |p| {
        troubles := troubles + 1;
      }
      failures := failures + if failed then 1 else 0;
    }
  }

  const DEFAULT_SIZE := 4096

  class Writer {
    const buf: array<byte>
    const wr: Sink
    var err: Option<WriteError>
    var n: nat

    constructor (wr: Sink, size: int)
      ensures Valid() && fresh(buf) && this.wr == wr && err.None? && Buffered() == []
      ensures buf.Length == if size <= 0 then DEFAULT_SIZE else size
    {
      var length := if size <= 0 then DEFAULT_SIZE else size;
      buf := new byte[length](_ => 0);
      this.wr, err, n := wr, None, 0;
    }

    ghost predicate Valid()
      reads this
    {
      n <= buf.Length && buf.Length > 0
    }

    ghost function Buffered(): bytes
      requires Valid()
      reads this, buf
    {
      buf[..n]
    }

    /** Everything accepted so far: what the sink has, and what waits in the buffer. */
    ghost function Accepted(): bytes
      requires Valid()
      reads this, buf, wr
    {
      wr.data + Buffered()
    }

    /** After an error nothing more reaches the sink, and the error stays; a new error is what the sink did. */
    twostate predicate Steadfast()
      requires old(Valid()) && Valid()
      reads this, buf, wr
    {
      && (old(err).Some? ==> err == old(err) && wr.data == old(wr.data) && Buffered() == old(Buffered()))
      && (old(err).None? && err.Some? ==> wr.troubles > old(wr.troubles))
      && wr.troubles >= old(wr.troubles) && wr.failures >= old(wr.failures)
      && (wr.failures > old(wr.failures) <==> old(err).None? && err == Some(SinkError))
    }

    function Available(): nat
      requires Valid()
      reads this
    {
      buf.Length - n
    }

    /** Moves the bytes the sink did not take to the front. */
    method dropFirst(k: nat)
      requires Valid() && k <= n
      modifies this`n, buf
      ensures Valid() && n == old(n) - k && Buffered() == old(Buffered())[k..]
    {
      forall i | 0 <= i < n - k {
        buf[i] := buf[k + i];
      }
      n := n - k;
    }

    method flush() returns (e: Option<WriteError>)
      requires Valid()
      modifies this`n, this`err, buf, wr
      ensures Valid() && Accepted() == old(Accepted()) && e == err && Steadfast()
      ensures err.None? ==> n == 0
      ensures |wr.script| <= |old(wr.script)|
      ensures old(n) > 0 && err.None? && |wr.script| == |old(wr.script)| ==> wr.script == []
    {
      if err.Some? || n == 0 {
        return err;
      }
      var b := buf[..n];
      var k, failed := wr.Write(b);
      ConcatAssoc(old(wr.data), b[..k], b[k..]);
      TakeDrop(b, k);
      if failed {
        err := Some(SinkError);
      } else if k < n {
        err := Some(ShortWrite);
      }
      dropFirst(k);
      return err;
    }

    method Flush() returns (e: Option<WriteError>)
      requires Valid()
      modifies this`n, this`err, buf, wr
      ensures Valid() && Accepted() == old(Accepted()) && e == err && Steadfast()
      ensures err.None? ==> wr.data == old(Accepted())
    {
      e := flush();
    }

    /** Copies as much of p into the buffer as fits. */
    method fillIn(p: bytes) returns (k: nat)
      requires Valid()
      modifies this`n, buf
      ensures Valid() && k == (if |p| < old(Available()) then |p| else old(Available())) && n == old(n) + k
      ensures Buffered() == old(Buffered()) + p[..k]
    {
      k := if |p| < Available() then |p| else Available();
      forall i | 0 <= i < k {
        buf[n + i] := p[i];
      }
      n := n + k;
    }

    /** A write larger than the buffer, with nothing buffered, goes straight to the sink. */
    method writeDirect(p: bytes) returns (k: nat)
      requires Valid() && n == 0 && err.None?
      modifies this`err, wr
      ensures Valid() && Steadfast() && k <= |p| && Accepted() == old(Accepted()) + p[..k]
      ensures |wr.script| <= |old(wr.script)|
      ensures |wr.script| == |old(wr.script)| ==> k == |p|
      ensures err != Some(ShortWrite)
    {
      var failed;
      k, failed := wr.Write(p);
      if failed {
        err := Some(SinkError);
      }
      assert Buffered() == [];
    }

    lemma {:induction false} AcceptedMore(before: bytes, p: bytes, nn: nat, k: nat)
      requires nn + k <= |p|
      ensures (before + p[..nn]) + p[nn..][..k] == before + p[..nn + k]
    {
      assert p[..nn] + p[nn..][..k] == p[..nn + k];
    }

    /** Puts what fits into the buffer. */
    method buffer(p: bytes) returns (k: nat)
      requires Valid()
      modifies this`n, buf
      ensures Valid() && k == (if |p| < old(Available()) then |p| else old(Available())) && n == old(n) + k
      ensures Accepted() == old(Accepted()) + p[..k]
    {
      ghost var b := Buffered();
      k := fillIn(p);
      ConcatAssoc(wr.data, b, p[..k]);
    }

    /** One turn of the loop of Write, which buffers unless a large p can go straight to the sink. */
    method writeSome(p: bytes, direct: bool) returns (k: nat)
      requires Valid() && err.None? && |p| > Available()
      modifies this`n, this`err, buf, wr
      ensures Valid() && Steadfast() && k <= |p| && Accepted() == old(Accepted()) + p[..k]
      ensures err.None? ==> |wr.script| <= |old(wr.script)|
      ensures err.None? && |wr.script| == |old(wr.script)| ==> k > 0 || n < old(n)
    {
      if n == 0 && direct {
        k := writeDirect(p);
      } else {
        k := buffer(p);
        var e := flush();
      }
    }

    /** Write and WriteString: how many bytes of p were accepted; all of them unless there is an error. */
    method writeAll(p: bytes, direct: bool) returns (nn: nat, e: Option<WriteError>)
      requires Valid()
      modifies this`n, this`err, buf, wr
      ensures Valid() && e == err && Steadfast()
      ensures nn <= |p| && Accepted() == old(Accepted()) + p[..nn]
      ensures |p| <= old(Available()) && old(err).None? ==> e.None? && wr.data == old(wr.data)
      ensures e.None? ==> nn == |p|
      ensures old(err).Some? ==> nn == 0
    {
      nn := 0;
      while |p| - nn > Available() && err.None?
        invariant Valid() && nn <= |p| && Accepted() == old(Accepted()) + p[..nn]
        invariant Steadfast() && (old(err).Some? ==> nn == 0)
        invariant |p| <= old(Available()) && old(err).None? ==> nn == 0 && n == old(n) && err.None? && wr.data == old(wr.data)
        decreases err.None?, |wr.script| + |p| - nn, n
      {
        var k := writeSome(p[nn..], direct);
        AcceptedMore(old(Accepted()), p, nn, k);
        nn := nn + k;
      }
      if err.Some? {
        return nn, err;
      }
      var k := buffer(p[nn..]);
      AcceptedMore(old(Accepted()), p, nn, k);
      nn := nn + k;
      return nn, None;
    }

    method Write(p: bytes) returns (nn: nat, e: Option<WriteError>)
      requires Valid()
      modifies this`n, this`err, buf, wr
      ensures Valid() && e == err && Steadfast()
      ensures nn <= |p| && Accepted() == old(Accepted()) + p[..nn]
      ensures |p| <= old(Available()) && old(err).None? ==> e.None? && wr.data == old(wr.data)
      ensures e.None? ==> nn == |p|
      ensures old(err).Some? ==> nn == 0
    {
      nn, e := writeAll(p, true);
    }

    method WriteString(s: bytes) returns (nn: nat, e: Option<WriteError>)
      requires Valid()
      modifies this`n, this`err, buf, wr
      ensures Valid() && e == err && Steadfast()
      ensures nn <= |s| && Accepted() == old(Accepted()) + s[..nn]
      ensures |s| <= old(Available()) && old(err).None? ==> e.None? && wr.data == old(wr.data)
      ensures e.None? ==> nn == |s|
      ensures old(err).Some? ==> nn == 0
    {
      nn, e := writeAll(s, false);
    }

    method WriteByte(c: byte) returns (e: Option<WriteError>)
      requires Valid()
      modifies this`n, this`err, buf, wr
      ensures Valid() && e == err && Steadfast()
      ensures Accepted() == old(Accepted()) + if e.None? then [c] else []
      ensures old(Available()) > 0 && old(err).None? ==> e.None? && wr.data == old(wr.data)
    {
      assert Accepted() + [] == Accepted();
      if err.Some? {
        return err;
      }
      if Available() <= 0 {
        e := flush();
        if e.Some? {
          assert Accepted() + [] == Accepted();
          return e;
        }
      }
      var k := buffer([c]);
      assert [c][..k] == [c];
      return None;
    }
  }
}
