/** Bytes, chunks of bytes, and the bitwise operations the protocols use. */
module Bytes {
  datatype Option<+T> = None | Some(value: T)

  type byte = n: int | 0 <= n < 256
  type bytes = seq<byte>

  const CR: byte := 13
  const LF: byte := 10

  /** The stream that a list of chunks delivers. */
  function Flatten(chunks: seq<bytes>): bytes {
    if chunks == [] then [] else chunks[0] + Flatten(chunks[1..])
  }

  lemma {:induction false} FlattenAppend(xs: seq<bytes>, ys: seq<bytes>)
    ensures Flatten(xs + ys) == Flatten(xs) + Flatten(ys)
  {
    if xs == [] {
      assert xs + ys == ys;
    } else {
      assert (xs + ys)[1..] == xs[1..] + ys;
      FlattenAppend(xs[1..], ys);
      assert Flatten(xs) == xs[0] + Flatten(xs[1..]);
    }
  }

  lemma {:induction false} ConcatAssoc(a: bytes, b: bytes, c: bytes)
    ensures (a + b) + c == a + (b + c)
  {
  }

  lemma {:induction false} TakeDrop(s: bytes, k: nat)
    requires k <= |s|
    ensures s[..k] + s[k..] == s
  {
  }

  lemma {:induction false} SplitLeft(a: bytes, b: bytes, k: nat)
    requires k <= |a|
    ensures (a + b)[..k] == a[..k] && (a + b)[k..] == a[k..] + b
  {
  }

  lemma {:induction false} SplitRight(a: bytes, b: bytes, k: nat)
    requires k <= |b|
    ensures (a + b)[..|a| + k] == a + b[..k] && (a + b)[|a| + k..] == b[k..]
  {
  }

  /** Index of the first c in s at or after k, or -1. */
  function IndexFrom(s: bytes, c: byte, k: nat): (i: int)
    ensures i == -1 || (k <= i < |s| && s[i] == c)
    decreases |s| - k
  {
    if k >= |s| then -1
    else if s[k] == c then k
    else IndexFrom(s, c, k + 1)
  }

  function IndexOf(s: bytes, c: byte): (i: int)
    ensures i == -1 || (0 <= i < |s| && s[i] == c)
  {
    IndexFrom(s, c, 0)
  }

  lemma {:induction false} IndexFromFirst(s: bytes, c: byte, k: nat)
    ensures forall j :: k <= j < (if IndexFrom(s, c, k) >= 0 then IndexFrom(s, c, k) else |s|) ==> s[j] != c
    decreases |s| - k
  {
    if k < |s| && s[k] != c {
      IndexFromFirst(s, c, k + 1);
    }
  }

  /** IndexOf is the first occurrence, and -1 means there is none. */
  lemma {:induction false} IndexOfFirst(s: bytes, c: byte)
    ensures forall j :: 0 <= j < (if IndexOf(s, c) >= 0 then IndexOf(s, c) else |s|) ==> s[j] != c
  {
    IndexFromFirst(s, c, 0);
  }

  lemma {:induction false} IndexFromConcat(s: bytes, t: bytes, c: byte, k: nat)
    requires k <= |s|
    ensures IndexFrom(s, c, k) >= 0 ==> IndexFrom(s + t, c, k) == IndexFrom(s, c, k)
    ensures IndexFrom(s, c, k) < 0 ==> IndexFrom(s + t, c, k) == IndexFrom(s + t, c, |s|)
    decreases |s| - k
  {
    if k < |s| && s[k] != c {
      IndexFromConcat(s, t, c, k + 1);
    }
  }

  lemma {:induction false} IndexFromShift(s: bytes, t: bytes, c: byte, k: nat)
    requires k <= |t|
    ensures IndexFrom(s + t, c, |s| + k) == if IndexFrom(t, c, k) < 0 then -1 else |s| + IndexFrom(t, c, k)
    decreases |t| - k
  {
    if k < |t| && t[k] != c {
      IndexFromShift(s, t, c, k + 1);
    }
  }

  lemma {:induction false} IndexOfConcat(s: bytes, t: bytes, c: byte)
    ensures IndexOf(s + t, c) == if IndexOf(s, c) >= 0 then IndexOf(s, c)
                                 else if IndexOf(t, c) >= 0 then |s| + IndexOf(t, c)
                                 else -1
  {
    IndexFromConcat(s, t, c, 0);
    IndexFromShift(s, t, c, 0);
  }

  function Pow(base: nat, n: nat): nat {
    if n == 0 then 1 else base * Pow(base, n - 1)
  }

  /** Bitwise exclusive or of the lowest n bits. */
  function XorBits(a: nat, b: nat, n: nat): (r: nat)
    ensures r < Pow(2, n)
  {
    if n == 0 then 0
    else (if a % 2 == b % 2 then 0 else 1) + 2 * XorBits(a / 2, b / 2, n - 1)
  }

  lemma {:induction false} XorBitsTwice(a: nat, b: nat, n: nat)
    requires a < Pow(2, n)
    ensures XorBits(XorBits(a, b, n), b, n) == a
  {
    if n > 0 {
      var low, high := if a % 2 == b % 2 then 0 else 1, XorBits(a / 2, b / 2, n - 1);
      assert XorBits(a, b, n) == low + 2 * high;
      assert (low + 2 * high) / 2 == high && (low + 2 * high) % 2 == low;
      XorBitsTwice(a / 2, b / 2, n - 1);
    }
  }

  function Xor(a: byte, b: byte): byte {
    assert Pow(2, 8) == 256;
    XorBits(a, b, 8)
  }

  /** Bit i of an exclusive or is set where the two bits differ. */
  lemma {:induction false} XorBit(a: nat, b: nat, n: nat, i: nat)
    requires i < n
    ensures BitAt(XorBits(a, b, n), i) != (BitAt(a, i) == BitAt(b, i))
  {
    var low, high := if a % 2 == b % 2 then 0 else 1, XorBits(a / 2, b / 2, n - 1);
    assert (low + 2 * high) / 2 == high && (low + 2 * high) % 2 == low;
    if i > 0 {
      XorBit(a / 2, b / 2, n - 1, i - 1);
    }
  }

  predicate BitAt(a: nat, i: nat) {
    if i == 0 then a % 2 == 1 else BitAt(a / 2, i - 1)
  }

  lemma {:induction false} XorHalf(a: nat, b: nat, n: nat, x: nat, y: nat)
    requires a / 2 == x && b / 2 == y
    ensures XorBits(a, b, n + 1) == Differ(a, b) + 2 * XorBits(x, y, n)
  {
  }

  function Differ(a: nat, b: nat): nat {
    if a % 2 == b % 2 then 0 else 1
  }

  lemma {:induction false} XorDigits(a: byte, b: byte)
    ensures Xor(a, b) ==
            Differ(a, b) + 2 * Differ(a / 2, b / 2) + 4 * Differ(a / 4, b / 4) + 8 * Differ(a / 8, b / 8)
            + 16 * Differ(a / 16, b / 16) + 32 * Differ(a / 32, b / 32) + 64 * Differ(a / 64, b / 64)
            + 128 * Differ(a / 128, b / 128)
  {
    assert XorBits(a / 256, b / 256, 0) == 0;
    hide XorBits;
    XorHalf(a, b, 7, a / 2, b / 2);
    XorHalf(a / 2, b / 2, 6, a / 4, b / 4);
    XorHalf(a / 4, b / 4, 5, a / 8, b / 8);
    XorHalf(a / 8, b / 8, 4, a / 16, b / 16);
    XorHalf(a / 16, b / 16, 3, a / 32, b / 32);
    XorHalf(a / 32, b / 32, 2, a / 64, b / 64);
    XorHalf(a / 64, b / 64, 1, a / 128, b / 128);
    XorHalf(a / 128, b / 128, 0, a / 256, b / 256);
  }

  lemma {:induction false} XorTwice(a: byte, b: byte)
    ensures Xor(Xor(a, b), b) == a
  {
    assert Pow(2, 8) == 256;
    XorBitsTwice(a, b, 8);
  }

  /** The k lowest base-256 digits of n, most significant first. */
  function BigEndian(n: nat, k: nat): (s: bytes)
    ensures |s| == k
  {
    if k == 0 then [] else BigEndian(n / 256, k - 1) + [n % 256]
  }

  function FromBigEndian(s: bytes): (n: nat)
    ensures n < Pow(256, |s|)
  {
    if s == [] then 0 else 256 * FromBigEndian(s[..|s| - 1]) + s[|s| - 1]
  }

  lemma {:induction false} BigEndianInverse(s: bytes)
    ensures BigEndian(FromBigEndian(s), |s|) == s
  {
    if s != [] {
      BigEndianInverse(s[..|s| - 1]);
    }
  }

  lemma {:induction false} BigEndianRoundTrip(n: nat, k: nat)
    requires n < Pow(256, k)
    ensures FromBigEndian(BigEndian(n, k)) == n
  {
    if k > 0 {
      BigEndianRoundTrip(n / 256, k - 1);
      assert BigEndian(n, k)[..k - 1] == BigEndian(n / 256, k - 1);
    }
  }
}
