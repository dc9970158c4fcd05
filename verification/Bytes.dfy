/** Bytes and little-endian words, as the packed C structures lay them out. */
module Bytes {

  type byte = x: int | 0 <= x < 256

  const U16 := 0x1_0000
  const U32 := 0x1_0000_0000
  const U64 := 0x1_0000_0000_0000_0000

  function Min(a: nat, b: nat): nat {
    if a < b then a else b
  }

  /** The number of n-byte units that hold `size` bytes, rounding up. */
  function CeilDiv(size: nat, n: nat): nat
    requires n > 0
  {
    (size + n - 1) / n
  }

  function Le16(b: seq<byte>, at: nat): nat
    requires at + 2 <= |b|
  {
    var low: int, high: int := b[at], b[at + 1];
    low + 0x100 * high
  }

  function Le32(b: seq<byte>, at: nat): nat
    requires at + 4 <= |b|
  {
    Le16(b, at) + 0x1_0000 * Le16(b, at + 2)
  }

  /** Low bytes come first. */
  lemma {:induction false} LittleEndian(b: seq<byte>, at: nat)
    requires at + 4 <= |b|
    ensures var x: seq<int> := b;
            && Le16(b, at) == x[at] + 0x100 * x[at + 1]
            && Le32(b, at) == x[at] + 0x100 * x[at + 1] + 0x1_0000 * x[at + 2] + 0x100_0000 * x[at + 3]
  {
  }

  function PutLe16(x: nat): (b: seq<byte>)
    requires x < U16
    ensures |b| == 2 && Le16(b, 0) == x
  {
    [x % 0x100, x / 0x100]
  }

  function PutLe32(x: nat): (b: seq<byte>)
    requires x < U32
    ensures |b| == 4 && Le32(b, 0) == x
  {
    PutLe16(x % U16) + PutLe16(x / U16)
  }

  /** `b` with the bytes from `at` on overwritten by `d`. */
  function Splice<T>(b: seq<T>, at: nat, d: seq<T>): (r: seq<T>)
    requires at + |d| <= |b|
    ensures |r| == |b|
  {
    b[..at] + d + b[at + |d|..]
  }

  lemma SplicedPart<T>(b: seq<T>, at: nat, d: seq<T>, n: nat)
    requires at + |d| <= |b| && n <= |d|
    ensures Splice(b, at, d)[..at] == b[..at] && Splice(b, at, d)[at..at + n] == d[..n]
  {
  }

  lemma SpliceTwice<T>(b: seq<T>, at: nat, x: seq<T>, y: seq<T>)
    requires at + |x| + |y| <= |b|
    ensures Splice(Splice(b, at, x), at + |x|, y) == Splice(b, at, x + y)
  {
    assert Splice(b, at, x)[..at + |x|] == b[..at] + x;
    assert Splice(b, at, x)[at + |x| + |y|..] == b[at + |x| + |y|..];
  }

  lemma SpliceNext<T>(b: seq<T>, at: nat, d: seq<T>, x: T)
    requires at + |d| < |b|
    ensures Splice(b, at, d)[at + |d| := x] == Splice(b, at, d + [x])
  {
  }

  lemma SpliceOutside<T>(b: seq<T>, at: nat, d: seq<T>, lo: nat, hi: nat)
    requires at + |d| <= |b| && lo <= hi <= |b| && (hi <= at || at + |d| <= lo)
    ensures Splice(b, at, d)[lo..hi] == b[lo..hi]
  {
  }

  lemma SpliceNone<T>(b: seq<T>, at: nat)
    requires at <= |b|
    ensures Splice(b, at, []) == b
  {
  }

  lemma SpliceFront<T>(b: seq<T>, at: nat, d: seq<T>, n: nat)
    requires |d| <= n && at + n <= |b|
    ensures Splice(b, at, d)[at..at + n] == d + b[at..at + n][|d|..]
  {
  }
}
