/** Bytes and the fixed-width integers of the C and C++ sources, as bounded integers.
    A shift is a multiplication or division by a power of two, a mask a remainder, and an `|` of
    two values that share no bit is their sum. */
module Bytes {
  type byte = b: int | 0 <= b < 256

  const TWO32: int := 0x1_0000_0000

  type uint32 = n: int | 0 <= n < TWO32

  /** Concatenation of a list of strings, in order. */
  function Flatten<T>(parts: seq<seq<T>>): seq<T> {
    if parts == [] then [] else parts[0] + Flatten(parts[1..])
  }

  lemma {:induction false} FlattenAppend<T>(parts: seq<seq<T>>, last: seq<T>)
    ensures Flatten(parts + [last]) == Flatten(parts) + last
  {
    if parts == [] {
      assert parts + [last] == [last];
    } else {
      assert (parts + [last])[1..] == parts[1..] + [last];
      FlattenAppend(parts[1..], last);
    }
  }

  lemma {:induction false} FlattenConcat<T>(a: seq<seq<T>>, b: seq<seq<T>>)
    ensures Flatten(a + b) == Flatten(a) + Flatten(b)
    decreases |a|
  {
    if a == [] {
      assert a + b == b;
    } else {
      assert (a + b)[1..] == a[1..] + b;
      FlattenConcat(a[1..], b);
    }
  }

  function Zeros(n: nat): (s: seq<byte>)
    ensures |s| == n
  {
    seq(n, _ => 0)
  }

  /** `pat` occurs in `text` at `at`. */
  predicate OccursAt(text: seq<byte>, pat: seq<byte>, at: nat) {
    at + |pat| <= |text| && text[at..at + |pat|] == pat
  }

  /** Four bytes, most significant first. */
  function BigEndian32(n: uint32): (s: seq<byte>)
    ensures |s| == 4
  {
    [n / 0x100_0000, n / 0x1_0000 % 256, n / 256 % 256, n % 256]
  }

  function FromBigEndian32(s: seq<byte>): uint32
    requires |s| == 4
  {
    s[0] as int * 0x100_0000 + s[1] as int * 0x1_0000 + s[2] as int * 256 + s[3] as int
  }

  lemma BigEndian32Weighs(n: uint32)
    ensures var s := BigEndian32(n); ((s[0] as int * 256 + s[1]) * 256 + s[2]) * 256 + s[3] == n
  {
    assert n / 256 / 256 == n / 0x1_0000 && n / 0x1_0000 / 256 == n / 0x100_0000;
  }

  lemma BigEndian32RoundTrip(n: uint32)
    ensures FromBigEndian32(BigEndian32(n)) == n
  {
    assert n / 256 / 256 == n / 0x1_0000;
    assert n / 0x1_0000 / 256 == n / 0x100_0000;
  }

  lemma FromBigEndian32RoundTrip(s: seq<byte>)
    requires |s| == 4
    ensures BigEndian32(FromBigEndian32(s)) == s
  {
    var n := FromBigEndian32(s);
    DivideBy256(n, (s[0] as int * 256 + s[1]) * 256 + s[2], s[3]);
    DivideBy256((s[0] as int * 256 + s[1]) * 256 + s[2], s[0] as int * 256 + s[1], s[2]);
    DivideBy256(s[0] as int * 256 + s[1], s[0], s[1]);
    assert n / 0x1_0000 == n / 256 / 256 && n / 0x100_0000 == n / 256 / 256 / 256;
  }

  lemma DivideBy256(n: int, q: int, r: int)
    requires n == 256 * q + r && 0 <= r < 256
    ensures n / 256 == q && n % 256 == r
  {
  }

  /** `s` with `t` written over it from position `at`. */
  function Splice<T>(s: seq<T>, at: nat, t: seq<T>): (r: seq<T>)
    requires at + |t| <= |s|
    ensures |r| == |s|
  {
    s[..at] + t + s[at + |t|..]
  }

  lemma SpliceNothing<T>(s: seq<T>, at: nat)
    requires at <= |s|
    ensures Splice(s, at, []) == s
  {
  }

  lemma SpliceStart<T>(s: seq<T>, at: nat, t: seq<T>)
    requires at + |t| <= |s|
    ensures Splice(s, at, t)[..at + |t|] == s[..at] + t
  {
  }

  lemma SpliceHolds<T>(s: seq<T>, at: nat, t: seq<T>)
    requires at + |t| <= |s|
    ensures Splice(s, at, t)[at..at + |t|] == t
  {
  }

  lemma SpliceOne<T>(s: seq<T>, at: nat, t: seq<T>, c: T)
    requires at + |t| < |s|
    ensures Splice(s, at, t)[at + |t| := c] == Splice(s, at, t + [c])
  {
  }

  lemma SpliceTwice<T>(s: seq<T>, at: nat, t: seq<T>, u: seq<T>)
    requires at + |t| + |u| <= |s|
    ensures Splice(Splice(s, at, t), at + |t|, u) == Splice(s, at, t + u)
  {
  }
}
