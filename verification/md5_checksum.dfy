/** The streaming MD5 of service/cpplib/checksum/md5checksum.cpp against the one-shot definition in
    sections 3.1 to 3.5 of RFC 1321. The block transformation is a parameter. */
module Md5Checksum {
  import opened Bytes

  const TWO64: int := 0x1_0000_0000_0000_0000

  datatype Words = Words(a: uint32, b: uint32, c: uint32, d: uint32)

  type Transform = (Words, seq<byte>) -> Words

  const INITIAL := Words(0x67452301, 0xefcdab89, 0x98badcfe, 0x10325476)
  const ZERO := Words(0, 0, 0, 0)

  /** The state after the complete blocks of `m`, from state `s`. */
  function Blocks(t: Transform, s: Words, m: seq<byte>): Words
    decreases |m|
  {
    if |m| < 64 then s else Blocks(t, t(s, m[..64]), m[64..])
  }

  /** The bytes behind the last complete block. */
  function Leftover(m: seq<byte>): (r: seq<byte>)
    ensures |r| == |m| % 64
  {
    m[|m| - |m| % 64..]
  }

  /** What four bytes weigh, the first one least. */
  function Weight32(s: seq<byte>): nat
    requires |s| == 4
  {
    s[0] as int + 256 * s[1] as int + 0x1_0000 * s[2] as int + 0x100_0000 * s[3] as int
  }

  /** Four bytes, least significant first. */
  function LittleEndian32(n: uint32): (s: seq<byte>)
    ensures |s| == 4 && Weight32(s) == n
  {
    Split32(n);
    [n % 256, n / 256 % 256, n / 0x1_0000 % 256, n / 0x100_0000]
  }

  lemma Split32(n: uint32)
    ensures n % 256 + 256 * (n / 256 % 256) + 0x1_0000 * (n / 0x1_0000 % 256) + 0x100_0000 * (n / 0x100_0000) == n
    ensures n / 0x100_0000 < 256
  {
    assert n / 256 / 256 == n / 0x1_0000;
    assert n / 0x1_0000 / 256 == n / 0x100_0000;
  }

  function LittleEndian64(n: int): (s: seq<byte>)
    requires 0 <= n < TWO64
    ensures |s| == 8 && Weight32(s[..4]) + TWO32 * Weight32(s[4..]) == n
  {
    LittleEndian32(n % TWO32) + LittleEndian32(n / TWO32)
  }

  /** Zero bytes between the 0x80 and the length: the fewest that end the message on a block. */
  function ZeroCount(n: nat): nat {
    (119 - n % 64) % 64
  }

  /** RFC 1321, sections 3.1 and 3.2: 0x80, zeros, and the length in bits modulo 2^64. */
  function Padded(m: seq<byte>): seq<byte> {
    m + [0x80] + Zeros(ZeroCount(|m|)) + LittleEndian64(8 * |m| % TWO64)
  }

  /** `z` zero bytes after 0x80 make room for the length at the end of a block. */
  predicate Fits(n: nat, z: nat) {
    (n + 1 + z + 8) % 64 == 0
  }

  lemma PaddingIsLeast(m: seq<byte>)
    ensures |Padded(m)| % 64 == 0
    ensures forall z: nat :: Fits(|m|, z) ==> z >= ZeroCount(|m|)
  {
    FirstFit(|m|);
    forall z: nat | Fits(|m|, z)
      ensures z >= ZeroCount(|m|)
    {
      NoEarlierFit(|m|, z);
    }
  }

  lemma FirstFit(n: nat)
    ensures Fits(n, ZeroCount(n))
  {
    var k := n / 64;
    assert n == 64 * k + n % 64;
    assert n + 9 + ZeroCount(n) == 64 * k + 64 || n + 9 + ZeroCount(n) == 64 * k + 128;
  }

  lemma NoEarlierFit(n: nat, z: nat)
    requires Fits(n, z)
    ensures z >= ZeroCount(n)
  {
    var k, r, end := n / 64, n % 64, (n + 9 + z) / 64;
    assert 64 * (end - k) == r + 9 + z;
  }

  /** RFC 1321, sections 3.4 and 3.5, from the words `s`. */
  function Digest(t: Transform, s: Words, m: seq<byte>): seq<byte> {
    Output(Blocks(t, s, Padded(m)))
  }

  function Output(w: Words): seq<byte> {
    LittleEndian32(w.a) + LittleEndian32(w.b) + LittleEndian32(w.c) + LittleEndian32(w.d)
  }

  /** RFC 1321, section 3.1 and 3.2, byte by byte: the message, one bit, zeros, and in the last eight bytes
      the number of bits, the least significant byte first. */
  lemma PaddedBytes(m: seq<byte>)
    ensures var p, n := Padded(m), |Padded(m)|;
            && n >= |m| + 9 && p[..|m|] == m && p[|m|] == 0x80
            && (forall k :: |m| < k < n - 8 ==> p[k] == 0)
            && Weight32(p[n - 8..n - 4]) + TWO32 * Weight32(p[n - 4..]) == 8 * |m| % TWO64
  {
    hide LittleEndian64, Weight32, ZeroCount;
    var length := LittleEndian64(8 * |m| % TWO64);
    var p := Padded(m);
    assert p[|p| - 8..] == length;
    assert p[|p| - 8..|p| - 4] == length[..4] && p[|p| - 4..] == length[4..];
  }

  /** RFC 1321, section 3.5: the four words in order, the least significant byte of each first. */
  lemma OutputWeighs(w: Words)
    ensures var s := Output(w);
            && |s| == 16 && Weight32(s[0..4]) == w.a && Weight32(s[4..8]) == w.b
            && Weight32(s[8..12]) == w.c && Weight32(s[12..16]) == w.d
  {
    hide LittleEndian32, Weight32;
    var s := Output(w);
    assert s[0..4] == LittleEndian32(w.a) && s[4..8] == LittleEndian32(w.b);
    assert s[8..12] == LittleEndian32(w.c) && s[12..16] == LittleEndian32(w.d);
  }

  /** RFC 1321, section 3.3: the initial words as their bytes. */
  lemma InitialBytes()
    ensures Output(INITIAL) == [0x01, 0x23, 0x45, 0x67, 0x89, 0xab, 0xcd, 0xef,
                                0xfe, 0xdc, 0xba, 0x98, 0x76, 0x54, 0x32, 0x10]
  {
    WordsAB();
    WordsCD();
    hide LittleEndian32;
  }

  lemma WordsAB()
    ensures LittleEndian32(INITIAL.a) == [0x01, 0x23, 0x45, 0x67]
    ensures LittleEndian32(INITIAL.b) == [0x89, 0xab, 0xcd, 0xef]
  {
  }

  lemma WordsCD()
    ensures LittleEndian32(INITIAL.c) == [0xfe, 0xdc, 0xba, 0x98]
    ensures LittleEndian32(INITIAL.d) == [0x76, 0x54, 0x32, 0x10]
  {
  }

  // ---- Blocks of a growing message ----

  lemma {:induction false} BlocksAppend(t: Transform, s: Words, a: seq<byte>, b: seq<byte>)
    requires |a| % 64 == 0
    ensures Blocks(t, s, a + b) == Blocks(t, Blocks(t, s, a), b)
    decreases |a|
  {
    if a == [] {
      assert a + b == b;
    } else {
      assert (a + b)[..64] == a[..64] && (a + b)[64..] == a[64..] + b;
      BlocksAppend(t, t(s, a[..64]), a[64..], b);
    }
  }

  /** A message of whole blocks grows by a block. */
  lemma OneBlock(t: Transform, s: Words, a: seq<byte>, block: seq<byte>)
    requires |a| % 64 == 0 && |block| == 64
    ensures Blocks(t, s, a + block) == t(Blocks(t, s, a), block)
  {
    BlocksAppend(t, s, a, block);
    assert block[..64] == block;
  }

  /** A message of whole blocks grows by less than a block. */
  lemma PartOfBlock(t: Transform, s: Words, a: seq<byte>, part: seq<byte>)
    requires |a| % 64 == 0 && |part| < 64
    ensures Blocks(t, s, a + part) == Blocks(t, s, a)
    ensures Leftover(a + part) == part
  {
    BlocksAppend(t, s, a, part);
    assert (|a| + |part|) % 64 == |part|;
  }

  lemma CutMessage(m: seq<byte>) returns (whole: seq<byte>, part: seq<byte>)
    ensures m == whole + part && part == Leftover(m) && |whole| % 64 == 0
  {
    whole, part := m[..|m| - |m| % 64], Leftover(m);
    assert |whole| == 64 * (|m| / 64);
  }

  // ---- The two-word bit counter ----

  /** The two words hold this many bits, modulo 2^64. */
  predicate CountsBits(c0: uint32, c1: uint32, bits: nat) {
    c0 + 0x1_0000_0000 * c1 == bits % 0x1_0000_0000_0000_0000
  }

  lemma WordsCount(c0: uint32, c1: uint32, bits: nat, q: int)
    requires bits == 0x1_0000_0000_0000_0000 * q + c0 + 0x1_0000_0000 * c1
    ensures CountsBits(c0, c1, bits)
  {
  }

  /** One addition to a word, with its wrap. */
  lemma Wraps(a: nat, b: nat) returns (w: int)
    ensures a + b == (a + b) % 0x1_0000_0000 + 0x1_0000_0000 * w
    ensures a < 0x1_0000_0000 && b < 0x1_0000_0000 ==> w == if (a + b) % 0x1_0000_0000 < b then 1 else 0
  {
    w := (a + b) / 0x1_0000_0000;
  }

  /** The carry of the two-word addition, with the wrap of both words: `bits` is added to the low
      word, the carry and then `high` to the high word. */
  lemma CounterAdds(n: nat, c0: uint32, c1: uint32, len: uint32, bits: uint32, d0: uint32, carried: uint32, d1: uint32)
    requires CountsBits(c0, c1, 8 * n)
    requires bits == 8 * len % 0x1_0000_0000 && d0 == (c0 + bits) % 0x1_0000_0000
    requires carried == if d0 < bits then (c1 + 1) % 0x1_0000_0000 else c1
    requires d1 == (carried + len / 0x2000_0000) % 0x1_0000_0000
    ensures CountsBits(d0, d1, 8 * (n + len))
  {
    hide CountsBits;
    var high := HighWord(len, bits);
    var q := Counted(n, c0, c1);
    var carry := Wraps(c0, bits);
    var w1 := Wraps(c1, carry);
    var w2 := Wraps(carried, high);
    WordsCount(d0, d1, 8 * (n + len), q + w1 + w2);
  }

  lemma HighWord(len: uint32, bits: uint32) returns (high: uint32)
    requires bits == 8 * len % 0x1_0000_0000
    ensures high == len / 0x2000_0000 && 8 * len == bits + 0x1_0000_0000 * high
  {
    high := len / 0x2000_0000;
  }

  /** What the two words count is less than the length by a multiple of 2^64. */
  lemma Counted(n: nat, c0: uint32, c1: uint32) returns (q: int)
    requires CountsBits(c0, c1, 8 * n)
    ensures 8 * n == 0x1_0000_0000_0000_0000 * q + c0 + 0x1_0000_0000 * c1
  {
    q := 8 * n / 0x1_0000_0000_0000_0000;
  }

  lemma MinusMultiple(n: nat, k: int)
    ensures (n - 64 * k) % 64 == n % 64
  {
  }

  lemma CounterIndex(n: nat, c0: uint32, c1: uint32)
    requires CountsBits(c0, c1, 8 * n)
    ensures c0 / 8 % 64 == n % 64
  {
    var q := Counted(n, c0, c1);
    var blocks := 0x80_0000_0000_0000 * q + 0x80_0000 * c1;
    assert c0 / 8 == n - 64 * blocks;
    MinusMultiple(n, blocks);
  }

  /** One step of the fold that MD5Update makes, for a message that ends inside a block. */
  lemma FillBlock(t: Transform, s: Words, m: seq<byte>, input: seq<byte>)
    requires |input| >= 64 - |m| % 64
    ensures var n := 64 - |m| % 64;
            && Blocks(t, s, m + input[..n]) == t(Blocks(t, s, m), Leftover(m) + input[..n])
            && |m + input[..n]| % 64 == 0
  {
    hide Blocks, Leftover;
    var whole, part := CutMessage(m);
    var n := 64 - |m| % 64;
    var block := part + input[..n];
    PartOfBlock(t, s, whole, part);
    OneBlock(t, s, whole, block);
    assert whole + block == m + input[..n];
    BlockAdds(|whole|);
  }

  // ---- The 32-bit loop counter of MD5Update ----

  /** With `buffered` bytes waiting, an input of this length can be hashed in one update: together they
      stay below 2^32. */
  predicate Countable(buffered: nat, len: int) {
    0 <= len && buffered + len < TWO32
  }

  /** The test and the step of the loop over blocks, as the 32-bit counter takes them. */
  predicate MoreBlocks(i: uint32, len: uint32) {
    (i + 63) % 0x1_0000_0000 < len
  }

  function NextBlock(i: uint32): uint32 {
    (i + 64) % 0x1_0000_0000
  }

  /** The loop has ended after at most `fuel` passes. */
  predicate EndsWithin(i: uint32, len: uint32, fuel: nat)
    decreases fuel
  {
    !MoreBlocks(i, len) || (fuel > 0 && EndsWithin(NextBlock(i), len, fuel - 1))
  }

  ghost predicate Ends(i: uint32, len: uint32) {
    exists fuel: nat :: EndsWithin(i, len, fuel)
  }

  /** An update ends: its input stays inside the block buffered, or its loop over blocks ends. */
  ghost predicate UpdateEnds(buffered: nat, len: uint32)
    requires buffered < 64
  {
    len < 64 - buffered || Ends(64 - buffered, len)
  }

  /** Where the loop counter can be: a whole number of blocks less what was buffered. */
  predicate OnBlock(i: uint32, buffered: nat) {
    (i + buffered) % 64 == 0
  }

  lemma NextOnBlock(i: uint32, buffered: nat)
    requires OnBlock(i, buffered)
    ensures OnBlock(NextBlock(i), buffered)
  {
    if i + 64 >= 0x1_0000_0000 {
      assert (i + 64 - 0x1_0000_0000 + buffered) % 64 == (i + buffered - 64 * 0x3FF_FFFF) % 64;
      MinusMultiple(i + buffered, 0x3FF_FFFF);
    } else {
      MinusMultiple(i + buffered + 64, 1);
    }
  }

  /** From 2^32 bytes on, the end of the input is never behind the counter. */
  lemma AlwaysMore(i: uint32, len: uint32, buffered: nat)
    requires OnBlock(i, buffered) && buffered < 64 && buffered + len >= 0x1_0000_0000
    ensures MoreBlocks(i, len)
  {
    var k := (i + buffered) / 64;
    assert i + buffered == 64 * k;
    assert k <= 0x400_0000;
  }

  lemma {:induction false} NeverEnds(i: uint32, len: uint32, buffered: nat, fuel: nat)
    requires OnBlock(i, buffered) && buffered < 64 && buffered + len >= 0x1_0000_0000
    ensures !EndsWithin(i, len, fuel)
    decreases fuel
  {
    hide MoreBlocks, NextBlock, OnBlock;
    AlwaysMore(i, len, buffered);
    NextOnBlock(i, buffered);
    if fuel > 0 {
      NeverEnds(NextBlock(i), len, buffered, fuel - 1);
    }
  }

  lemma {:induction false} EndsBelow(i: uint32, len: uint32, buffered: nat, fuel: nat)
    requires OnBlock(i, buffered) && buffered + len < 0x1_0000_0000 && i <= len && len - i <= 64 * fuel
    ensures EndsWithin(i, len, fuel)
    decreases fuel
  {
    NoWrap(i, len, buffered);
    NextOnBlock(i, buffered);
    hide OnBlock;
    if MoreBlocks(i, len) && fuel > 0 {
      EndsBelow(NextBlock(i), len, buffered, fuel - 1);
    }
  }

  /** Below 2^32 bytes the counter does not wrap while it is inside the input. */
  lemma NoWrap(i: uint32, len: uint32, buffered: nat)
    requires OnBlock(i, buffered) && buffered + len < 0x1_0000_0000 && i <= len
    ensures MoreBlocks(i, len) <==> i + 63 < len
    ensures MoreBlocks(i, len) ==> NextBlock(i) == i + 64 <= len
  {
    var k := (i + buffered) / 64;
    assert i + buffered == 64 * k;
    assert k < 0x400_0000;
  }

  /** An update ends if and only if the bytes buffered and those of the input are together fewer
      than 2^32. */
  lemma UpdateEndsIff(buffered: nat, len: uint32)
    requires buffered < 64
    ensures UpdateEnds(buffered, len) <==> Countable(buffered, len)
  {
    hide EndsWithin;
    var i: uint32 := 64 - buffered;
    assert OnBlock(i, buffered);
    if len < i {
    } else if Countable(buffered, len) {
      EndsBelow(i, len, buffered, len);
    } else {
      forall fuel: nat
        ensures !EndsWithin(i, len, fuel)
      {
        NeverEnds(i, len, buffered, fuel);
      }
    }
  }

  /** A write casts its size to 32 bits. It ends, and has then hashed all of its input, if and only if
      the bytes buffered and those written are together fewer than 2^32. */
  lemma WriteIsWholeIff(buffered: nat, size: nat)
    requires buffered < 64
    ensures UpdateEnds(buffered, size % 0x1_0000_0000) && size % 0x1_0000_0000 == size <==>
            buffered + size < 0x1_0000_0000
  {
    UpdateEndsIff(buffered, size % 0x1_0000_0000);
  }

  /** One buffered byte and a write of 2^32 - 1 bytes: the loop does not end. */
  lemma LongWriteNeverEnds()
    ensures !UpdateEnds(1, 0xFFFF_FFFF)
  {
    UpdateEndsIff(1, 0xFFFF_FFFF);
  }

  class Checksum {
    const transform: Transform
    var state: Words
    var count0: uint32
    var count1: uint32
    const buffer: array<byte>
    var digest: seq<byte>
    var hasFlush: bool

    // The words the current message started from, and the message so far.
    ghost var Base: Words
    ghost var Message: seq<byte>

    ghost predicate Valid()
      reads this, buffer
    {
      && buffer.Length == 64
      && state == Blocks(transform, Base, Message)
      && CountsBits(count0, count1, 8 * |Message|)
      && buffer[..|Message| % 64] == Leftover(Message)
    }

    constructor (transform: Transform)
      ensures Valid() && fresh(buffer) && this.transform == transform
      ensures Base == INITIAL && Message == [] && !hasFlush
    {
      this.transform := transform;
      buffer := new byte[64](_ => 0);
      digest := [];
      hasFlush := false;
      count0, count1, state := 0, 0, INITIAL;
      Base, Message := INITIAL, [];
    }

    method Reset()
      requires buffer.Length == 64
      modifies this
      ensures Valid() && Base == INITIAL && Message == [] && !hasFlush
    {
      hasFlush := false;
      count0, count1, state := 0, 0, INITIAL;
      Base, Message := INITIAL, [];
    }

    /** memcpy into the block buffer. */
    method Store(index: nat, input: seq<byte>)
      requires index + |input| <= buffer.Length
      modifies buffer
      ensures buffer[..] == Splice(old(buffer[..]), index, input)
    {
      forall k | 0 <= k < |input| {
        buffer[index + k] := input[k];
      }
    }

    method AddCount(len: uint32)
      requires CountsBits(count0, count1, 8 * |Message|)
      modifies this`count0, this`count1
      ensures CountsBits(count0, count1, 8 * (|Message| + len))
    {
      hide CountsBits;
      ghost var c0, c1 := count0, count1;
      var bits := 8 * len % 0x1_0000_0000;
      count0 := (count0 + bits) % 0x1_0000_0000;
      if count0 < bits {
        count1 := (count1 + 1) % 0x1_0000_0000;
      }
      ghost var carried := count1;
      count1 := (count1 + len / 0x2000_0000) % 0x1_0000_0000;
      CounterAdds(|Message|, c0, c1, len, bits, count0, carried, count1);
    }

    /** Completes the buffered block and transforms as many blocks as possible. */
    method TransformBlocks(index: nat, input: seq<byte>) returns (i: uint32)
      requires buffer.Length == 64 && index == |Message| % 64 && 64 - index <= |input| && Countable(index, |input|)
      requires state == Blocks(transform, Base, Message) && buffer[..index] == Leftover(Message)
      modifies this`state, buffer
      ensures i <= |input| < i + 64 && |Message + input[..i]| % 64 == 0
      ensures state == Blocks(transform, Base, Message + input[..i])
    {
      hide Blocks, Leftover, Splice, OnBlock, MoreBlocks, NextBlock;
      var partLen := 64 - index;
      FillBlock(transform, Base, Message, input);
      SpliceEnd(buffer[..], index, input[..partLen]);
      Store(index, input[..partLen]);
      state := transform(state, buffer[..]);
      i := partLen;
      assert OnBlock(i, index) by { FirstOnBlock(index); }
      NoWrap(i, |input|, index);
      while MoreBlocks(i, |input|)
        invariant partLen <= i <= |input| && OnBlock(i, index)
        invariant MoreBlocks(i, |input|) <==> i + 63 < |input|
        invariant |Message + input[..i]| % 64 == 0
        invariant state == Blocks(transform, Base, Message + input[..i])
        decreases |input| - i
      {
        NoWrap(i, |input|, index);
        NextOnBlock(i, index);
        OneBlock(transform, Base, Message + input[..i], input[i..i + 64]);
        assert Message + input[..i] + input[i..i + 64] == Message + input[..i + 64];
        BlockAdds(|Message + input[..i]|);
        state := transform(state, input[i..i + 64]);
        i := NextBlock(i);
        NoWrap(i, |input|, index);
      }
    }

    /** MD5Update: the checksum is then that of the message grown by `input`. UpdateEndsIff says that
        the loop of the source ends for no other inputs than these. */
    method Update(input: seq<byte>)
      requires Valid() && Countable(|Message| % 64, |input|)
      modifies this`state, this`count0, this`count1, this`Message, buffer
      ensures Valid() && Message == old(Message) + input
    {
      hide Blocks, Leftover, Splice, CountsBits;
      CounterIndex(|Message|, count0, count1);
      var index := count0 / 8 % 64;
      AddCount(|input|);
      var i: uint32 := 0;
      if |input| >= 64 - index {
        i := TransformBlocks(index, input);
        index := 0;
        WholeAndPart(transform, Base, Message, input, i);
      } else {
        StillPart(transform, Base, Message, input);
      }
      SpliceStart(buffer[..], index, input[i..]);
      Store(index, input[i..]);
      Message := Message + input;
    }

    /** MD5Final: pads, appends the length, stores the digest and clears the context. */
    method Final()
      requires Valid()
      modifies this`state, this`count0, this`count1, this`digest, this`Base, this`Message, buffer
      ensures Valid() && digest == Digest(transform, old(Base), old(Message))
      ensures Base == ZERO && Message == [] && buffer[..] == Zeros(64)
    {
      hide Blocks, Leftover, CountsBits;
      ghost var m := Message;
      CounterIndex(|m|, count0, count1);
      var bits := LittleEndian32(count0) + LittleEndian32(count1);
      CounterBytes(8 * |m|, count0, count1);
      var index := count0 / 8 % 64;
      var padLen := if index < 56 then 56 - index else 120 - index;
      PadLength(|m|);
      Update(([0x80] + Zeros(63))[..padLen]);
      Update(bits);
      assert Message == Padded(m) by {
        assert ([0x80] + Zeros(63))[..padLen] == [0x80] + Zeros(ZeroCount(|m|));
        assert m + ([0x80] + Zeros(ZeroCount(|m|))) == m + [0x80] + Zeros(ZeroCount(|m|));
      }
      digest := Output(state);
      forall k | 0 <= k < 64 {
        buffer[k] := 0;
      }
      count0, count1, state := 0, 0, ZERO;
      Base, Message := ZERO, [];
      NothingYet(transform, ZERO);
      assert buffer[..] == Zeros(64);
    }

    /** flush: the digest is computed once and then stays. */
    method Flush()
      requires Valid()
      modifies this`state, this`count0, this`count1, this`digest, this`hasFlush, this`Base, this`Message, buffer
      ensures Valid() && hasFlush
      ensures digest == if old(hasFlush) then old(digest) else Digest(transform, old(Base), old(Message))
      ensures old(hasFlush) ==> Message == old(Message) && Base == old(Base)
    {
      hide Blocks, Leftover, CountsBits, Digest;
      if hasFlush {
        return;
      }
      hasFlush := true;
      Final();
    }

    /** write: the size is cast to 32 bits. WriteIsWholeIff says when it ends and hashes all. */
    method Write(input: seq<byte>) returns (n: nat)
      requires Valid() && Countable(|Message| % 64, |input| % TWO32)
      modifies this`state, this`count0, this`count1, this`Message, buffer
      ensures Valid() && n == |input|
      ensures Message == old(Message) + input[..|input| % TWO32]
      ensures Message == old(Message) + input <==> old(|Message|) % 64 + |input| < TWO32
    {
      hide Blocks, Leftover, CountsBits;
      Update(input[..|input| % TWO32]);
      n := |input|;
      ShortOfAll(|input|);
      if |input| < TWO32 {
        assert input[..|input|] == input;
      } else {
        assert |Message| < |old(Message) + input|;
      }
    }

    method GetDigest() returns (d: seq<byte>)
      requires Valid()
      modifies this`state, this`count0, this`count1, this`digest, this`hasFlush, this`Base, this`Message, buffer
      ensures Valid() && hasFlush && d == digest
      ensures d == if old(hasFlush) then old(digest) else Digest(transform, old(Base), old(Message))
    {
      Flush();
      d := digest;
    }
  }

  lemma CounterBytes(bits: nat, c0: uint32, c1: uint32)
    requires CountsBits(c0, c1, bits)
    ensures LittleEndian64(bits % TWO64) == LittleEndian32(c0) + LittleEndian32(c1)
  {
    hide LittleEndian32;
    assert bits % TWO64 % TWO32 == c0 && bits % TWO64 / TWO32 == c1;
  }

  lemma PadLength(n: nat)
    ensures var index := n % 64;
            (if index < 56 then 56 - index else 120 - index) == ZeroCount(n) + 1
  {
  }

  lemma NothingYet(t: Transform, s: Words)
    ensures Blocks(t, s, []) == s && Leftover([]) == [] && CountsBits(0, 0, 0)
  {
  }

  /** However a message is cut into writes, the digest is that of the whole message. */
  method DigestOfChunks(transform: Transform, chunks: seq<seq<byte>>) returns (d: seq<byte>)
    requires forall k :: 0 <= k < |chunks| ==> Countable(|Flatten(chunks[..k])| % 64, |chunks[k]|)
    ensures d == Digest(transform, INITIAL, Flatten(chunks))
  {
    hide Blocks, Leftover, CountsBits, Digest;
    var sum := new Checksum(transform);
    for k := 0 to |chunks|
      invariant sum.Valid() && fresh(sum) && fresh(sum.buffer) && sum.transform == transform
      invariant sum.Base == INITIAL && !sum.hasFlush
      invariant sum.Message == Flatten(chunks[..k])
    {
      var _ := sum.Write(chunks[k]);
      assert chunks[..k + 1] == chunks[..k] + [chunks[k]];
      FlattenAppend(chunks[..k], chunks[k]);
    }
    assert chunks[..|chunks|] == chunks;
    d := sum.GetDigest();
  }

  lemma ShortOfAll(size: nat)
    ensures size % TWO32 == size <==> size < TWO32
  {
  }

  lemma FirstOnBlock(index: nat)
    requires index < 64
    ensures OnBlock(64 - index, index)
  {
  }

  lemma BlockAdds(n: nat)
    requires n % 64 == 0
    ensures (n + 64) % 64 == 0
  {
  }

  lemma WholeAndPart(t: Transform, s: Words, m: seq<byte>, input: seq<byte>, i: nat)
    requires i <= |input| < i + 64 && |m + input[..i]| % 64 == 0
    ensures Blocks(t, s, m + input) == Blocks(t, s, m + input[..i])
    ensures Leftover(m + input) == input[i..]
  {
    PartOfBlock(t, s, m + input[..i], input[i..]);
    assert m + input[..i] + input[i..] == m + input;
  }

  lemma StillPart(t: Transform, s: Words, m: seq<byte>, input: seq<byte>)
    requires |input| < 64 - |m| % 64
    ensures Blocks(t, s, m + input) == Blocks(t, s, m)
    ensures Leftover(m + input) == Leftover(m) + input
  {
    hide Blocks, Leftover;
    var whole, part := CutMessage(m);
    PartOfBlock(t, s, whole, part);
    PartOfBlock(t, s, whole, part + input);
    assert whole + (part + input) == m + input;
  }

  lemma SpliceEnd(s: seq<byte>, at: nat, t: seq<byte>)
    requires at + |t| == |s|
    ensures Splice(s, at, t) == s[..at] + t
  {
  }
}
