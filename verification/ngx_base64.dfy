/** The whole-buffer Base64 coder of service/faceside/src/ngx_base64.cpp (RFC 4648, section 4), and the
    wrappers of dwstring.cpp around it. */
module NgxBase64 {
  import opened Bytes
  import opened Base64Text

  const INVALID: int := 77

  /** The table of ngx_decode_base64. */
  function Basis(c: byte): (n: int)
    ensures n == INVALID <==> Value64(c) == 64
    ensures n != INVALID ==> n == Value64(c) && Char64(n) == c
  {
    if Value64(c) < 64 then Value64(c) else INVALID
  }

  datatype Decoded = Error | Ok(bytes: seq<byte>)

  /** The characters before the first '='. */
  function Significant(s: seq<byte>): (r: seq<byte>)
    ensures r <= s && |r| <= |s|
    ensures forall k :: 0 <= k < |r| ==> s[k] != PAD
    ensures |r| < |s| ==> s[|r|] == PAD
  {
    if s == [] || s[0] == PAD then [] else [s[0]] + Significant(s[1..])
  }

  predicate AllValid(s: seq<byte>) {
    forall k :: 0 <= k < |s| ==> Value64(s[k]) < 64
  }

  function Triple(a: byte, b: byte, c: byte, d: byte): (t: seq<byte>)
    ensures |t| == 3
  {
    [(Basis(a) * 4 + Basis(b) / 16) % 256, (Basis(b) * 16 + Basis(c) / 4) % 256, (Basis(c) * 64 + Basis(d)) % 256]
  }

  /** The bytes of alphabet characters: three for each four, one or two for a rest of two or three. */
  function Bits(s: seq<byte>): seq<byte> {
    if |s| < 2 then []
    else if |s| == 2 then [(Basis(s[0]) * 4 + Basis(s[1]) / 16) % 256]
    else if |s| == 3 then
      [(Basis(s[0]) * 4 + Basis(s[1]) / 16) % 256, (Basis(s[1]) * 16 + Basis(s[2]) / 4) % 256]
    else Triple(s[0], s[1], s[2], s[3]) + Bits(s[4..])
  }

  /** What decoding comes to, for every input. */
  function Decode(s: seq<byte>): Decoded {
    var t := Significant(s);
    if !AllValid(t) || |t| % 4 == 1 then Error else Ok(Bits(t))
  }

  // ---- Round trip ----

  lemma TripleOfQuartet(a: byte, b: byte, c: byte)
    ensures var q := Quartet(a, b, c); Triple(q[0], q[1], q[2], q[3]) == [a, b, c]
  {
    hide Char64, Value64;
    ValueOfChar(a / 4);
    ValueOfChar(a % 4 * 16 + b / 16);
    ValueOfChar(b % 16 * 4 + c / 64);
    ValueOfChar(c % 64);
    PiecesJoin(a, b, c);
  }

  lemma BitsOfOne(a: byte)
    ensures var s := Chars([a]); Bits(s) == [a] && AllValid(s) && |s| == 2
  {
    hide Char64, Value64;
    ValueOfChar(a / 4);
    ValueOfChar(a % 4 * 16);
    PiecesJoin(a, 0, 0);
  }

  lemma BitsOfTwo(a: byte, b: byte)
    ensures var s := Chars([a, b]); Bits(s) == [a, b] && AllValid(s) && |s| == 3
  {
    hide Char64, Value64;
    ValueOfChar(a / 4);
    ValueOfChar(a % 4 * 16 + b / 16);
    ValueOfChar(b % 16 * 4);
    PiecesJoin(a, b, 0);
  }

  lemma BitsOfFour(q: seq<byte>, s: seq<byte>)
    requires |q| == 4 && AllValid(q) && AllValid(s)
    ensures Bits(q + s) == Triple(q[0], q[1], q[2], q[3]) + Bits(s) && AllValid(q + s)
  {
    hide Triple, Value64;
    assert (q + s)[4..] == s;
  }

  lemma {:induction false} BitsOfChars(x: seq<byte>)
    ensures Bits(Chars(x)) == x && AllValid(Chars(x)) && |Chars(x)| % 4 != 1
    decreases |x|
  {
    hide Bits, Triple, Quartet, AllValid, Char64;
    if |x| >= 3 {
      var q, rest := Quartet(x[0], x[1], x[2]), Chars(x[3..]);
      BitsOfChars(x[3..]);
      TripleOfQuartet(x[0], x[1], x[2]);
      QuartetIsValid(x[0], x[1], x[2]);
      BitsOfFour(q, rest);
      assert [x[0], x[1], x[2]] + x[3..] == x;
      assert |q + rest| == 4 + |rest|;
    } else if |x| == 2 {
      assert x == [x[0], x[1]];
      BitsOfTwo(x[0], x[1]);
    } else if |x| == 1 {
      assert x == [x[0]];
      BitsOfOne(x[0]);
    } else {
      BitsOfNone();
    }
  }

  lemma BitsOfNone()
    ensures Bits([]) == [] && AllValid([])
  {
  }

  lemma QuartetIsValid(a: byte, b: byte, c: byte)
    ensures AllValid(Quartet(a, b, c))
  {
    hide Char64, Value64;
    ValueOfChar(a / 4);
    ValueOfChar(a % 4 * 16 + b / 16);
    ValueOfChar(b % 16 * 4 + c / 64);
    ValueOfChar(c % 64);
  }

  lemma {:induction false} SignificantOf(s: seq<byte>, pad: seq<byte>)
    requires forall k :: 0 <= k < |s| ==> s[k] != PAD
    requires pad == [] || pad[0] == PAD
    ensures Significant(s + pad) == s
    decreases |s|
  {
    if s == [] {
      assert s + pad == pad;
    } else {
      assert (s + pad)[1..] == s[1..] + pad;
      SignificantOf(s[1..], pad);
    }
  }

  /** Every byte string comes back from its encoded text, through both padded tails. */
  lemma RoundTrip(x: seq<byte>)
    ensures Decode(Encoded(x)) == Ok(x)
  {
    hide Chars, Bits;
    CharsAreNotEol(x);
    SignificantOf(Chars(x), Padding(|x|));
    BitsOfChars(x);
  }

  /** So it does without the pads. */
  lemma RoundTripWithoutPads(x: seq<byte>)
    ensures Decode(Chars(x)) == Ok(x)
  {
    hide Chars, Bits;
    CharsAreNotEol(x);
    SignificantOf(Chars(x), []);
    assert Chars(x) + [] == Chars(x);
    BitsOfChars(x);
  }

  lemma {:induction false} CharsCount(x: seq<byte>)
    ensures |Chars(x)| == |x| / 3 * 4 + if |x| % 3 == 0 then 0 else |x| % 3 + 1
    decreases |x|
  {
    hide Char64;
    if |x| >= 3 {
      CharsCount(x[3..]);
    }
  }

  /** A text is accepted if and only if what stands before the first pad is of the alphabet and as long as
      the text of some bytes. */
  lemma AcceptedIff(s: seq<byte>)
    ensures Decode(s).Ok? <==>
            AllValid(Significant(s)) && exists x: seq<byte> :: |Chars(x)| == |Significant(s)|
  {
    hide Chars, Bits, AllValid, Significant;
    var n := |Significant(s)|;
    if n % 4 != 1 {
      var x := Zeros(n / 4 * 3 + if n % 4 == 0 then 0 else n % 4 - 1);
      CharsCount(x);
      assert |Chars(x)| == n;
    }
    if x: seq<byte> :| |Chars(x)| == n {
      BitsOfChars(x);
    }
  }

  // ---- The routines ----

  /** The buffer of dw_encode_base64, twice the input, is large enough except for a single byte. */
  lemma DoubleIsEnoughUnlessOne(n: nat)
    ensures (n + 2) / 3 * 4 <= 2 * n <==> n != 1
  {
    var k := (n + 2) / 3;
    assert 3 * k <= n + 2;
  }

  /** ngx_encode_base64. */
  method NgxEncode(dst: array<byte>, src: seq<byte>) returns (dstLen: nat)
    requires dst.Length >= (|src| + 2) / 3 * 4
    modifies dst
    ensures dstLen == (|src| + 2) / 3 * 4 == |Encoded(src)|
    ensures dst[..] == Splice(old(dst[..]), 0, Encoded(src))
  {
    hide Chars, Char64, Quartet, Splice;
    EncodedLength(src);
    ghost var before := dst[..];
    var len, s, d := |src|, 0, 0;
    ghost var groups := 0;
    assert Chars(src[..0]) == [] by { CharsLength(src[..0], 0); }
    SpliceNothing(before, 0);
    while len > 2
      invariant len >= 0 && s == 3 * groups && d == 4 * groups && s + len == |src| && d <= dst.Length
      invariant |Chars(src[..s])| == d
      invariant dst[..] == Splice(before, 0, Chars(src[..s]))
    {
      GroupsFit(|src|, groups);
      CharsGrow(src, groups);
      SpliceTwice(before, 0, Chars(src[..s]), Quartet(src[s], src[s + 1], src[s + 2]));
      PutQuartet(dst, d, src[s], src[s + 1], src[s + 2]);
      d := d + 4;
      s := s + 3;
      len := len - 3;
      groups := groups + 1;
    }
    var tail := src[s..];
    TailText(src, groups);
    if len > 0 {
      GroupsFit(|src|, groups);
      SpliceTwice(before, 0, Chars(src[..s]), Encoded(tail));
      PutTail(dst, d, tail);
      d := d + 4;
    }
    dstLen := d;
  }

  lemma GroupsFit(n: nat, groups: nat)
    requires 3 * groups < n
    ensures 4 * groups + 4 <= (n + 2) / 3 * 4
    ensures n <= 3 * groups + 3 ==> 4 * groups + 4 == (n + 2) / 3 * 4
  {
  }

  /** The text is that of the whole groups and then that of the tail. */
  lemma TailText(src: seq<byte>, groups: nat)
    requires 3 * groups <= |src| <= 3 * groups + 2
    ensures var s := 3 * groups;
            && Encoded(src) == Chars(src[..s]) + Encoded(src[s..])
            && (s == |src| ==> Encoded(src) == Chars(src[..s]) && 4 * groups == (|src| + 2) / 3 * 4)
            && |Encoded(src[s..])| == if s == |src| then 0 else 4
  {
    hide Chars;
    var s := 3 * groups;
    CharsAppend(src[..s], src[s..]);
    assert src[..s] + src[s..] == src;
    assert |src| % 3 == |src[s..]|;
    EncodedLength(src[s..]);
  }

  method PutQuartet(dst: array<byte>, at: nat, a: byte, b: byte, c: byte)
    requires at + 4 <= dst.Length
    modifies dst
    ensures dst[..] == Splice(old(dst[..]), at, Quartet(a, b, c))
  {
    hide Char64;
    var d := at;
    dst[d] := Char64(a / 4 % 64);
    d := d + 1;
    dst[d] := Char64(a % 4 * 16 + b / 16);
    d := d + 1;
    dst[d] := Char64(b % 16 * 4 + c / 64);
    d := d + 1;
    dst[d] := Char64(c % 64);
  }

  /** The one or two bytes behind the last group, padded. */
  method PutTail(dst: array<byte>, at: nat, tail: seq<byte>)
    requires at + 4 <= dst.Length && 1 <= |tail| <= 2 && |Encoded(tail)| == 4
    modifies dst
    ensures dst[..] == Splice(old(dst[..]), at, Encoded(tail))
  {
    hide Char64;
    var d := at;
    dst[d] := Char64(tail[0] / 4 % 64);
    d := d + 1;
    if |tail| == 1 {
      dst[d] := Char64(tail[0] % 4 * 16);
      d := d + 1;
      dst[d] := PAD;
      d := d + 1;
    } else {
      dst[d] := Char64(tail[0] % 4 * 16 + tail[1] / 16);
      d := d + 1;
      dst[d] := Char64(tail[1] % 16 * 4);
      d := d + 1;
    }
    dst[d] := PAD;
  }

  /** dw_encode_base64: replaces the text by its encoding. */
  method DwEncode(text: seq<byte>) returns (r: seq<byte>)
    requires |text| != 1
    ensures r == Encoded(text)
  {
    if |text| < 1 {
      return text;
    }
    DoubleIsEnoughUnlessOne(|text|);
    var d := new byte[|text| * 2](_ => 0);
    var n := NgxEncode(d, text);
    r := d[..n];
    assert r == Splice(d[..], 0, Encoded(text))[..n];
  }

  // ---- Decoding ----

  lemma {:induction false} BitsAppend(a: seq<byte>, b: seq<byte>)
    requires |a| % 4 == 0
    ensures Bits(a + b) == Bits(a) + Bits(b)
    decreases |a|
  {
    hide Triple;
    if a == [] {
      assert a + b == b;
    } else {
      assert (a + b)[4..] == a[4..] + b;
      BitsAppend(a[4..], b);
    }
  }

  lemma {:induction false} BitsLength(s: seq<byte>, groups: nat)
    requires |s| == 4 * groups
    ensures |Bits(s)| == 3 * groups
    decreases groups
  {
    if groups > 0 {
      BitsLength(s[4..], groups - 1);
    }
  }

  lemma BitsGrow(s: seq<byte>, groups: nat)
    requires 4 * groups + 4 <= |s|
    ensures var i := 4 * groups;
            && |Bits(s[..i])| == 3 * groups && |Bits(s[..i + 4])| == 3 * groups + 3
            && Bits(s[..i + 4]) == Bits(s[..i]) + Triple(s[i], s[i + 1], s[i + 2], s[i + 3])
  {
    hide Bits, Triple;
    var i := 4 * groups;
    var q := [s[i], s[i + 1], s[i + 2], s[i + 3]];
    BitsLength(s[..i], groups);
    BitsLength(s[..i + 4], groups + 1);
    assert s[..i + 4] == s[..i] + q;
    BitsAppend(s[..i], q);
    OneTriple(s[i], s[i + 1], s[i + 2], s[i + 3]);
  }

  lemma OneTriple(a: byte, b: byte, c: byte, d: byte)
    ensures Bits([a, b, c, d]) == Triple(a, b, c, d)
  {
    hide Triple;
    assert [a, b, c, d][4..] == [];
  }

  /** The first loop of ngx_decode_base64_internal: the characters before the first '=', all valid. */
  method Scan(src: seq<byte>) returns (valid: bool, len: nat)
    ensures valid <==> AllValid(Significant(src))
    ensures valid ==> len == |Significant(src)|
  {
    len := 0;
    while len < |src|
      invariant 0 <= len <= |src|
      invariant forall k :: 0 <= k < len ==> src[k] != PAD && Value64(src[k]) < 64
    {
      if src[len] == PAD {
        break;
      }
      if Basis(src[len]) == INVALID {
        ReachesInvalid(src, len);
        return false, len;
      }
      len := len + 1;
    }
    SignificantIs(src, len);
    return true, len;
  }

  lemma SignificantIs(s: seq<byte>, n: nat)
    requires n <= |s| && forall k :: 0 <= k < n ==> s[k] != PAD
    requires n < |s| ==> s[n] == PAD
    ensures Significant(s) == s[..n]
  {
    hide Significant;
    SignificantOf(s[..n], s[n..]);
    assert s[..n] + s[n..] == s;
  }

  lemma ReachesInvalid(s: seq<byte>, n: nat)
    requires n < |s| && (forall k :: 0 <= k <= n ==> s[k] != PAD) && Value64(s[n]) == 64
    ensures !AllValid(Significant(s))
  {
    var t := Significant(s);
    assert |t| > n && t[n] == s[n];
  }

  /** ngx_decode_base64_internal with the table of ngx_decode_base64: 0 and the bytes, or -1. */
  method NgxDecode(dst: array<byte>, src: seq<byte>) returns (err: int, dstLen: nat)
    requires dst.Length >= |src|
    modifies dst
    ensures err == 0 || err == -1
    ensures err == 0 <==> Decode(src).Ok?
    ensures err == 0 ==> dstLen <= dst.Length && dst[..dstLen] == Decode(src).bytes
  {
    hide Bits, Triple, Splice, AllValid, Significant;
    var valid, n := Scan(src);
    if !valid {
      return -1, 0;
    }
    if n % 4 == 1 {
      return -1, 0;
    }
    ghost var t, before := Significant(src), dst[..];
    var s, d := DecodeQuartets(dst, src, n);
    assert t == src[..n] && t == t[..s] + t[s..];
    assert src[..s] == t[..s] && src[s..n] == t[s..];
    MultipleOff(n, s);
    BitsAppend(t[..s], t[s..]);
    TailBits(t[s..]);
    SpliceTwice(before, 0, Bits(t[..s]), Bits(t[s..]));
    dstLen := DecodeTail(dst, d, src[s..n]);
    SpliceStart(before, 0, Bits(t));
    assert before[..0] + Bits(t) == Bits(t);
    return 0, dstLen;
  }

  lemma MultipleOff(n: nat, s: nat)
    requires s <= n < s + 4 && s % 4 == 0 && n % 4 != 1
    ensures n - s != 1
  {
  }

  method DecodeQuartets(dst: array<byte>, src: seq<byte>, n: nat) returns (s: nat, d: nat)
    requires n <= |src| <= dst.Length
    modifies dst
    ensures s <= n < s + 4 && s % 4 == 0 && d == |Bits(src[..s])| && d <= s
    ensures dst[..] == Splice(old(dst[..]), 0, Bits(src[..s]))
  {
    hide Bits, Triple, Splice;
    ghost var before := dst[..];
    var len := n;
    s, d := 0, 0;
    ghost var groups := 0;
    assert Bits(src[..0]) == [] by { BitsLength(src[..0], 0); }
    SpliceNothing(before, 0);
    while len > 3
      invariant len >= 0 && s == 4 * groups && d == 3 * groups && s + len == n
      invariant |Bits(src[..s])| == d
      invariant dst[..] == Splice(before, 0, Bits(src[..s]))
    {
      BitsGrow(src, groups);
      SpliceTwice(before, 0, Bits(src[..s]), Triple(src[s], src[s + 1], src[s + 2], src[s + 3]));
      PutTriple(dst, d, src[s], src[s + 1], src[s + 2], src[s + 3]);
      d := d + 3;
      s := s + 4;
      len := len - 4;
      groups := groups + 1;
    }
  }

  /** The two or three characters behind the last whole quartet, if any. */
  method DecodeTail(dst: array<byte>, at: nat, tail: seq<byte>) returns (d: nat)
    requires |tail| < 4 && |tail| != 1 && at + |tail| <= dst.Length
    modifies dst
    ensures |Bits(tail)| <= |tail| && d == at + |Bits(tail)|
    ensures dst[..] == Splice(old(dst[..]), at, Bits(tail))
  {
    hide Basis;
    d := at;
    if |tail| > 1 {
      dst[d] := (Basis(tail[0]) * 4 + Basis(tail[1]) / 16) % 256;
      d := d + 1;
    }
    if |tail| > 2 {
      dst[d] := (Basis(tail[1]) * 16 + Basis(tail[2]) / 4) % 256;
      d := d + 1;
    }
  }

  method PutTriple(dst: array<byte>, at: nat, a: byte, b: byte, c: byte, e: byte)
    requires at + 3 <= dst.Length
    modifies dst
    ensures |Triple(a, b, c, e)| == 3 && dst[..] == Splice(old(dst[..]), at, Triple(a, b, c, e))
  {
    hide Basis;
    var d := at;
    dst[d] := (Basis(a) * 4 + Basis(b) / 16) % 256;
    d := d + 1;
    dst[d] := (Basis(b) * 16 + Basis(c) / 4) % 256;
    d := d + 1;
    dst[d] := (Basis(c) * 64 + Basis(e)) % 256;
  }

  lemma TailBits(tail: seq<byte>)
    requires |tail| < 4 && |tail| != 1
    ensures |Bits(tail)| == if tail == [] then 0 else |tail| - 1
  {
  }

  /** dw_decode_base64: the text is replaced only when it can be decoded, and an empty one cannot. */
  method DwDecode(text: seq<byte>) returns (err: int, r: seq<byte>)
    ensures err == 0 || err == -1
    ensures err == 0 <==> text != [] && Decode(text).Ok?
    ensures r == if err == 0 then Decode(text).bytes else text
  {
    if |text| < 1 {
      return -1, text;
    }
    var d := new byte[|text|](_ => 0);
    var n;
    err, n := NgxDecode(d, text);
    r := if err == 0 then d[..n] else text;
  }
}
