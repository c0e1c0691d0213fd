/** The Base64 text format (RFC 2045, section 6.8; RFC 4648, section 4) as a one-shot function,
    and the alphabet tables of the codecs. */
module Base64Text {
  import opened Bytes

  const LF: byte := 10
  const CR: byte := 13
  const PAD: byte := 61

  /** The alphabet: A-Z, a-z, 0-9, '+', '/'. */
  function Char64(n: int): (c: byte)
    requires 0 <= n < 64
    ensures c != LF && c != CR && c != PAD
  {
    if n < 26 then 65 + n
    else if n < 52 then 71 + n
    else if n < 62 then n - 4
    else if n == 62 then 43
    else 47
  }

  /** The value of an alphabet character, or 64 for any other byte. */
  function Value64(c: byte): (n: int)
    ensures 0 <= n <= 64
    ensures n < 64 ==> Char64(n) == c
  {
    if 65 <= c <= 90 then c - 65
    else if 97 <= c <= 122 then c - 71
    else if 48 <= c <= 57 then c + 4
    else if c == 43 then 62
    else if c == 47 then 63
    else 64
  }

  lemma ValueOfChar(n: int)
    requires 0 <= n < 64
    ensures Value64(Char64(n)) == n
  {
  }

  const UPPER := "ABCDEFGHIJKLMNOPQRSTUVWXYZ"
  const LOWER := "abcdefghijklmnopqrstuvwxyz"
  const OTHER := "0123456789+/"

  /** The table base64Chars. */
  const ALPHABET := UPPER + LOWER + OTHER

  /** The characters are those of the table, and no others have a value. */
  lemma CharsOfAlphabet(n: nat)
    requires n < 64
    ensures |ALPHABET| == 64 && Char64(n) == ALPHABET[n] as int
  {
    UppersAndOthers(if n < 26 then n else 0, if n >= 52 then n - 52 else 0);
    Lowers(if 26 <= n < 52 then n - 26 else 0);
    hide UPPER, LOWER, OTHER;
    if n < 26 {
      assert ALPHABET[n] == UPPER[n];
    } else if n < 52 {
      assert ALPHABET[n] == LOWER[n - 26];
    } else {
      assert ALPHABET[n] == OTHER[n - 52];
    }
  }

  lemma UppersAndOthers(i: nat, j: nat)
    requires i < 26 && j < 12
    ensures |UPPER| == 26 && UPPER[i] as int == 65 + i
    ensures |OTHER| == 12 && OTHER[j] as int == if j < 10 then 48 + j else if j == 10 then 43 else 47
  {
  }

  lemma Lowers(i: nat)
    requires i < 26
    ensures |LOWER| == 26 && LOWER[i] as int == 97 + i
  {
  }

  lemma ValuesOfAlphabet(c: byte)
    ensures if Value64(c) < 64 then ALPHABET[Value64(c)] as int == c else c as char !in ALPHABET
    ensures PAD == '=' as int && LF == '\n' as int && CR == '\r' as int
  {
    if Value64(c) < 64 {
      CharsOfAlphabet(Value64(c));
    } else if k :| 0 <= k < |ALPHABET| && ALPHABET[k] == c as char {
      CharsOfAlphabet(k);
      ValueOfChar(k);
    }
  }

  /** The six-bit pieces of three bytes join to the bytes again. */
  lemma PiecesJoin(a: byte, b: byte, c: byte)
    ensures (a / 4 * 4 + (a % 4 * 16 + b / 16) / 16) % 256 == a
    ensures ((a % 4 * 16 + b / 16) * 16 + (b % 16 * 4 + c / 64) / 4) % 256 == b
    ensures ((b % 16 * 4 + c / 64) * 64 + c % 64) % 256 == c
  {
    DivideBy(16, a % 4, b / 16);
    DivideBy(4, b % 16, c / 64);
    DivideBy(256, a % 4, b);
    DivideBy(256, b % 16, c);
  }

  lemma DivideBy(m: int, q: int, r: int)
    requires m == 4 || m == 16 || m == 256
    requires 0 <= r < m
    ensures (q * m + r) / m == q && (q * m + r) % m == r
  {
  }

  /** The characters for `s` without padding: four for each three bytes, two or three for the rest. */
  function Chars(s: seq<byte>): seq<byte> {
    if |s| == 0 then []
    else if |s| == 1 then [Char64(s[0] / 4), Char64(s[0] % 4 * 16)]
    else if |s| == 2 then
      [Char64(s[0] / 4), Char64(s[0] % 4 * 16 + s[1] / 16), Char64(s[1] % 16 * 4)]
    else Quartet(s[0], s[1], s[2]) + Chars(s[3..])
  }

  function Quartet(a: byte, b: byte, c: byte): (q: seq<byte>)
    ensures |q| == 4
  {
    [Char64(a / 4), Char64(a % 4 * 16 + b / 16), Char64(b % 16 * 4 + c / 64), Char64(c % 64)]
  }

  function Padding(n: nat): seq<byte> {
    if n % 3 == 1 then [PAD, PAD] else if n % 3 == 2 then [PAD] else []
  }

  /** The encoded text of `s`, padded to a whole number of quartets. */
  function Encoded(s: seq<byte>): seq<byte> {
    Chars(s) + Padding(|s|)
  }

  lemma {:induction false} CharsAppend(s: seq<byte>, t: seq<byte>)
    requires |s| % 3 == 0
    ensures Chars(s + t) == Chars(s) + Chars(t)
    decreases |s|
  {
    if s == [] {
      assert s + t == t;
    } else {
      assert (s + t)[3..] == s[3..] + t;
      CharsAppend(s[3..], t);
    }
  }

  lemma {:induction false} CharsLength(s: seq<byte>, groups: nat)
    requires |s| == 3 * groups
    ensures |Chars(s)| == 4 * groups
    decreases groups
  {
    hide Char64;
    if groups > 0 {
      CharsLength(s[3..], groups - 1);
    }
  }

  lemma OneQuartet(a: byte, b: byte, c: byte)
    ensures Chars([a, b, c]) == Quartet(a, b, c)
  {
    hide Char64;
    assert [a, b, c][3..] == [];
  }

  /** The text of the first `groups` groups of `s` grows by a quartet with the next group. */
  lemma CharsGrow(s: seq<byte>, groups: nat)
    requires 3 * groups + 3 <= |s|
    ensures var i := 3 * groups;
            && |Chars(s[..i])| == 4 * groups && |Chars(s[..i + 3])| == 4 * groups + 4
            && Chars(s[..i + 3]) == Chars(s[..i]) + Quartet(s[i], s[i + 1], s[i + 2])
  {
    hide *;
    var i := 3 * groups;
    var group := [s[i], s[i + 1], s[i + 2]];
    assert s[..i + 3] == s[..i] + group;
    QuartetSnoc(s[..i], groups, s[i], s[i + 1], s[i + 2]);
  }

  lemma QuartetSnoc(head: seq<byte>, groups: nat, a: byte, b: byte, c: byte)
    requires |head| == 3 * groups
    ensures |Chars(head)| == 4 * groups && |Chars(head + [a, b, c])| == 4 * groups + 4
    ensures Chars(head + [a, b, c]) == Chars(head) + Quartet(a, b, c)
  {
    hide *;
    CharsLength(head, groups);
    assert |head| % 3 == 0;
    CharsAppend(head, [a, b, c]);
    OneQuartet(a, b, c);
  }

  lemma PaddingRepeats(n: nat)
    ensures Padding(n + 3) == Padding(n)
  {
    assert (n + 3) % 3 == n % 3;
  }

  /** Encoded text is always four characters for each started group of three bytes. */
  lemma {:induction false} EncodedLength(s: seq<byte>)
    ensures |Encoded(s)| == (|s| + 2) / 3 * 4
    decreases |s|
  {
    hide Char64, Padding, Quartet;
    if |s| >= 3 {
      EncodedLength(s[3..]);
      PaddingRepeats(|s| - 3);
      assert |Chars(s)| == 4 + |Chars(s[3..])|;
    } else {
      ShortLength(s);
    }
  }

  lemma ShortLength(s: seq<byte>)
    requires |s| < 3
    ensures |Encoded(s)| == (|s| + 2) / 3 * 4
  {
    hide Char64;
  }

  /** The six bits of a character; a pad stands for none. */
  function Weight(c: byte): nat {
    if c == PAD then 0 else Value64(c)
  }

  /** Four characters weigh what one to three bytes weigh, most significant first, and are pads just where
      a byte is missing. */
  predicate Weighs(t: seq<byte>, g: seq<byte>) {
    && |t| == 4 && 1 <= |g| <= 3
    && ((Weight(t[0]) * 64 + Weight(t[1])) * 64 + Weight(t[2])) * 64 + Weight(t[3]) ==
       (g[0] as int * 256 + (if |g| > 1 then g[1] else 0)) * 256 + (if |g| > 2 then g[2] else 0)
    && t[0] != PAD && t[1] != PAD && (t[2] == PAD <==> |g| == 1) && (t[3] == PAD <==> |g| <= 2)
  }

  /** So do the four characters of each started group. */
  lemma EncodedWeighs(s: seq<byte>, k: nat)
    requires 3 * k < |s|
    ensures |Encoded(s)| >= 4 * k + 4
    ensures Weighs(Encoded(s)[4 * k..4 * k + 4], s[3 * k..if 3 * k + 3 <= |s| then 3 * k + 3 else |s|])
  {
    hide Encoded, Weighs;
    var rest := s[3 * k..];
    EncodedFrom(s, k);
    FirstWeighs(rest);
    assert Encoded(s)[4 * k..4 * k + 4] == Encoded(rest)[..4];
    var n := if |rest| >= 3 then 3 else |rest|;
    assert s[3 * k..3 * k + n] == rest[..n];
  }

  lemma EncodedFrom(s: seq<byte>, k: nat)
    requires 3 * k <= |s|
    ensures |Chars(s[..3 * k])| == 4 * k && Encoded(s) == Chars(s[..3 * k]) + Encoded(s[3 * k..])
  {
    hide Chars;
    CharsLength(s[..3 * k], k);
    CharsAppend(s[..3 * k], s[3 * k..]);
    assert s[..3 * k] + s[3 * k..] == s;
    assert |s| % 3 == |s[3 * k..]| % 3;
  }

  lemma FirstWeighs(s: seq<byte>)
    requires s != []
    ensures |Encoded(s)| >= 4 && Weighs(Encoded(s)[..4], s[..if |s| >= 3 then 3 else |s|])
  {
    hide Char64, Value64;
    var a, b, c := s[0], if |s| > 1 then s[1] else 0, if |s| > 2 then s[2] else 0;
    ValueOfChar(a / 4);
    ValueOfChar(a % 4 * 16 + b / 16);
    ValueOfChar(b % 16 * 4 + c / 64);
    ValueOfChar(c % 64);
  }

  /** The text with carriage returns and line feeds removed. */
  function Strip(t: seq<byte>): seq<byte> {
    if t == [] then []
    else Strip(t[..|t| - 1]) + (if t[|t| - 1] == LF || t[|t| - 1] == CR then [] else [t[|t| - 1]])
  }

  lemma {:induction false} StripConcat(s: seq<byte>, t: seq<byte>)
    ensures Strip(s + t) == Strip(s) + Strip(t)
    decreases |t|
  {
    if t == [] {
      assert s + t == s;
    } else {
      assert (s + t)[..|s + t| - 1] == s + t[..|t| - 1];
      StripConcat(s, t[..|t| - 1]);
    }
  }

  lemma {:induction false} StripNothing(t: seq<byte>)
    requires forall i :: 0 <= i < |t| ==> t[i] != LF && t[i] != CR
    ensures Strip(t) == t
    decreases |t|
  {
    if t != [] {
      StripNothing(t[..|t| - 1]);
    }
  }

  lemma {:induction false} CharsAreNotEol(s: seq<byte>)
    ensures forall i :: 0 <= i < |Chars(s)| ==> Chars(s)[i] != LF && Chars(s)[i] != CR && Chars(s)[i] != PAD
    decreases |s|
  {
    if |s| >= 3 {
      CharsAreNotEol(s[3..]);
    }
  }

  /** The characters behind the last line feed, carriage returns aside. */
  function Column(t: seq<byte>): nat {
    if t == [] || t[|t| - 1] == LF then 0
    else Column(t[..|t| - 1]) + if t[|t| - 1] == CR then 0 else 1
  }

  lemma ColumnMoves(t: seq<byte>, c: byte)
    ensures Column(t + [c]) == if c == LF then 0 else if c == CR then Column(t) else Column(t) + 1
  {
    assert (t + [c])[..|t + [c]| - 1] == t;
  }

  lemma {:induction false} ColumnGrows(t: seq<byte>, x: seq<byte>)
    requires forall i :: 0 <= i < |x| ==> x[i] != LF && x[i] != CR
    ensures Column(t + x) == Column(t) + |x|
    decreases |x|
  {
    if x == [] {
      assert t + x == t;
    } else {
      var n := |x| - 1;
      ColumnGrows(t, x[..n]);
      ColumnMoves(t + x[..n], x[n]);
      assert t + x == t + x[..n] + [x[n]];
    }
  }
}
