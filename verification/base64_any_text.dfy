/** What the streaming decoder of service/cpplib/mimepp/src/base64.c makes of any text, encoded or not,
    and how that compares with the whole-buffer decoder of service/faceside/src/ngx_base64.cpp. */
module Base64AnyText {
  import opened Bytes
  import opened Base64Text
  import opened Streams
  import opened Base64Decoder
  import opened NgxBase64

  /** The alphabet characters of a text, in order. */
  function Letters(t: seq<byte>): (r: seq<byte>)
    ensures |r| <= |t| && AllValid(r)
  {
    if t == [] then []
    else Letters(t[..|t| - 1]) + if Value64(t[|t| - 1]) < 64 then [t[|t| - 1]] else []
  }

  /** A character that is neither of the alphabet, nor a pad, nor white space. */
  predicate HasBad(t: seq<byte>) {
    exists k :: 0 <= k < |t| && Map64(t[k]) == BAD
  }

  function Last(l: seq<byte>): (n: byte)
    ensures n <= 64
  {
    if l == [] then 0 else Value64(l[|l| - 1])
  }

  /** The decoder after `n` characters of a quartet. */
  function At(n: nat, last: byte, error: bool): Decoding {
    Decoding(if n == 0 then S0 else if n == 1 then S1 else if n == 2 then S2 else S3,
             if n == 0 then 0 else last, error)
  }

  /** Where the decoder is after a text without a pad. */
  function AfterText(t: seq<byte>): Decoding {
    At(|Letters(t)| % 4, Last(Letters(t)), HasBad(t))
  }

  /** The byte that a character of value `v` completes as the one after `n` of its quartet. */
  function Completed(n: nat, last: nat, v: nat): seq<byte> {
    if n == 0 then []
    else if n == 1 then [(last * 4 + v / 16) % 256]
    else if n == 2 then [(last * 16 + v / 4) % 256]
    else [(last * 64 + v) % 256]
  }

  lemma BitsSnoc(l: seq<byte>, c: byte)
    requires AllValid(l) && Value64(c) < 64
    ensures Bits(l + [c]) == Bits(l) + Completed(|l| % 4, Last(l), Value64(c))
  {
    hide *;
    var k := WholeQuartets(|l|);
    ValidTail(l, k);
    var head, tail := l[..k], l[k..];
    assert head + tail == l;
    SnocBehindQuartets(head, tail, c);
  }

  lemma SnocBehindQuartets(head: seq<byte>, tail: seq<byte>, c: byte)
    requires |head| % 4 == 0 && |tail| < 4 && AllValid(tail) && Value64(c) < 64
    ensures var l := head + tail; Bits(l + [c]) == Bits(l) + Completed(|tail|, Last(l), Value64(c))
  {
    hide Bits, Value64, Completed, Last, AllValid;
    BitsAppend(head, tail);
    BitsAppend(head, tail + [c]);
    Associates(head, tail, [c]);
    TailSnoc(tail, c);
    Associates(Bits(head), Bits(tail), Completed(|tail|, Last(tail), Value64(c)));
    if tail == [] {
      FirstIgnoresLast(Last(tail), Last(head + tail), Value64(c));
    } else {
      LastOfTail(head, tail);
    }
  }

  lemma FirstIgnoresLast(x: nat, y: nat, v: nat)
    ensures Completed(0, x, v) == Completed(0, y, v)
  {
  }

  lemma LastOfTail(head: seq<byte>, tail: seq<byte>)
    requires tail != []
    ensures Last(head + tail) == Last(tail)
  {
    hide Value64;
  }

  lemma Associates(x: seq<byte>, y: seq<byte>, z: seq<byte>)
    ensures x + (y + z) == x + y + z
  {
  }

  lemma WholeQuartets(n: nat) returns (k: nat)
    ensures k <= n && k % 4 == 0 && n - k == n % 4
  {
    k := n / 4 * 4;
  }

  lemma ValidTail(l: seq<byte>, k: nat)
    requires k <= |l| && AllValid(l)
    ensures AllValid(l[k..])
  {
    hide Value64;
  }

  lemma TailSnoc(t: seq<byte>, c: byte)
    requires |t| < 4 && AllValid(t) && Value64(c) < 64
    ensures Bits(t + [c]) == Bits(t) + Completed(|t|, Last(t), Value64(c))
  {
    hide Value64, Bits, Completed, Last;
    if |t| == 0 {
      assert t == [];
      FirstOfQuartet(c);
    } else if |t| == 1 {
      assert t == [t[0]];
      SecondOfQuartet(t[0], c);
    } else if |t| == 2 {
      assert t == [t[0], t[1]];
      ThirdOfQuartet(t[0], t[1], c);
    } else {
      assert t == [t[0], t[1], t[2]];
      FourthOfQuartet(t[0], t[1], t[2], c);
    }
  }

  lemma FirstOfQuartet(c: byte)
    ensures Bits([] + [c]) == Bits([]) + Completed(0, Last([]), Value64(c))
  {
    hide Value64;
  }

  lemma SecondOfQuartet(a: byte, c: byte)
    requires Value64(a) < 64 && Value64(c) < 64
    ensures Bits([a] + [c]) == Bits([a]) + Completed(1, Last([a]), Value64(c))
  {
    hide Value64;
    assert [a] + [c] == [a, c];
  }

  lemma ThirdOfQuartet(a: byte, b: byte, c: byte)
    requires Value64(a) < 64 && Value64(b) < 64 && Value64(c) < 64
    ensures Bits([a, b] + [c]) == Bits([a, b]) + Completed(2, Last([a, b]), Value64(c))
  {
    hide Value64;
    assert [a, b] + [c] == [a, b, c];
  }

  lemma FourthOfQuartet(a: byte, b: byte, e: byte, c: byte)
    requires Value64(a) < 64 && Value64(b) < 64 && Value64(e) < 64 && Value64(c) < 64
    ensures Bits([a, b, e] + [c]) == Bits([a, b, e]) + Completed(3, Last([a, b, e]), Value64(c))
  {
    OneTriple(a, b, e, c);
    hide Value64;
    assert [a, b, e] + [c] == [a, b, e, c];
  }

  lemma BadSnoc(t: seq<byte>, c: byte)
    ensures HasBad(t + [c]) <==> HasBad(t) || Map64(c) == BAD
  {
    hide Map64;
    if HasBad(t) {
      var k :| 0 <= k < |t| && Map64(t[k]) == BAD;
      assert (t + [c])[k] == t[k];
    }
    assert (t + [c])[|t|] == c;
  }

  lemma LettersSnoc(t: seq<byte>, c: byte)
    ensures Letters(t + [c]) == Letters(t) + if Value64(c) < 64 then [c] else []
  {
    hide Value64;
    assert (t + [c])[..|t + [c]| - 1] == t;
  }

  /** One character that is no pad. */
  lemma CharStep(t: seq<byte>, c: byte)
    requires c != PAD
    ensures var f := Feed(AfterText(t), c);
            && !f.Refuse? && f.next == AfterText(t + [c])
            && Bits(Letters(t + [c])) == Bits(Letters(t)) + if f.Convert? then [f.c] else []
  {
    hide Value64, Letters, Bits, HasBad, Feed, AfterText, Last;
    LettersSnoc(t, c);
    BadSnoc(t, c);
    if Value64(c) < 64 {
      LetterMoves(t, c);
      BitsSnoc(Letters(t), c);
    } else {
      OtherStays(t, c);
      assert Letters(t) + [] == Letters(t);
      assert Bits(Letters(t)) + [] == Bits(Letters(t));
    }
  }

  lemma LetterMoves(t: seq<byte>, c: byte)
    requires Value64(c) < 64 && Letters(t + [c]) == Letters(t) + [c]
    requires HasBad(t + [c]) <==> HasBad(t) || Map64(c) == BAD
    ensures var f := Feed(AfterText(t), c);
            && !f.Refuse? && f.next == AfterText(t + [c])
            && Completed(|Letters(t)| % 4, Last(Letters(t)), Value64(c)) == if f.Convert? then [f.c] else []
  {
    hide Value64, Letters, HasBad, Map64, Last, Completed, Feed;
    var l := Letters(t);
    assert |l + [c]| == |l| + 1;
    OneMore(|l|);
    LastOne(l, c);
    LetterFeeds(|l| % 4, Last(l), c, HasBad(t));
  }

  lemma OneMore(n: nat)
    ensures (n + 1) % 4 == if n % 4 == 3 then 0 else n % 4 + 1
  {
  }

  lemma LastOne(l: seq<byte>, c: byte)
    ensures Last(l + [c]) == Value64(c)
  {
    hide Value64;
  }

  lemma LetterFeeds(n: nat, last: byte, c: byte, error: bool)
    requires n < 4 && Value64(c) < 64
    ensures var f := Feed(At(n, last, error), c);
            && !f.Refuse? && f.next == At(if n == 3 then 0 else n + 1, Value64(c), error)
            && Completed(n, last, Value64(c)) == if f.Convert? then [f.c] else []
  {
    hide Value64;
  }

  lemma OtherStays(t: seq<byte>, c: byte)
    requires c != PAD && Value64(c) == 64 && Letters(t + [c]) == Letters(t) + []
    requires HasBad(t + [c]) <==> HasBad(t) || Map64(c) == BAD
    ensures Feed(AfterText(t), c) == Take(AfterText(t + [c]))
  {
    hide Value64, Letters, HasBad, Map64;
    assert Letters(t) + [] == Letters(t);
  }

  /** A call on a text has read the characters before the first pad so. */
  lemma {:induction false} ReadsText(t: seq<byte>, n: nat, room: nat)
    requires n <= |Significant(t)| && room > |t|
    ensures |Bits(Letters(t[..n]))| <= n
    ensures Begins(DECODER, START, t, 0, |t|, room, Result(AfterText(t[..n]), n, Bits(Letters(t[..n]))))
    decreases n
  {
    hide Begins, Run, Act, Feed, AfterText, Letters, Bits, Significant;
    if n == 0 {
      NothingRead();
      BeginsNothing(DECODER, START, t, 0, |t|, room);
      assert t[..0] == [];
    } else {
      ReadsText(t, n - 1, room);
      var p, c := t[..n - 1], t[n - 1];
      assert p + [c] == t[..n];
      CharStep(p, c);
      OneCharacter(AfterText(p), t, n - 1, |t|);
      BeginsMove(DECODER, START, t, 0, |t|, room, Result(AfterText(p), n - 1, Bits(Letters(p))));
      assert Bits(Letters(p)) + [] == Bits(Letters(p));
    }
  }

  lemma NothingRead()
    ensures AfterText([]) == START && Bits(Letters([])) == []
  {
  }

  /** The first pad ends the data. */
  lemma PadEnds(t: seq<byte>)
    ensures Feed(AfterText(t), PAD) == Take(Decoding(Done, 0, HasBad(t)))
  {
    hide Value64, Letters, HasBad;
  }

  /** A single call on any text with enough room: the bytes of the alphabet characters before the first
      pad, and an error if and only if a bad character stands there. */
  lemma AnyText(t: seq<byte>, room: nat)
    requires room > |t|
    ensures var s := Significant(t);
            Run(DECODER, START, t, 0, |t|, room) ==
            if |s| == |t| then Result(AfterText(s), |t|, Bits(Letters(s)))
            else Result(Decoding(Done, 0, HasBad(s)), |s| + 1, Bits(Letters(s)))
  {
    hide Begins, Run, Act, Letters, Bits, HasBad, Significant, AfterText, Feed;
    var s := Significant(t);
    assert t[..|s|] == s;
    ReadsText(t, |s|, room);
    var r := Result(AfterText(s), |s|, Bits(Letters(s)));
    if |s| < |t| {
      PadEnds(s);
      OneCharacter(r.state, t, |s|, |t|);
      BeginsMove(DECODER, START, t, 0, |t|, room, r);
      assert r.out + [] == r.out;
      r := Result(Decoding(Done, 0, HasBad(s)), |s| + 1, r.out);
    }
    CallEnds(r.state, t, r.pos, |t|);
    BeginsAll(DECODER, START, t, 0, |t|, room, r);
  }

  /** The same in any calls: the output is a prefix of those bytes, and once the calls have come to the
      end of the data, all of them, with the error as it is. */
  lemma AnyTextInAnyCalls(t: seq<byte>, calls: seq<Call>)
    ensures var s, r := Significant(t), Session(DECODER, START, t, 0, calls);
            && r.out <= Bits(Letters(s))
            && (r.pos == |t| || r.state.state.Done? ==> r.out == Bits(Letters(s)) && r.state.error == HasBad(s))
  {
    hide Run, Act, Session, Letters, Bits, HasBad, Significant;
    var room := TotalRoom(calls) + |t| + 1;
    AnyText(t, room);
    SessionIsPrefix(DECODER, START, t, 0, calls, room);
    var r := Session(DECODER, START, t, 0, calls);
    if r.pos == |t| || r.state.state.Done? {
      CallEnds(r.state, t, r.pos, |t|);
      BeginsAll(DECODER, START, t, 0, |t|, room, r);
    }
  }

  lemma {:induction false} ValidAreLetters(t: seq<byte>)
    requires AllValid(t)
    ensures Letters(t) == t && !HasBad(t)
    decreases |t|
  {
    hide Value64;
    if t != [] {
      ValidAreLetters(t[..|t| - 1]);
    }
  }

  /** Where the whole-buffer decoder accepts a text, the streaming one gives the same bytes without error,
      in any calls that come to the end. */
  lemma DecodersAgree(t: seq<byte>, calls: seq<Call>)
    requires Decode(t).Ok?
    ensures var r := Session(DECODER, START, t, 0, calls);
            r.pos == |t| || r.state.state.Done? ==> Decode(t) == Ok(r.out) && !r.state.error
  {
    hide Session, Bits, Letters, HasBad, Significant;
    AnyTextInAnyCalls(t, calls);
    ValidAreLetters(Significant(t));
  }
}
