/** The whole text that the slow routines of base64.c make of an input, character by character: the
    Base64 text with a line end behind each full line, and when it ends in a line end. */
module Base64WholeText {
  import opened Bytes
  import opened Base64Text
  import opened Streams
  import E = Base64Encoder
  import L = Base64LineLength
  import opened Base64RoundTrip

  /** `u` with a line end behind every `n`-th character. */
  function Broken(u: seq<byte>, n: nat, eol: seq<byte>): seq<byte>
    requires n > 0
  {
    if u == [] then []
    else Broken(u[..|u| - 1], n, eol) + [u[|u| - 1]] + if |u| % n == 0 then eol else []
  }

  lemma BrokenSnoc(u: seq<byte>, c: byte, n: nat, eol: seq<byte>)
    requires n > 0
    ensures Broken(u + [c], n, eol) == Broken(u, n, eol) + [c] + if (|u| + 1) % n == 0 then eol else []
  {
    assert (u + [c])[..|u + [c]| - 1] == u;
  }

  lemma NextPlace(m: nat, n: nat)
    requires n > 0
    ensures (m + 1) % n == if m % n + 1 == n then 0 else m % n + 1
  {
    var q := m / n;
    assert m == q * n + m % n;
    if m % n + 1 == n {
      assert m + 1 == (q + 1) * n;
      Quotient(m + 1, q + 1, 0, n);
    } else {
      Quotient(m + 1, q, m % n + 1, n);
    }
  }

  lemma Quotient(m: int, q: int, r: int, n: nat)
    requires 0 <= r < n && m == q * n + r
    ensures m % n == r
  {
    var d := m / n - q;
    assert m % n == m - m / n * n;
    assert d * n == m / n * n - q * n;
    assert r - m % n == d * n;
  }

  /** How many characters stand on the last line. */
  function Place(o: E.Options, u: seq<byte>): nat {
    |u| % L.Full(o)
  }

  function BrokenLines(o: E.Options, u: seq<byte>): seq<byte> {
    Broken(u, L.Full(o), E.Eol(o))
  }

  /** In each state of encode: what is put so far, with a line end that is still due, is the text without
      line ends broken in lines; and mLineLen counts what stands on the last one. */
  ghost predicate Lined(o: E.Options, t: seq<byte>, e: E.Coding) {
    var u := Strip(t);
    var place := Place(o, u);
    match e.state
    case S0 => t == BrokenLines(o, u) && e.lineLen == place && place % 4 == 0
    case S1 => t == BrokenLines(o, u) && e.lineLen == place && place % 4 == 1
    case S2 => t == BrokenLines(o, u) && e.lineLen == place && place % 4 == 2
    case S3 => t == BrokenLines(o, u) && e.lineLen == place && place % 4 == 3
    case OutputCrLf => t + [CR, LF] == BrokenLines(o, u) && e.lineLen == place == 0 && o.crLf
    case OutputLf => t + [LF] == BrokenLines(o, u) && e.lineLen == place == 0
    case _ => false
  }

  /** One more character of the text. */
  lemma CharLined(o: E.Options, t: seq<byte>, c: byte)
    requires c != LF && c != CR && t == BrokenLines(o, Strip(t))
    ensures var u, place := Strip(t), Place(o, Strip(t));
            && Strip(t + [c]) == u + [c]
            && Place(o, u + [c]) == (if place + 1 == L.Full(o) then 0 else place + 1)
            && BrokenLines(o, u + [c]) == t + [c] + if place + 1 == L.Full(o) then E.Eol(o) else []
  {
    hide Strip, L.Full, Broken, E.Eol;
    var u := Strip(t);
    E.StripChar(t, c);
    NextPlace(|u|, L.Full(o));
    BrokenSnoc(u, c, L.Full(o), E.Eol(o));
  }

  lemma FullIs(o: E.Options)
    requires o.lineMax % 4 == 0
    ensures L.Full(o) % 4 == 0 && L.Full(o) == if o.lineMax == 0 then 4 else o.lineMax
  {
  }

  lemma PlaceIsOnLine(o: E.Options, u: seq<byte>)
    ensures Place(o, u) < L.Full(o)
  {
  }

  lemma DrainLined(o: E.Options, t: seq<byte>, e: E.Coding)
    requires o.lineMax % 4 == 0 && Lined(o, t, e) && E.EncodeDrain(o, e).Put?
    ensures var d := E.EncodeDrain(o, e); Lined(o, t + [d.c], d.next)
  {
    hide Lined, E.EncodeDrain;
    if e.state.S3? {
      LastLined(o, t, e);
    } else {
      LineEndLined(o, t, e);
    }
  }

  lemma LastLined(o: E.Options, t: seq<byte>, e: E.Coding)
    requires o.lineMax % 4 == 0 && Lined(o, t, e) && e.state.S3?
    ensures var d := E.EncodeDrain(o, e); d.Put? && Lined(o, t + [d.c], d.next)
  {
    hide Char64, Strip, BrokenLines, L.Full, Place;
    FullIs(o);
    PlaceIsOnLine(o, Strip(t));
    var c := E.EncodeDrain(o, e).c;
    CharLined(o, t, c);
    assert t + [c] + [] == t + [c];
  }

  lemma LineEndLined(o: E.Options, t: seq<byte>, e: E.Coding)
    requires Lined(o, t, e) && (e.state.OutputCrLf? || e.state.OutputLf?)
    ensures var d := E.EncodeDrain(o, e); d.Put? && Lined(o, t + [d.c], d.next)
  {
    hide Strip, BrokenLines, L.Full, Place;
    E.StripChar(t, E.EncodeDrain(o, e).c);
    assert t + [CR] + [LF] == t + [CR, LF];
  }

  lemma FeedLined(o: E.Options, t: seq<byte>, e: E.Coding, b: byte)
    requires o.lineMax % 4 == 0 && Lined(o, t, e) && E.EncodeFeed(e, b).Convert?
    ensures var f := E.EncodeFeed(e, b); Lined(o, t + [f.c], f.next)
  {
    hide Char64, Strip, BrokenLines, L.Full, Place;
    FullIs(o);
    PlaceIsOnLine(o, Strip(t));
    var c := E.EncodeFeed(e, b).c;
    CharLined(o, t, c);
    assert t + [c] + [] == t + [c];
  }

  lemma {:induction false} CallLined(o: E.Options, t: seq<byte>, e: E.Coding, input: seq<byte>, pos: nat,
                                     end: nat, room: nat)
    requires o.lineMax % 4 == 0 && pos <= end <= |input| && Lined(o, t, e)
    ensures var r := Run(E.Encoder(o), e, input, pos, end, room); Lined(o, t + r.out, r.state)
    decreases end - pos + room
  {
    hide Run, Act, Lined, E.EncodeDrain, E.EncodeFeed;
    var m := E.Encoder(o);
    E.EncoderAct(o, e, input, pos, end);
    var a := Act(m, e, input, pos, end);
    if room == 0 || a.Stop? {
      RunStop(m, e, input, pos, end, room);
      assert t + [] == t;
    } else {
      RunMove(m, e, input, pos, end, room);
      if E.EncodeDrain(o, e).Put? {
        DrainLined(o, t, e);
      } else {
        FeedLined(o, t, e, input[pos]);
      }
      CallLined(o, t + a.out, a.next, input, a.pos, end, room - |a.out|);
      var r := Run(m, a.next, input, a.pos, end, room - |a.out|);
      assert t + a.out + r.out == t + (a.out + r.out);
    }
  }

  lemma {:induction false} CallsLined(o: E.Options, t: seq<byte>, e: E.Coding, input: seq<byte>, pos: nat,
                                      calls: seq<Call>)
    requires o.lineMax % 4 == 0 && pos <= |input| && Lined(o, t, e)
    ensures var r := Session(E.Encoder(o), e, input, pos, calls); Lined(o, t + r.out, r.state)
    decreases |calls|
  {
    hide Run, Act, Lined;
    if calls == [] {
      assert t + [] == t;
    } else {
      var shown := Shown(input, pos, calls[0].avail);
      var r := Run(E.Encoder(o), e, input, pos, shown, calls[0].room);
      CallLined(o, t, e, input, pos, shown, calls[0].room);
      CallsLined(o, t + r.out, r.state, input, r.pos, calls[1..]);
      var r' := Session(E.Encoder(o), r.state, input, r.pos, calls[1..]);
      assert t + r.out + r'.out == t + (r.out + r'.out);
    }
  }

  // ---- The whole text ----

  /** The whole groups of an input, broken in lines, and its one or two remaining bytes with their pads. */
  function Body(o: E.Options, input: seq<byte>): seq<byte> {
    var k := |input| - |input| % 3;
    BrokenLines(o, Encoded(input[..k])) + Encoded(input[k..])
  }

  /** A line end follows: never twice behind a full line that finish finds unended, and otherwise unless
      it is suppressed. Behind pads it cannot be suppressed if the maximum is less than a quartet. */
  predicate Closes(o: E.Options, input: seq<byte>, dangling: bool) {
    if |input| % 3 == 0 then !o.noFinalNewline && !dangling
    else !o.noFinalNewline || o.lineMax == 0
  }

  /** There is input, all of it in groups, and the last line is full. */
  predicate LastLineFull(o: E.Options, input: seq<byte>) {
    input != [] && |input| % 3 == 0 && Place(o, Encoded(input)) == 0
  }

  /** What finish puts behind one or two pending characters. */
  lemma PaddedForms(o: E.Options, e: E.Coding)
    requires e.state == E.S1 || e.state == E.S2
    ensures var end := if e.lineLen + 1 >= o.lineMax || !o.noFinalNewline then E.Eol(o) else [];
            FinishChars(o, e) == (if e.state.S1? then [Char64(e.last % 4 * 16), PAD, PAD]
                                  else [Char64(e.last % 16 * 4), PAD]) + end
  {
    hide Char64;
    var e1 := E.Coding(E.OutputEqEq, e.last, e.lineLen + 1);
    var e2 := E.Coding(E.OutputEq, e.last, e.lineLen + 1);
    var last := E.Coding(E.LineEnd(o), e.last, 0);
    LineEndForms(o, last);
    assert FinishChars(o, E.Coding(E.Done, e.last, e.lineLen + 1)) == [];
    var end := if e.lineLen + 1 >= o.lineMax || !o.noFinalNewline then E.Eol(o) else [];
    assert FinishChars(o, e2) == [PAD] + end;
    assert FinishChars(o, e1) == [PAD] + FinishChars(o, e2) == [PAD, PAD] + end;
  }

  lemma WholeBody(o: E.Options, input: seq<byte>)
    requires |input| % 3 == 0
    ensures Encoded(input) == Chars(input) && Body(o, input) == BrokenLines(o, Chars(input))
  {
    hide Broken, L.Full, E.Eol, Chars;
    assert input[..|input|] == input && input[|input|..] == [];
    assert Encoded([]) == [] by { EncodedLength([]); }
  }

  /** Whole groups and one or two more bytes. */
  lemma PartBody(o: E.Options, head: seq<byte>, tail: seq<byte>)
    requires |head| % 3 == 0 && 1 <= |tail| <= 2
    ensures Chars(head + tail) == Chars(head) + Chars(tail) && |head + tail| % 3 == |tail|
    ensures Body(o, head + tail) == BrokenLines(o, Chars(head)) + Encoded(tail)
  {
    hide BrokenLines, Chars, Padding;
    Remains(|head|, |tail|);
    CharsAppend(head, tail);
    assert (head + tail)[..|head|] == head && (head + tail)[|head|..] == tail;
    assert Encoded(head) == Chars(head) by { NoPads(head); }
  }

  lemma Remains(m: nat, n: nat)
    requires m % 3 == 0 && n < 3
    ensures (m + n) % 3 == n
  {
  }

  lemma NoPads(s: seq<byte>)
    requires |s| % 3 == 0
    ensures Encoded(s) == Chars(s)
  {
    hide Chars;
  }

  lemma ClosedS0(o: E.Options, input: seq<byte>, t: seq<byte>, e: E.Coding)
    requires E.Encoding(input, t, e) && Lined(o, t, e) && e.state.S0?
    ensures t + FinishChars(o, E.FinishEntry(o, e)) ==
            Body(o, input) + if Closes(o, input, false) then E.Eol(o) else []
  {
    WholeBody(o, input);
    FinalLineEnd(o, e);
    hide FinishChars, Body, BrokenLines, Chars, Strip, E.Eol;
  }

  lemma ClosedS3(o: E.Options, input: seq<byte>, t: seq<byte>, e: E.Coding)
    requires E.Encoding(input, t, e) && Lined(o, t, e) && e.state.S3? && o.lineMax % 4 == 0
    ensures t + FinishChars(o, e) ==
            Body(o, input) + if Closes(o, input, Dangling(o, e)) then E.Eol(o) else []
    ensures Dangling(o, e) ==> LastLineFull(o, input)
  {
    hide FinishChars, Body, BrokenLines, Chars, Strip, E.Eol, Char64;
    WholeBody(o, input);
    LastQuartetForms(o, e);
    var c := Char64(e.last % 64);
    CharLined(o, t, c);
    var due := if e.lineLen + 1 >= o.lineMax then E.Eol(o) else [];
    assert Body(o, input) == t + [c] + due;
    Grouped(t, [c], due);
    Grouped(t, [c], if o.noFinalNewline then [] else E.Eol(o));
    assert t + [c] + [] == t + [c];
  }

  lemma Grouped<T>(a: seq<T>, b: seq<T>, c: seq<T>)
    ensures a + (b + c) == a + b + c
  {
  }

  lemma NothingIsNoLine(o: E.Options)
    ensures BrokenLines(o, Chars([])) == []
  {
  }

  lemma ClosedLineEnd(o: E.Options, input: seq<byte>, t: seq<byte>, e: E.Coding)
    requires E.Encoding(input, t, e) && Lined(o, t, e) && (e.state.OutputCrLf? || e.state.OutputLf?)
    ensures t + FinishChars(o, e) == Body(o, input) && Dangling(o, e) && LastLineFull(o, input)
  {
    hide FinishChars, Body, BrokenLines, Chars, Strip, Encoded, L.Full, Place;
    WholeBody(o, input);
    NothingIsNoLine(o);
    LineEndForms(o, e);
  }

  lemma ClosedS1(o: E.Options, head: seq<byte>, b: byte, t: seq<byte>, e: E.Coding)
    requires |head| % 3 == 0 && E.Encoding(head + [b], t, e) && Lined(o, t, e) && e.state.S1? && o.lineMax % 4 == 0
    ensures t + FinishChars(o, e) ==
            Body(o, head + [b]) + if Closes(o, head + [b], false) then E.Eol(o) else []
  {
    hide *;
    var u := Chars(head);
    var x, y := ShortOne(b);
    PaddedForms(o, e);
    PartBody(o, head, [b]);
    var c := PendingS1(o, head + [b], t, e);
    assert u + [x, y] == u + [x] + [y];
    SameInit(Strip(t), c, u + [x], y);
    MiddleOfLine(o, t, e);
    OnOneLine(o, u, x, t);
    PartCloses(o, head, [b]);
    Regrouped(BrokenLines(o, u), [x], [y, PAD, PAD], if Closes(o, head + [b], false) then E.Eol(o) else []);
    assert [x] + [y, PAD, PAD] == [x, y, PAD, PAD];
  }

  lemma ShortOne(b: byte) returns (x: byte, y: byte)
    ensures Chars([b]) == [x, y] && Encoded([b]) == [x, y, PAD, PAD]
  {
    x, y := Char64(b / 4), Char64(b % 4 * 16);
    hide Char64;
  }

  lemma ShortTwo(a: byte, b: byte) returns (x: byte, y: byte, z: byte)
    ensures Chars([a, b]) == [x, y, z] && Encoded([a, b]) == [x, y, z, PAD]
  {
    x, y, z := Char64(a / 4), Char64(a % 4 * 16 + b / 16), Char64(b % 16 * 4);
    hide Char64;
  }

  lemma PendingS1(o: E.Options, c: seq<byte>, t: seq<byte>, e: E.Coding) returns (last: byte)
    requires E.Encoding(c, t, e) && Lined(o, t, e) && e.state.S1?
    ensures last == Char64(e.last % 4 * 16) && Strip(t) + [last] == Chars(c)
    ensures t == BrokenLines(o, Strip(t)) && Place(o, Strip(t)) != 0
  {
    last := Char64(e.last % 4 * 16);
    hide Char64, Strip, Chars, BrokenLines, L.Full, Place;
  }

  lemma PendingS2(o: E.Options, c: seq<byte>, t: seq<byte>, e: E.Coding) returns (last: byte)
    requires E.Encoding(c, t, e) && Lined(o, t, e) && e.state.S2?
    ensures last == Char64(e.last % 16 * 4) && Strip(t) + [last] == Chars(c)
    ensures t == BrokenLines(o, Strip(t)) && Place(o, Strip(t)) >= 2
  {
    last := Char64(e.last % 16 * 4);
    hide Char64, Strip, Chars, BrokenLines, L.Full, Place;
  }

  lemma PartCloses(o: E.Options, head: seq<byte>, tail: seq<byte>)
    requires |head + tail| % 3 != 0
    ensures Closes(o, head + tail, false) <==> !o.noFinalNewline || o.lineMax == 0
  {
  }

  lemma Regrouped<T>(a: seq<T>, b: seq<T>, c: seq<T>, d: seq<T>)
    ensures a + b + (c + d) == a + (b + c) + d
  {
  }

  /** Two characters into a quartet or less, the line has room unless the maximum is none at all. */
  lemma MiddleOfLine(o: E.Options, t: seq<byte>, e: E.Coding)
    requires o.lineMax % 4 == 0 && Lined(o, t, e) && (e.state.S1? || e.state.S2?)
    ensures e.lineLen + 1 >= o.lineMax <==> o.lineMax == 0
  {
    hide Strip, BrokenLines, L.Full, Place;
    PlaceIsOnLine(o, Strip(t));
    FullIs(o);
  }

  /** Without their last characters equal texts are equal. */
  lemma SameInit(s: seq<byte>, c: byte, u: seq<byte>, d: byte)
    requires s + [c] == u + [d]
    ensures s == u && c == d
  {
    assert s == (s + [c])[..|s|] && u == (u + [d])[..|u|];
    assert (s + [c])[|s|] == c && (u + [d])[|u|] == d;
  }

  /** A character that does not fill a line. */
  lemma OnOneLine(o: E.Options, u: seq<byte>, x: byte, t: seq<byte>)
    requires t == BrokenLines(o, u + [x]) && Place(o, u + [x]) != 0
    ensures t == BrokenLines(o, u) + [x] && Place(o, u) == Place(o, u + [x]) - 1
  {
    hide Broken, L.Full, E.Eol;
    NextPlace(|u|, L.Full(o));
    BrokenSnoc(u, x, L.Full(o), E.Eol(o));
    assert BrokenLines(o, u) + [x] + [] == BrokenLines(o, u) + [x];
  }

  lemma ClosedS2(o: E.Options, head: seq<byte>, a: byte, b: byte, t: seq<byte>, e: E.Coding)
    requires |head| % 3 == 0 && E.Encoding(head + [a, b], t, e) && Lined(o, t, e) && e.state.S2? && o.lineMax % 4 == 0
    ensures t + FinishChars(o, e) ==
            Body(o, head + [a, b]) + if Closes(o, head + [a, b], false) then E.Eol(o) else []
  {
    hide *;
    var u := Chars(head);
    var x, y, z := ShortTwo(a, b);
    PaddedForms(o, e);
    PartBody(o, head, [a, b]);
    var c := PendingS2(o, head + [a, b], t, e);
    assert u + [x, y, z] == u + [x] + [y] + [z];
    SameInit(Strip(t), c, u + [x] + [y], z);
    MiddleOfLine(o, t, e);
    OnOneLine(o, u + [x], y, t);
    OnOneLine(o, u, x, BrokenLines(o, u + [x]));
    PartCloses(o, head, [a, b]);
    Grouped(BrokenLines(o, u), [x], [y]);
    Regrouped(BrokenLines(o, u), [x, y], [z, PAD], if Closes(o, head + [a, b], false) then E.Eol(o) else []);
    assert [x] + [y] == [x, y] && [x, y] + [z, PAD] == [x, y, z, PAD];
  }

  /** The whole text of any complete encoding in calls: the Base64 text broken in lines of the maximum (at
      least a quartet), and a line end where Closes says so. */
  lemma WholeText(o: E.Options, input: seq<byte>, calls: seq<Call>, finish: seq<Call>)
    requires o.lineMax % 4 == 0 && Complete(o, input, calls, finish)
    ensures TextOf(o, input, calls, finish) ==
            Body(o, input) +
            if Closes(o, input, Dangling(o, EncodeCalls(o, input, calls).state)) then E.Eol(o) else []
    ensures Dangling(o, EncodeCalls(o, input, calls).state) ==> LastLineFull(o, input)
  {
    hide Session, FinishCalls, FinishChars, Body, Lined, E.Encoding, E.Eol;
    var r := EncodeCalls(o, input, calls);
    Begun(o, input, calls);
    AllOfFinish(o, r.state, finish);
    E.EncodingStates(input, r.out, r.state);
    TailLength(input, r.out, r.state);
    if r.state.state.S0? {
      ClosedS0(o, input, r.out, r.state);
    } else if r.state.state.S1? {
      var head, tail := CutGroups(input);
      assert tail == [tail[0]];
      ClosedS1(o, head, tail[0], r.out, r.state);
    } else if r.state.state.S2? {
      var head, tail := CutGroups(input);
      assert tail == [tail[0], tail[1]];
      ClosedS2(o, head, tail[0], tail[1], r.out, r.state);
    } else if r.state.state.S3? {
      ClosedS3(o, input, r.out, r.state);
    } else {
      ClosedLineEnd(o, input, r.out, r.state);
      assert Body(o, input) + [] == Body(o, input);
    }
  }

  lemma CutGroups(s: seq<byte>) returns (head: seq<byte>, tail: seq<byte>)
    ensures s == head + tail && |head| % 3 == 0 && |tail| == |s| % 3
  {
    E.WholeGroups(|s|);
    head, tail := s[..|s| - |s| % 3], s[|s| - |s| % 3..];
  }

  lemma TailLength(input: seq<byte>, t: seq<byte>, e: E.Coding)
    requires E.Encoding(input, t, e)
    ensures e.state.S1? ==> |input| % 3 == 1
    ensures e.state.S2? ==> |input| % 3 == 2
  {
  }

  lemma Begun(o: E.Options, input: seq<byte>, calls: seq<Call>)
    requires o.lineMax % 4 == 0 && EncodeCalls(o, input, calls).pos == |input|
    ensures var r := EncodeCalls(o, input, calls); E.Encoding(input, r.out, r.state) && Lined(o, r.out, r.state)
  {
    hide Session, E.Encoding;
    E.StartEncodes();
    assert Lined(o, [], E.START) by {
      assert Strip([]) == [] && Broken([], L.Full(o), E.Eol(o)) == [];
      Quotient(0, 0, 0, L.Full(o));
    }
    hide Lined;
    EncodeSessionKeeps(o, [], [], E.START, input, 0, calls);
    CallsLined(o, [], E.START, input, 0, calls);
    var r := EncodeCalls(o, input, calls);
    assert [] + input[0..|input|] == input && [] + r.out == r.out;
  }

  // ---- How the text ends ----

  predicate EndsWith(t: seq<byte>, end: seq<byte>) {
    |end| <= |t| && t[|t| - |end|..] == end
  }

  lemma EndsBehind(t: seq<byte>, end: seq<byte>)
    ensures EndsWith(t + end, end)
  {
  }

  lemma EndOfLines(o: E.Options, u: seq<byte>)
    requires u != [] ==> u[|u| - 1] != LF
    ensures var full := u != [] && Place(o, u) == 0;
            (EndsWith(BrokenLines(o, u), [LF]) <==> full) && (full ==> EndsWith(BrokenLines(o, u), E.Eol(o)))
  {
    hide L.Full;
    if u != [] {
      var t := Broken(u[..|u| - 1], L.Full(o), E.Eol(o)) + [u[|u| - 1]];
      if |u| % L.Full(o) == 0 {
        EndsBehind(t, E.Eol(o));
      } else {
        assert BrokenLines(o, u) == t;
      }
    }
  }

  /** The text of any complete encoding in calls ends in a line end if a final one is wanted, and otherwise
      if and only if its last line is full: without pads in fact, with pads if the maximum is no quartet. It
      is then the line end of the options. */
  lemma EndsInLineEndIff(o: E.Options, input: seq<byte>, calls: seq<Call>, finish: seq<Call>)
    requires o.lineMax % 4 == 0 && Complete(o, input, calls, finish)
    ensures var t := TextOf(o, input, calls, finish);
            && (EndsWith(t, [LF]) ==> EndsWith(t, E.Eol(o)))
            && (EndsWith(t, [LF]) <==>
                !o.noFinalNewline || LastLineFull(o, input) || (|input| % 3 != 0 && o.lineMax == 0))
  {
    WholeText(o, input, calls, finish);
    var dangling := Dangling(o, EncodeCalls(o, input, calls).state);
    var body := Body(o, input);
    hide TextOf, EncodeCalls, Body, Complete, L.Full, Dangling, Place;
    if Closes(o, input, dangling) {
      EndsBehind(body, E.Eol(o));
    } else {
      assert body + [] == body;
      if |input| % 3 == 0 {
        WholeBody(o, input);
        CharsAreNotEol(input);
        NothingFromNothing(input);
        hide Chars, Encoded, BrokenLines;
        EndOfLines(o, Chars(input));
      } else {
        EndsInPad(o, input);
      }
    }
  }

  lemma NothingFromNothing(input: seq<byte>)
    ensures Chars(input) == [] <==> input == []
  {
    hide Char64;
  }

  lemma EndsInPad(o: E.Options, input: seq<byte>)
    requires |input| % 3 != 0
    ensures !EndsWith(Body(o, input), [LF])
  {
    var head, tail := CutGroups(input);
    hide BrokenLines, Chars;
    var t := Body(o, input);
    assert t[|t| - 1] == PAD;
  }
}
