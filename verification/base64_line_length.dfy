/** The lines of encoded text. RFC 2045, section 6.8, limits them to 76 characters; the encoder of
    base64.c is given a maximum, and this is what it makes of it, in any calls. */
module Base64LineLength {
  import opened Bytes
  import opened Base64Text
  import opened Streams
  import E = Base64Encoder
  import opened Base64EncoderBuffers
  import Base64RoundTrip

  /** The longest line. */
  function Widest(t: seq<byte>): (w: nat)
    ensures Column(t) <= w
  {
    if t == [] then 0
    else
      var w := Widest(t[..|t| - 1]);
      if w < Column(t) then Column(t) else w
  }

  /** Every line that was ended has exactly `n` characters. */
  predicate AllEndedAt(t: seq<byte>, n: nat) {
    t != [] ==>
      && AllEndedAt(t[..|t| - 1], n)
      && (t[|t| - 1] == LF ==> Column(t[..|t| - 1]) == n)
  }

  lemma OneMore(t: seq<byte>, c: byte)
    ensures Column(t + [c]) == if c == LF then 0 else if c == CR then Column(t) else Column(t) + 1
    ensures var n := Column(t + [c]); Widest(t + [c]) == if Widest(t) < n then n else Widest(t)
    ensures forall n: nat :: AllEndedAt(t + [c], n) <==> AllEndedAt(t, n) && (c == LF ==> Column(t) == n)
  {
    ColumnMoves(t, c);
    assert (t + [c])[..|t + [c]| - 1] == t;
  }

  /** The length of a full line: the maximum in whole quartets, but at least one. */
  function Full(o: E.Options): (n: nat)
    ensures n >= 4
  {
    if o.lineMax < 4 then 4 else o.lineMax
  }

  /** In each state of encode, where the current line stands. */
  ghost predicate InLine(o: E.Options, t: seq<byte>, e: E.Coding) {
    && Widest(t) <= Full(o) && AllEndedAt(t, Full(o))
    && match e.state
       case S0 => Column(t) == e.lineLen && e.lineLen % 4 == 0 && Column(t) + 4 <= Full(o)
       case S1 => Column(t) == e.lineLen && e.lineLen % 4 == 1 && Column(t) + 3 <= Full(o)
       case S2 => Column(t) == e.lineLen && e.lineLen % 4 == 2 && Column(t) + 2 <= Full(o)
       case S3 => Column(t) == e.lineLen && e.lineLen % 4 == 3 && Column(t) + 1 <= Full(o)
       case OutputCrLf => Column(t) == Full(o) && e.lineLen == 0
       case OutputLf => Column(t) == Full(o) && e.lineLen == 0
       case _ => false
  }

  lemma DrainInLine(o: E.Options, t: seq<byte>, e: E.Coding)
    requires o.lineMax % 4 == 0 && InLine(o, t, e) && E.EncodeDrain(o, e).Put?
    ensures var d := E.EncodeDrain(o, e); InLine(o, t + [d.c], d.next)
  {
    hide Char64, Column, Widest, AllEndedAt;
    OneMore(t, E.EncodeDrain(o, e).c);
  }

  lemma FeedInLine(o: E.Options, t: seq<byte>, e: E.Coding, b: byte)
    requires InLine(o, t, e) && E.EncodeFeed(e, b).Convert?
    ensures var f := E.EncodeFeed(e, b); InLine(o, t + [f.c], f.next)
  {
    hide Char64, Column, Widest, AllEndedAt;
    OneMore(t, E.EncodeFeed(e, b).c);
  }

  lemma {:induction false} CallInLine(o: E.Options, t: seq<byte>, e: E.Coding,
                                       input: seq<byte>, pos: nat, end: nat, room: nat)
    requires o.lineMax % 4 == 0 && pos <= end <= |input| && InLine(o, t, e)
    ensures var r := Run(E.Encoder(o), e, input, pos, end, room); InLine(o, t + r.out, r.state)
    decreases end - pos + room
  {
    hide Run, Act, InLine, E.EncodeDrain, E.EncodeFeed;
    var m := E.Encoder(o);
    E.EncoderAct(o, e, input, pos, end);
    var a := Act(m, e, input, pos, end);
    if room == 0 || a.Stop? {
      RunStop(m, e, input, pos, end, room);
      assert t + [] == t;
    } else {
      RunMove(m, e, input, pos, end, room);
      if E.EncodeDrain(o, e).Put? {
        DrainInLine(o, t, e);
      } else {
        FeedInLine(o, t, e, input[pos]);
      }
      CallInLine(o, t + a.out, a.next, input, a.pos, end, room - |a.out|);
      var r := Run(m, a.next, input, a.pos, end, room - |a.out|);
      assert t + a.out + r.out == t + (a.out + r.out);
    }
  }

  lemma {:induction false} CallsInLine(o: E.Options, t: seq<byte>, e: E.Coding,
                                        input: seq<byte>, pos: nat, calls: seq<Call>)
    requires o.lineMax % 4 == 0 && pos <= |input| && InLine(o, t, e)
    ensures var r := Session(E.Encoder(o), e, input, pos, calls); InLine(o, t + r.out, r.state)
    decreases |calls|
  {
    hide Run, Act, InLine;
    if calls == [] {
      assert t + [] == t;
    } else {
      var shown := Shown(input, pos, calls[0].avail);
      var r := Run(E.Encoder(o), e, input, pos, shown, calls[0].room);
      CallInLine(o, t, e, input, pos, shown, calls[0].room);
      CallsInLine(o, t + r.out, r.state, input, r.pos, calls[1..]);
      var r' := Session(E.Encoder(o), r.state, input, r.pos, calls[1..]);
      assert t + r.out + r'.out == t + (r.out + r'.out);
    }
  }

  /** In each state of finish, what still fits on the current line: padding does not count in mLineLen. */
  ghost predicate Closing(o: E.Options, t: seq<byte>, e: E.Coding) {
    && Widest(t) <= Full(o)
    && match e.state
       case S1 => Column(t) + 3 <= Full(o)
       case S2 => Column(t) + 2 <= Full(o)
       case S3 => Column(t) + 1 <= Full(o)
       case OutputEqEq => Column(t) + 2 <= Full(o)
       case OutputEq => Column(t) + 1 <= Full(o)
       case _ => true
  }

  lemma FinishCloses(o: E.Options, t: seq<byte>, e: E.Coding)
    requires Closing(o, t, e) && E.FinishDrain(o, e).Put?
    ensures var d := E.FinishDrain(o, e); Closing(o, t + [d.c], d.next)
  {
    hide Char64, Column, Widest;
    OneMore(t, E.FinishDrain(o, e).c);
  }

  lemma {:induction false} FinishCallCloses(o: E.Options, t: seq<byte>, e: E.Coding, room: nat)
    requires Closing(o, t, e)
    ensures var r := Run(E.Finisher(o), e, [], 0, 0, room); Closing(o, t + r.out, r.state)
    decreases room
  {
    hide Run, Act, Closing, E.FinishDrain;
    var m := E.Finisher(o);
    E.FinisherAct(o, e);
    var a := Act(m, e, [], 0, 0);
    if room == 0 || a.Stop? {
      RunStop(m, e, [], 0, 0, room);
      assert t + [] == t;
    } else {
      RunMove(m, e, [], 0, 0, room);
      FinishCloses(o, t, e);
      FinishCallCloses(o, t + a.out, a.next, room - 1);
      var r := Run(m, a.next, [], 0, 0, room - 1);
      assert t + a.out + r.out == t + (a.out + r.out);
    }
  }

  lemma {:induction false} FinishCallsClose(o: E.Options, t: seq<byte>, e: E.Coding, calls: seq<Call>)
    requires Closing(o, t, e)
    ensures var r := Session(E.Finisher(o), e, [], 0, calls); Closing(o, t + r.out, r.state)
    decreases |calls|
  {
    hide Run, Act, Closing;
    if calls == [] {
      assert t + [] == t;
    } else {
      var r := Run(E.Finisher(o), e, [], 0, 0, calls[0].room);
      FinishCallCloses(o, t, e, calls[0].room);
      FinishCallsClose(o, t + r.out, r.state, calls[1..]);
      var r' := Session(E.Finisher(o), r.state, [], 0, calls[1..]);
      assert t + r.out + r'.out == t + (r.out + r'.out);
    }
  }

  /** In any calls, every line that encode ends is exactly full, and no line of the whole text is
      longer, padding included. The masked maximum is a multiple of four. */
  lemma LinesAreBounded(o: E.Options, input: seq<byte>, calls: seq<Call>, finish: seq<Call>)
    requires o.lineMax % 4 == 0
    ensures AllEndedAt(Base64RoundTrip.EncodeCalls(o, input, calls).out, Full(o))
    ensures Widest(Base64RoundTrip.TextOf(o, input, calls, finish)) <= Full(o)
  {
    hide Session, Run, Act;
    CallsInLine(o, [], E.START, input, 0, calls);
    var r := Base64RoundTrip.EncodeCalls(o, input, calls);
    assert [] + r.out == r.out;
    FinishCallsClose(o, r.out, E.FinishEntry(o, r.state), finish);
    Base64RoundTrip.FinishIsSession(o, r.state, finish);
  }

  // ---- The fast encoder ----

  lemma {:induction false} StripShortens(t: seq<byte>)
    ensures |Strip(t)| <= |t|
    ensures |Strip(t)| == |t| ==> forall i :: 0 <= i < |t| ==> t[i] != LF && t[i] != CR
    decreases |t|
  {
    if t != [] {
      StripShortens(t[..|t| - 1]);
    }
  }

  lemma {:induction false} OneLine(t: seq<byte>)
    requires forall i :: 0 <= i < |t| ==> t[i] != LF && t[i] != CR
    ensures Column(t) == |t|
    decreases |t|
  {
    if t != [] {
      OneLine(t[..|t| - 1]);
    }
  }

  /** One call of the fast encoder with buffers of three bytes and four characters. */
  method FastPiece(b: EncoderBuffers, piece: seq<byte>)
    requires |piece| == 3 && 4 <= b.maxLineLen < 0x8000_0000
    requires b.Core() == E.START && E.Encoding(b.Consumed, b.Emitted, b.Core())
    modifies b
    ensures b.maxLineLen == old(b.maxLineLen) && b.Core() == E.START
    ensures b.Consumed == old(b.Consumed) + piece && |b.Emitted| == |old(b.Emitted)| + 4
    ensures E.Encoding(b.Consumed, b.Emitted, b.Core())
  {
    hide E.Encoding, Follows, Column, E.Mask, E.FastLines, Run, Chars, E.EndedLines, E.Eol, Begins;
    GiveBuffers(b, piece, 4);
    b.MaskKeeps(b.maxLineLen);
    ghost var start := b.Now();
    ghost var head, lines, rest := b.EncodeFast();
    assert piece[0..3] == piece;
    OnePiece(b.Opts(), piece, lines, rest);
    RunStop(E.Encoder(b.Opts()), E.START, piece, 3, 3, 0);
    Grown(start, b.Now());
  }

  /** Three bytes and room for four characters: no line fits. */
  lemma OnePiece(o: E.Options, piece: seq<byte>, lines: seq<seq<byte>>, rest: seq<byte>)
    requires 4 <= o.lineMax < 0x8000_0000 && |piece| == 3 && E.FastLines(o, 0, piece, 4, lines, rest)
    ensures lines == [] && rest == piece && |Chars(rest)| == 4 && E.EndedLines(lines, E.Eol(o)) == []
  {
    hide Chars;
    CharsLength([], 0);
    assert |rest| == 3;
    CharsLength(rest, 1);
  }

  /** dw_b64encoder_encode_fast does not count what it writes without a line end, so its lines have no
      bound: whatever the maximum, input in pieces of three bytes and room for four characters each
      becomes a single line. */
  method FastLineNeverEnds(b: EncoderBuffers, pieces: seq<seq<byte>>)
    requires 4 <= b.maxLineLen < 0x8000_0000 && forall k :: 0 <= k < |pieces| ==> |pieces[k]| == 3
    modifies b
    ensures b.Consumed == Flatten(pieces) && E.Encoding(b.Consumed, b.Emitted, b.Core())
    ensures Column(b.Emitted) == |b.Emitted| == 4 * |pieces|
  {
    hide E.Encoding, Follows, Column;
    b.Start();
    assert pieces[..0] == [];
    for k := 0 to |pieces|
      invariant b.maxLineLen == old(b.maxLineLen) && b.Core() == E.START && E.Encoding(b.Consumed, b.Emitted, b.Core())
      invariant b.Consumed == Flatten(pieces[..k]) && |b.Consumed| == 3 * k && |b.Emitted| == 4 * k
    {
      FastPiece(b, pieces[k]);
      assert pieces[..k + 1] == pieces[..k] + [pieces[k]];
      FlattenAppend(pieces[..k], pieces[k]);
    }
    assert pieces[..|pieces|] == pieces;
    CharsLength(b.Consumed, |pieces|);
    assert Strip(b.Emitted) == Chars(b.Consumed) by { InS0(b.Consumed, b.Emitted, b.Core()); }
    StripShortens(b.Emitted);
    OneLine(b.Emitted);
  }

  lemma InS0(c: seq<byte>, t: seq<byte>, e: E.Coding)
    requires E.Encoding(c, t, e) && e.state.S0?
    ensures Strip(t) == Chars(c)
  {
  }
}
