/** What the coders of base64.c are for: a stream encoded in any number of calls and decoded in any
    number of calls comes back, and how far the encoded text depends on the calls. */
module Base64RoundTrip {
  import opened Bytes
  import opened Base64Text
  import opened Streams
  import E = Base64Encoder
  import D = Base64Decoder

  // ---- The decoder on text with line ends ----

  /** `u` is what remains of `t` from `pos` when line ends are removed. */
  ghost predicate Rest(t: seq<byte>, pos: nat, u: seq<byte>, at: nat) {
    pos <= |t| && at <= |u| && Strip(t[pos..]) == u[at..]
  }

  lemma RestStep(t: seq<byte>, pos: nat, u: seq<byte>, at: nat)
    requires Rest(t, pos, u, at) && pos < |t|
    ensures if t[pos] == LF || t[pos] == CR then Rest(t, pos + 1, u, at)
            else at < |u| && t[pos] == u[at] && Rest(t, pos + 1, u, at + 1)
  {
    var c := t[pos];
    assert t[pos..] == [c] + t[pos + 1..];
    StripConcat([c], t[pos + 1..]);
    assert Strip([c]) == if c == LF || c == CR then [] else [c] by {
      assert [c][..0] == [];
    }
    if c != LF && c != CR {
      var s := Strip(t[pos + 1..]);
      assert Strip(t[pos..]) == [c] + s;
      assert ([c] + s)[1..] == s;
      assert u[at..][1..] == u[at + 1..];
    }
  }

  /** Line ends make no difference to what the decoder reaches and produces. */
  lemma {:induction false} LineEndsIgnored(d: D.Decoding, t: seq<byte>, pos: nat, u: seq<byte>, at: nat, room: nat)
    requires Rest(t, pos, u, at)
    ensures var r, r' := Run(D.DECODER, d, t, pos, |t|, room), Run(D.DECODER, d, u, at, |u|, room);
            r.state == r'.state && r.out == r'.out
    decreases |t| - pos
  {
    hide Run, Act, D.Feed, Strip, Rest;
    RestBounds(t, pos, u, at);
    if room == 0 || d.state.Done? {
      D.CallEnds(d, t, pos, |t|);
      D.CallEnds(d, u, at, |u|);
      RunStop(D.DECODER, d, t, pos, |t|, room);
      RunStop(D.DECODER, d, u, at, |u|, room);
    } else if pos == |t| {
      D.CallEnds(d, t, pos, |t|);
      D.CallEnds(d, u, at, |u|);
      RunStop(D.DECODER, d, t, pos, |t|, room);
      RunStop(D.DECODER, d, u, at, |u|, room);
    } else {
      RestStep(t, pos, u, at);
      D.OneCharacter(d, t, pos, |t|);
      RunMove(D.DECODER, d, t, pos, |t|, room);
      if t[pos] == LF || t[pos] == CR {
        EolIsSkipped(d, t[pos]);
        LineEndsIgnored(d, t, pos + 1, u, at, room);
      } else {
        D.OneCharacter(d, u, at, |u|);
        RunMove(D.DECODER, d, u, at, |u|, room);
        var a := Act(D.DECODER, d, t, pos, |t|);
        LineEndsIgnored(a.next, t, pos + 1, u, at + 1, room - |a.out|);
      }
    }
  }

  lemma RestBounds(t: seq<byte>, pos: nat, u: seq<byte>, at: nat)
    requires Rest(t, pos, u, at)
    ensures pos <= |t| && at <= |u| && (pos == |t| ==> at == |u|)
  {
    if pos == |t| {
      assert t[pos..] == [];
    }
  }

  lemma EolIsSkipped(d: D.Decoding, c: byte)
    requires !d.state.Done? && (c == LF || c == CR)
    ensures D.Feed(d, c) == Take(d)
  {
  }

  // ---- The decoder on encoded text ----

  /** Where the decoder is after the text of `n` bytes: padding ends the data. */
  function After(n: nat): D.Decoding {
    if n % 3 == 0 then D.START else D.Decoding(D.Done, 0, false)
  }

  /** The decoder on the one-shot encoding of `c` produces `c`. */
  lemma {:induction false} DecodesEncoded(c: seq<byte>, u: seq<byte>, at: nat, room: nat)
    requires at <= |u| && u[at..] == Encoded(c) && room > |c|
    ensures var r := Run(D.DECODER, D.START, u, at, |u|, room);
            r.state == After(|c|) && r.out == c
    decreases |c|
  {
    hide Encoded, Run, Act;
    if |c| >= 3 {
      DecodesGroup(c, u, at, room);
      var rest := Run(D.DECODER, D.START, u, at + 4, |u|, room - 3);
      assert u[at + 4..] == u[at..][4..];
      DecodesEncoded(c[3..], u, at + 4, room - 3);
      assert c[..3] + c[3..] == c;
    } else if c == [] {
      assert Encoded([]) == [] by { EncodedLength([]); }
      D.CallEnds(D.START, u, at, |u|);
      RunStop(D.DECODER, D.START, u, at, |u|, room);
    } else if |c| == 1 {
      assert c == [c[0]];
      DecodesOne(c[0], u, at, room);
    } else {
      assert c == [c[0], c[1]];
      DecodesTwo(c[0], c[1], u, at, room);
    }
  }

  lemma DecodesGroup(c: seq<byte>, u: seq<byte>, at: nat, room: nat)
    requires |c| >= 3 && at <= |u| && u[at..] == Encoded(c) && room > |c|
    ensures at + 4 <= |u| && u[at..][4..] == Encoded(c[3..])
    ensures Begins(D.DECODER, D.START, u, at, |u|, room, Result(D.START, at + 4, c[..3]))
  {
    hide Begins, Char64, Value64, D.Cut24;
    var q := Quartet(c[0], c[1], c[2]);
    assert Encoded(c) == q + Encoded(c[3..]);
    assert u[at..][..4] == q;
    assert forall k :: 0 <= k < 4 ==> u[at + k] == q[k];
    ValueOfChar(c[0] / 4);
    ValueOfChar(c[0] % 4 * 16 + c[1] / 16);
    ValueOfChar(c[1] % 16 * 4 + c[2] / 64);
    ValueOfChar(c[2] % 64);
    D.QuartetMoves(D.START, u, at, |u|, room);
    D.Cut24Values(c[0] / 4, c[0] % 4 * 16 + c[1] / 16, c[1] % 16 * 4 + c[2] / 64, c[2] % 64);
    assert c[..3] == [c[0], c[1], c[2]];
    PiecesJoin(c[0], c[1], c[2]);
  }

  /** The moves on an alphabet character and on a pad, in the shape BeginsMove uses. */
  lemma Reads(d: D.Decoding, u: seq<byte>, pos: nat, n: int)
    requires pos < |u| && !d.state.Done? && 0 <= n < 64 && u[pos] == Char64(n)
    ensures Act(D.DECODER, d, u, pos, |u|) ==
            match d.state
            case S0 => Move(D.Decoding(D.S1, n, d.error), pos + 1, [])
            case S1 => Move(D.Decoding(D.S2, n, d.error), pos + 1, [(d.last * 4 + n / 16) % 256])
            case S2 => Move(D.Decoding(D.S3, n, d.error), pos + 1, [(d.last * 16 + n / 4) % 256])
            case S3 => Move(D.Decoding(D.S0, 0, d.error), pos + 1, [(d.last * 64 + n) % 256])
  {
    hide Act, Char64, Value64;
    ValueOfChar(n);
    D.OneCharacter(d, u, pos, |u|);
  }

  lemma ReadsPad(d: D.Decoding, u: seq<byte>, pos: nat)
    requires pos < |u| && !d.state.Done? && u[pos] == PAD
    ensures Act(D.DECODER, d, u, pos, |u|) == Move(D.Decoding(D.Done, 0, d.error), pos + 1, [])
  {
    hide Act;
    D.OneCharacter(d, u, pos, |u|);
  }

  lemma DecodesOne(a: byte, u: seq<byte>, at: nat, room: nat)
    requires at <= |u| && u[at..] == Encoded([a]) && room > 1
    ensures var r := Run(D.DECODER, D.START, u, at, |u|, room);
            r.state == After(1) && r.out == [a]
  {
    hide Run, Act, Char64, Begins;
    assert u[at..][0] == u[at] && u[at..][1] == u[at + 1] && u[at..][2] == u[at + 2];
    Reads(D.START, u, at, a / 4);
    RunMove(D.DECODER, D.START, u, at, |u|, room);
    var d1 := D.Decoding(D.S1, a / 4, false);
    Reads(d1, u, at + 1, a % 4 * 16);
    RunMove(D.DECODER, d1, u, at + 1, |u|, room);
    var d2 := D.Decoding(D.S2, a % 4 * 16, false);
    ReadsPad(d2, u, at + 2);
    RunMove(D.DECODER, d2, u, at + 2, |u|, room - 1);
    D.CallEnds(After(1), u, at + 3, |u|);
    RunStop(D.DECODER, After(1), u, at + 3, |u|, room - 1);
    assert (a / 4 * 4 + a % 4 * 16 / 16) % 256 == a;
  }

  lemma DecodesTwo(a: byte, b: byte, u: seq<byte>, at: nat, room: nat)
    requires at <= |u| && u[at..] == Encoded([a, b]) && room > 2
    ensures var r := Run(D.DECODER, D.START, u, at, |u|, room);
            r.state == After(2) && r.out == [a, b]
  {
    hide Run, Act, Char64, Begins;
    assert u[at..][0] == u[at] && u[at..][1] == u[at + 1] && u[at..][2] == u[at + 2] && u[at..][3] == u[at + 3];
    var m := a % 4 * 16 + b / 16;
    Reads(D.START, u, at, a / 4);
    RunMove(D.DECODER, D.START, u, at, |u|, room);
    var d1 := D.Decoding(D.S1, a / 4, false);
    Reads(d1, u, at + 1, m);
    RunMove(D.DECODER, d1, u, at + 1, |u|, room);
    var d2 := D.Decoding(D.S2, m, false);
    Reads(d2, u, at + 2, b % 16 * 4);
    RunMove(D.DECODER, d2, u, at + 2, |u|, room - 1);
    var d3 := D.Decoding(D.S3, b % 16 * 4, false);
    ReadsPad(d3, u, at + 3);
    RunMove(D.DECODER, d3, u, at + 3, |u|, room - 2);
    D.CallEnds(After(2), u, at + 4, |u|);
    RunStop(D.DECODER, After(2), u, at + 4, |u|, room - 2);
    PiecesJoin(a, b, 0);
  }

  /** Any text that is the encoding of `c` once line ends are removed decodes to `c` without error,
      in whatever calls the decoder is given it, as soon as they have come to the end of the data. */
  lemma DecodesInAnyCalls(c: seq<byte>, t: seq<byte>, calls: seq<Call>)
    requires Strip(t) == Encoded(c)
    ensures var r := Session(D.DECODER, D.START, t, 0, calls);
            && r.out <= c
            && (r.pos == |t| || r.state.state.Done? ==> r.out == c && r.state == After(|c|))
  {
    hide Run, Act, Session, Strip, Char64;
    var room := TotalRoom(calls) + |c| + 1;
    assert t[0..] == t && Encoded(c)[0..] == Encoded(c);
    LineEndsIgnored(D.START, t, 0, Encoded(c), 0, room);
    DecodesEncoded(c, Encoded(c), 0, room);
    SessionIsPrefix(D.DECODER, D.START, t, 0, calls, room);
    var r := Session(D.DECODER, D.START, t, 0, calls);
    if r.pos == |t| || r.state.state.Done? {
      D.CallEnds(r.state, t, r.pos, |t|);
      BeginsAll(D.DECODER, D.START, t, 0, |t|, room, r);
    }
  }

  // ---- The encoder in any calls ----

  lemma {:induction false} EncodeSessionKeeps(o: E.Options, c: seq<byte>, t: seq<byte>, e: E.Coding,
                                              input: seq<byte>, pos: nat, calls: seq<Call>)
    requires pos <= |input| && E.Encoding(c, t, e)
    ensures var r := Session(E.Encoder(o), e, input, pos, calls);
            E.Encoding(c + input[pos..r.pos], t + r.out, r.state)
    decreases |calls|
  {
    hide Run, Act, E.Encoding;
    if calls == [] {
      assert c + input[pos..pos] == c && t + [] == t;
    } else {
      var shown := Shown(input, pos, calls[0].avail);
      var r := Run(E.Encoder(o), e, input, pos, shown, calls[0].room);
      E.EncodeKeeps(o, c, t, e, input, pos, shown, calls[0].room);
      EncodeSessionKeeps(o, c + input[pos..r.pos], t + r.out, r.state, input, r.pos, calls[1..]);
      var r' := Session(E.Encoder(o), r.state, input, r.pos, calls[1..]);
      assert c + input[pos..r.pos] + input[r.pos..r'.pos] == c + input[pos..r'.pos];
      assert t + r.out + r'.out == t + (r.out + r'.out);
    }
  }

  lemma {:induction false} FinishSessionKeeps(o: E.Options, c: seq<byte>, t: seq<byte>, e: E.Coding, calls: seq<Call>)
    requires E.Carries(c, t, e)
    ensures var r := Session(E.Finisher(o), e, [], 0, calls); E.Carries(c, t + r.out, r.state)
    decreases |calls|
  {
    hide Run, Act, E.Carries;
    if calls == [] {
      assert t + [] == t;
    } else {
      var r := Run(E.Finisher(o), e, [], 0, 0, calls[0].room);
      E.FinishKeeps(o, c, t, e, calls[0].room);
      FinishSessionKeeps(o, c, t + r.out, r.state, calls[1..]);
      var r' := Session(E.Finisher(o), r.state, [], 0, calls[1..]);
      assert t + r.out + r'.out == t + (r.out + r'.out);
    }
  }

  /** An encoding in calls: encode until the input is used up, then finish until it is done. */
  function EncodeCalls(o: E.Options, input: seq<byte>, calls: seq<Call>): Result<E.Coding> {
    Session(E.Encoder(o), E.START, input, 0, calls)
  }

  /** Calls of finish do nothing until one has room; that one sees to a suppressed final line end. */
  function FinishCalls(o: E.Options, e: E.Coding, calls: seq<Call>): Result<E.Coding>
    decreases |calls|
  {
    if calls == [] then Result(e, 0, [])
    else if calls[0].room == 0 then FinishCalls(o, e, calls[1..])
    else Session(E.Finisher(o), E.FinishEntry(o, e), [], 0, calls)
  }

  /** The calls of finish put what a session of the finishing machine puts, and get where it gets once
      one of them has room. */
  lemma {:induction false} FinishIsSession(o: E.Options, e: E.Coding, calls: seq<Call>)
    ensures var f, r := FinishCalls(o, e, calls), Session(E.Finisher(o), E.FinishEntry(o, e), [], 0, calls);
            && f.out == r.out && (f == r || f == Result(e, 0, []))
            && ((exists k :: 0 <= k < |calls| && calls[k].room > 0) ==> f == r)
    decreases |calls|
  {
    hide Run;
    if calls != [] && calls[0].room == 0 {
      RunStop(E.Finisher(o), E.FinishEntry(o, e), [], 0, 0, 0);
      FinishIsSession(o, e, calls[1..]);
      if k :| 0 <= k < |calls| && calls[k].room > 0 {
        assert calls[1..][k - 1].room > 0;
      }
    }
  }

  ghost predicate Complete(o: E.Options, input: seq<byte>, calls: seq<Call>, finish: seq<Call>) {
    var r := EncodeCalls(o, input, calls);
    r.pos == |input| && FinishCalls(o, r.state, finish).state.state.Done?
  }

  function TextOf(o: E.Options, input: seq<byte>, calls: seq<Call>, finish: seq<Call>): seq<byte> {
    var r := EncodeCalls(o, input, calls);
    r.out + FinishCalls(o, r.state, finish).out
  }

  /** For every input, every line length and every cut into calls: the text without its line ends is
      the Base64 text of the input, and decoding it in any calls gives the input back. */
  lemma RoundTrip(o: E.Options, input: seq<byte>, calls: seq<Call>, finish: seq<Call>, decode: seq<Call>)
    requires Complete(o, input, calls, finish)
    ensures var t := TextOf(o, input, calls, finish);
            && Strip(t) == Encoded(input)
            && var d := Session(D.DECODER, D.START, t, 0, decode);
               (d.pos == |t| || d.state.state.Done? ==> d.out == input && !d.state.error)
  {
    hide Session, Strip, Encoded;
    E.StartEncodes();
    EncodeSessionKeeps(o, [], [], E.START, input, 0, calls);
    var r := EncodeCalls(o, input, calls);
    assert [] + input[0..|input|] == input && [] + r.out == r.out;
    EntryKeeps(o, input, r.out, r.state);
    FinishSessionKeeps(o, input, r.out, E.FinishEntry(o, r.state), finish);
    FinishIsSession(o, r.state, finish);
    E.EncodingStates(input, r.out, r.state);
    DecodesInAnyCalls(input, TextOf(o, input, calls, finish), decode);
  }

  lemma EntryKeeps(o: E.Options, c: seq<byte>, t: seq<byte>, e: E.Coding)
    requires E.Carries(c, t, e)
    ensures E.Carries(c, t, E.FinishEntry(o, e))
  {
    if e.state.S0? {
      E.SuppressKeeps(c, t, e);
    }
  }

  // ---- When the text depends on the calls ----

  function Rank(s: E.State): nat {
    match s
    case S1 => 6 case S0 => 5 case OutputEqEq => 5 case S2 => 5 case OutputEq => 4 case S3 => 4
    case OutputCrLf => 2 case OutputLf => 1 case Done => 0
  }

  /** All that finish puts from `e`. */
  function FinishChars(o: E.Options, e: E.Coding): seq<byte>
    decreases Rank(e.state)
  {
    if e.state.Done? then []
    else var d := E.FinishDrain(o, e); [d.c] + FinishChars(o, d.next)
  }

  lemma {:induction false} FinishTo(o: E.Options, e: E.Coding, calls: seq<Call>)
    ensures var r := Session(E.Finisher(o), e, [], 0, calls);
            FinishChars(o, e) == r.out + FinishChars(o, r.state)
    decreases |calls|
  {
    hide Run, FinishChars;
    if calls != [] {
      var r := Run(E.Finisher(o), e, [], 0, 0, calls[0].room);
      FinishRun(o, e, calls[0].room);
      FinishTo(o, r.state, calls[1..]);
      var r' := Session(E.Finisher(o), r.state, [], 0, calls[1..]);
      assert r.out + (r'.out + FinishChars(o, r'.state)) == r.out + r'.out + FinishChars(o, r'.state);
    }
  }

  lemma {:induction false} FinishRun(o: E.Options, e: E.Coding, room: nat)
    ensures var r := Run(E.Finisher(o), e, [], 0, 0, room);
            FinishChars(o, e) == r.out + FinishChars(o, r.state)
    decreases room
  {
    hide Run, Act, E.FinishDrain;
    E.FinisherAct(o, e);
    if room == 0 || e.state.Done? {
      RunStop(E.Finisher(o), e, [], 0, 0, room);
    } else {
      RunMove(E.Finisher(o), e, [], 0, 0, room);
      var d := E.FinishDrain(o, e);
      FinishRun(o, d.next, room - 1);
      var r := Run(E.Finisher(o), d.next, [], 0, 0, room - 1);
      assert [d.c] + (r.out + FinishChars(o, r.state)) == [d.c] + r.out + FinishChars(o, r.state);
    }
  }

  function Due(s: E.State): nat {
    match s case S3 => 3 case OutputCrLf => 2 case OutputLf => 1 case _ => 0
  }

  /** What encode still puts from `e` without input, and the state it then waits in. */
  function Pending(o: E.Options, e: E.Coding): (r: (E.Coding, seq<byte>))
    decreases Due(e.state)
  {
    var d := E.EncodeDrain(o, e);
    if d.Nothing? then (e, [])
    else var p := Pending(o, d.next); (p.0, [d.c] + p.1)
  }

  /** Encoding without any calls: every character is put as soon as it is due. */
  function EncodeAll(o: E.Options, e: E.Coding, input: seq<byte>, pos: nat): (r: (E.Coding, seq<byte>))
    requires pos <= |input|
    decreases |input| - pos, Due(e.state)
  {
    var d := E.EncodeDrain(o, e);
    if d.Put? then var r := EncodeAll(o, d.next, input, pos); (r.0, [d.c] + r.1)
    else if pos == |input| then (e, [])
    else
      match E.EncodeFeed(e, input[pos])
      case Convert(next, c) => var r := EncodeAll(o, next, input, pos + 1); (r.0, [c] + r.1)
      case _ => (e, [])
  }

  ghost predicate EncodesTo(o: E.Options, e: E.Coding, input: seq<byte>, pos: nat, r: Result<E.Coding>)
    requires pos <= |input|
  {
    && r.pos <= |input|
    && var all := EncodeAll(o, r.state, input, r.pos);
       EncodeAll(o, e, input, pos) == (all.0, r.out + all.1)
  }

  lemma {:induction false} EncodeRunTo(o: E.Options, e: E.Coding, input: seq<byte>, pos: nat, end: nat, room: nat)
    requires pos <= end <= |input|
    ensures EncodesTo(o, e, input, pos, Run(E.Encoder(o), e, input, pos, end, room))
    decreases end - pos + room
  {
    hide Run, Act, E.EncodeDrain, E.EncodeFeed;
    var m := E.Encoder(o);
    E.EncoderAct(o, e, input, pos, end);
    var a := Act(m, e, input, pos, end);
    if room == 0 || a.Stop? {
      RunStop(m, e, input, pos, end, room);
      assert [] + EncodeAll(o, e, input, pos).1 == EncodeAll(o, e, input, pos).1;
    } else {
      RunMove(m, e, input, pos, end, room);
      EncodeRunTo(o, a.next, input, a.pos, end, room - 1);
      var r := Run(m, a.next, input, a.pos, end, room - 1);
      var all := EncodeAll(o, r.state, input, r.pos);
      assert a.out + (r.out + all.1) == a.out + r.out + all.1;
    }
  }

  lemma {:induction false} EncodeSessionTo(o: E.Options, e: E.Coding, input: seq<byte>, pos: nat, calls: seq<Call>)
    requires pos <= |input|
    ensures EncodesTo(o, e, input, pos, Session(E.Encoder(o), e, input, pos, calls))
    decreases |calls|
  {
    hide Run, EncodeAll;
    if calls == [] {
      assert [] + EncodeAll(o, e, input, pos).1 == EncodeAll(o, e, input, pos).1;
    } else {
      var shown := Shown(input, pos, calls[0].avail);
      var r := Run(E.Encoder(o), e, input, pos, shown, calls[0].room);
      EncodeRunTo(o, e, input, pos, shown, calls[0].room);
      EncodeSessionTo(o, r.state, input, r.pos, calls[1..]);
      var r' := Session(E.Encoder(o), r.state, input, r.pos, calls[1..]);
      var all := EncodeAll(o, r'.state, input, r'.pos);
      assert r.out + (r'.out + all.1) == r.out + r'.out + all.1;
    }
  }

  /** The text of an encoding that drains the encoder before it finishes. */
  function DrainedText(o: E.Options, input: seq<byte>): seq<byte> {
    var all := EncodeAll(o, E.START, input, 0);
    all.1 + FinishChars(o, E.FinishEntry(o, all.0))
  }

  /** Finish is called although the end of a full line is still due. */
  predicate Dangling(o: E.Options, e: E.Coding) {
    e.state.OutputCrLf? || e.state.OutputLf? || (e.state.S3? && e.lineLen + 1 >= o.lineMax)
  }

  /** The text depends on the calls in exactly one way: where finish finds the end of a full line still
      due, it takes it for the final line end, while a drained encoder adds a second one. */
  lemma TextDependsOnlyOnDangling(o: E.Options, input: seq<byte>, calls: seq<Call>, finish: seq<Call>)
    requires Complete(o, input, calls, finish)
    ensures TextOf(o, input, calls, finish) == DrainedText(o, input) <==>
            o.noFinalNewline || !Dangling(o, EncodeCalls(o, input, calls).state)
  {
    hide EncodeCalls, FinishCalls, EncodeAll, FinishChars, Pending, Dangling, E.FinishEntry;
    var r := EncodeCalls(o, input, calls);
    AllOfCalls(o, input, calls);
    var p := Pending(o, r.state);
    var f := FinishCalls(o, r.state, finish);
    AllOfFinish(o, r.state, finish);
    DanglingIff(o, r.state);
    var last := FinishChars(o, E.FinishEntry(o, p.0));
    assert r.out + p.1 + last == r.out + (p.1 + last);
    SameTail(r.out, f.out, p.1 + last);
  }

  lemma AllOfCalls(o: E.Options, input: seq<byte>, calls: seq<Call>)
    requires EncodeCalls(o, input, calls).pos == |input|
    ensures var r := EncodeCalls(o, input, calls);
            && r.state.state in {E.S0, E.S1, E.S2, E.S3, E.OutputCrLf, E.OutputLf}
            && EncodeAll(o, E.START, input, 0) == (Pending(o, r.state).0, r.out + Pending(o, r.state).1)
  {
    hide Session, EncodeAll, Pending;
    var r := EncodeCalls(o, input, calls);
    EncodeSessionTo(o, E.START, input, 0, calls);
    AllIsPending(o, r.state, input);
    E.StartEncodes();
    EncodeSessionKeeps(o, [], [], E.START, input, 0, calls);
    E.EncodingStates([] + input[0..r.pos], [] + r.out, r.state);
  }

  lemma AllOfFinish(o: E.Options, e: E.Coding, finish: seq<Call>)
    requires FinishCalls(o, e, finish).state.state.Done?
    ensures FinishCalls(o, e, finish).out == FinishChars(o, E.FinishEntry(o, e))
  {
    hide Session, E.FinishEntry;
    FinishTo(o, E.FinishEntry(o, e), finish);
    FinishIsSession(o, e, finish);
    if e.state.Done? {
      DoneStays(o, e);
    }
    var f := FinishCalls(o, e, finish).out;
    assert f + [] == f;
  }

  lemma DoneStays(o: E.Options, e: E.Coding)
    requires e.state.Done?
    ensures E.FinishEntry(o, e) == e && FinishChars(o, e) == []
  {
  }

  lemma SameTail(a: seq<byte>, b: seq<byte>, c: seq<byte>)
    ensures a + b == a + c <==> b == c
  {
    if a + b == a + c {
      assert (a + b)[|a|..] == b && (a + c)[|a|..] == c;
    }
  }

  lemma AllIsPending(o: E.Options, e: E.Coding, input: seq<byte>)
    ensures EncodeAll(o, e, input, |input|) == Pending(o, e)
    decreases Due(e.state)
  {
    if E.EncodeDrain(o, e).Put? {
      AllIsPending(o, E.EncodeDrain(o, e).next, input);
    }
  }

  /** A line end that is due is put by either routine; only encode goes on to the next line. */
  lemma LineEndForms(o: E.Options, e: E.Coding)
    requires e.state == E.OutputCrLf || e.state == E.OutputLf
    ensures var eol := if e.state.OutputCrLf? then [CR, LF] else [LF];
            FinishChars(o, e) == eol && Pending(o, e) == (e.(state := E.S0), eol)
  {
    var lf := e.(state := E.OutputLf);
    assert FinishChars(o, e.(state := E.Done)) == [];
    assert [LF] + [] == [LF] && [CR] + [LF] == [CR, LF];
    assert FinishChars(o, lf) == [LF];
    assert Pending(o, e.(state := E.S0)) == (e.(state := E.S0), []);
    assert Pending(o, lf) == (e.(state := E.S0), [LF]);
  }

  lemma FinalLineEnd(o: E.Options, e: E.Coding)
    requires e.state == E.S0
    ensures FinishChars(o, E.FinishEntry(o, e)) == if o.noFinalNewline then [] else E.Eol(o)
  {
    assert [CR] + [LF] == [CR, LF];
    assert [LF] + [] == [LF];
    if !o.noFinalNewline && o.crLf {
      LineEndForms(o, E.Coding(E.OutputLf, e.last, 0));
    }
  }

  lemma LastQuartetForms(o: E.Options, e: E.Coding)
    requires e.state == E.S3
    ensures var c := [Char64(e.last % 64)];
            var full := e.lineLen + 1 >= o.lineMax;
            && FinishChars(o, e) == c + (if full || !o.noFinalNewline then E.Eol(o) else [])
            && Pending(o, e).0.state == E.S0
            && Pending(o, e).1 == c + (if full then E.Eol(o) else [])
  {
    hide Char64;
    LineEndForms(o, E.Coding(E.LineEnd(o), e.last, 0));
    assert FinishChars(o, e.(state := E.Done, lineLen := e.lineLen + 1)) == [];
  }

  lemma DanglingIff(o: E.Options, e: E.Coding)
    requires e.state in {E.S0, E.S1, E.S2, E.S3, E.OutputCrLf, E.OutputLf}
    ensures var p := Pending(o, e);
            FinishChars(o, E.FinishEntry(o, e)) == p.1 + FinishChars(o, E.FinishEntry(o, p.0)) <==>
            o.noFinalNewline || !Dangling(o, e)
  {
    hide FinishChars;
    var p := Pending(o, e);
    if e.state.S3? {
      hide Pending, Char64;
      LastQuartetForms(o, e);
      FinalLineEnd(o, p.0);
    } else if Dangling(o, e) {
      hide Pending;
      LineEndForms(o, e);
      FinalLineEnd(o, p.0);
    } else {
      assert p == (e, []);
      var f := FinishChars(o, E.FinishEntry(o, e));
      assert [] + f == f;
    }
  }

  /** A caller that sees buffer space left after its last call to encode may finish. */
  lemma RoomLeftIsDrained(o: E.Options, e: E.Coding, input: seq<byte>, pos: nat, end: nat, room: nat)
    requires pos <= end <= |input|
    ensures var r := Run(E.Encoder(o), e, input, pos, end, room);
            |r.out| < room ==> !Dangling(o, r.state)
  {
    hide Run, Act;
    var r := Run(E.Encoder(o), e, input, pos, end, room);
    RoomLeft(E.Encoder(o), e, input, pos, end, room);
    E.EncoderAct(o, r.state, input, r.pos, end);
  }

  /** Three bytes, lines of four characters and a buffer of three: the text comes out one line end
      shorter than with a larger buffer. */
  lemma TextCanDependOnTheCalls()
    ensures var o := E.Options(4, false, false);
            var input, calls, finish := [0, 0, 0], [Call(3, 3)], [Call(0, 2)];
            Complete(o, input, calls, finish) && TextOf(o, input, calls, finish) != DrainedText(o, input)
  {
    hide EncodeCalls, FinishCalls, DrainedText, TextOf;
    var o := E.Options(4, false, false);
    SmallBuffer(o);
    TextDependsOnlyOnDangling(o, [0, 0, 0], [Call(3, 3)], [Call(0, 2)]);
  }

  lemma SmallBuffer(o: E.Options)
    requires o == E.Options(4, false, false)
    ensures EncodeCalls(o, [0, 0, 0], [Call(3, 3)]).state == E.Coding(E.S3, 0, 3)
    ensures EncodeCalls(o, [0, 0, 0], [Call(3, 3)]).pos == 3
    ensures FinishCalls(o, E.Coding(E.S3, 0, 3), [Call(0, 2)]).state.state.Done?
  {
    hide Run, Session;
    ThreeBytes(o, 0);
    OneCall(E.Encoder(o), E.START, [0, 0, 0], 0, Call(3, 3));
    FinishTwo(o, E.Coding(E.S3, 0, 3));
    OneCall(E.Finisher(o), E.Coding(E.S3, 0, 3), [], 0, Call(0, 2));
  }

  lemma OneCall<S>(m: Machine<S>, s: S, input: seq<byte>, pos: nat, call: Call)
    requires pos <= |input|
    ensures var r := Run(m, s, input, pos, Shown(input, pos, call.avail), call.room);
            var t := Session(m, s, input, pos, [call]);
            t.state == r.state && t.pos == r.pos
  {
    hide Run;
    assert [call][1..] == [];
  }

  /** The machine after `k` zero bytes of a group, none of which fills a line. */
  function AfterZeros(k: nat): E.Coding
    requires k <= 3
  {
    E.Coding(if k == 0 then E.S0 else if k == 1 then E.S1 else if k == 2 then E.S2 else E.S3, 0, k)
  }

  /** The rest of three zero bytes, with room for one character each. */
  lemma {:induction false} ThreeBytes(o: E.Options, k: nat)
    requires o.lineMax == 4 && k <= 3
    ensures var r := Run(E.Encoder(o), AfterZeros(k), [0, 0, 0], k, 3, 3 - k);
            r.state == AfterZeros(3) && r.pos == 3
    decreases 3 - k
  {
    hide Run, Act, Char64;
    var input: seq<byte> := [0, 0, 0];
    if k < 3 {
      E.EncoderAct(o, AfterZeros(k), input, k, 3);
      RunMove(E.Encoder(o), AfterZeros(k), input, k, 3, 3 - k);
      ThreeBytes(o, k + 1);
    } else {
      RunStop(E.Encoder(o), AfterZeros(3), input, 3, 3, 0);
    }
  }

  lemma FinishTwo(o: E.Options, e: E.Coding)
    requires e.state == E.S3 && !o.crLf && !o.noFinalNewline
    ensures Run(E.Finisher(o), e, [], 0, 0, 2).state.state.Done?
  {
    hide Run, Act, Char64;
    var f := E.Finisher(o);
    var e' := E.FinishDrain(o, e).next;
    var e'' := E.FinishDrain(o, e').next;
    E.FinisherAct(o, e);
    RunMove(f, e, [], 0, 0, 2);
    E.FinisherAct(o, e');
    RunMove(f, e', [], 0, 0, 1);
    RunStop(f, e'', [], 0, 0, 0);
  }
}
