/** The streaming encoder of service/cpplib/mimepp/src/base64.c: encode and finish as machines, the
    C routines as methods over buffers, and what every routine keeps: the text emitted so far, line
    ends aside, is the Base64 text of the bytes consumed up to the bits still in mState and mLastByte. */
module Base64Encoder {
  import opened Bytes
  import opened Base64Text
  import opened Streams

  datatype State = S0 | S1 | S2 | S3 | OutputCrLf | OutputLf | OutputEqEq | OutputEq | Done

  datatype Coding = Coding(state: State, last: byte, lineLen: int)

  /** `lineMax` is mMaxLineLen & 0x7ffffffc. */
  datatype Options = Options(lineMax: nat, crLf: bool, noFinalNewline: bool)

  const START := Coding(S0, 0, 0)

  /** `n & 0x7ffffffc` for a 32-bit two's complement `n`: without its sign bit and its last two bits. */
  function Mask(n: int): (m: nat)
    ensures m % 4 == 0 && m < 0x8000_0000 && 0 <= (n - m) % 0x8000_0000 < 4
    ensures n >= 0 ==> m <= n
    ensures 0 <= n < 0x8000_0000 ==> n - 3 <= m
  {
    n % 0x8000_0000 / 4 * 4
  }

  /** The characters of a line end. */
  function Eol(o: Options): (t: seq<byte>)
    ensures t == [CR, LF] || t == [LF]
    ensures |t| == 2 <==> o.crLf
  {
    if o.crLf then [CR, LF] else [LF]
  }

  function LineEnd(o: Options): State {
    if o.crLf then OutputCrLf else OutputLf
  }

  /** After the last character of a quartet the line may be full. */
  function QuartetEnd(o: Options, e: Coding): Coding {
    if e.lineLen + 1 >= o.lineMax then Coding(LineEnd(o), e.last, 0) else Coding(S0, e.last, e.lineLen + 1)
  }

  function EncodeDrain(o: Options, e: Coding): (d: Drained<Coding>)
    ensures d.Put? <==> e.state.S3? || e.state.OutputLf? || e.state.OutputCrLf?
  {
    match e.state
    case S3 => Put(QuartetEnd(o, e), Char64(e.last % 64))
    case OutputLf => Put(e.(state := S0), LF)
    case OutputCrLf => Put(e.(state := OutputLf), CR)
    case _ => Nothing
  }

  function EncodeFeed(e: Coding, b: byte): (f: Fed<Coding>)
    ensures !f.Take?
    ensures f.Convert? <==> e.state.S0? || e.state.S1? || e.state.S2?
  {
    match e.state
    case S0 => Convert(Coding(S1, b, e.lineLen + 1), Char64(b / 4))
    case S1 => Convert(Coding(S2, b, e.lineLen + 1), Char64(e.last % 4 * 16 + b / 16))
    case S2 => Convert(Coding(S3, b, e.lineLen + 1), Char64(e.last % 16 * 4 + b / 64))
    case _ => Refuse
  }

  /** dw_b64encoder_encode: both of its loops. */
  function Encoder(o: Options): Machine<Coding> {
    Machine((e: Coding) => EncodeDrain(o, e), EncodeFeed)
  }

  // ---- When dw_b64encoder_encode ends ----

  /** The states for which the switch of dw_b64encoder_encode has a case. */
  predicate HasCase(s: State) {
    !s.OutputEqEq? && !s.OutputEq? && !s.Done?
  }

  datatype Passing = Running | Returned(r: Result<Coding>)

  /** The two loops of dw_b64encoder_encode for at most `fuel` passes. The first needs input and room,
      the second room, and leaves when it would need input. A pass in a state without a case changes
      nothing. */
  function Passes(o: Options, e: Coding, input: seq<byte>, pos: nat, end: nat, room: nat, fuel: nat): Passing
    requires pos <= end <= |input|
    decreases fuel
  {
    if room == 0 || (pos == end && (e.state.S0? || e.state.S1? || e.state.S2?)) then Returned(Result(e, pos, []))
    else if fuel == 0 then Running
    else if !HasCase(e.state) then Passes(o, e, input, pos, end, room, fuel - 1)
    else
      var a := Act(Encoder(o), e, input, pos, end);
      if a.Stop? then Returned(Result(e, pos, []))
      else
        match Passes(o, a.next, input, a.pos, end, room - |a.out|, fuel - 1)
        case Running => Running
        case Returned(r) => Returned(Prepend(a.out, r))
  }

  ghost predicate EncodeEnds(o: Options, e: Coding, input: seq<byte>, pos: nat, end: nat, room: nat)
    requires pos <= end <= |input|
  {
    exists fuel: nat :: Passes(o, e, input, pos, end, room, fuel).Returned?
  }

  lemma {:induction false} PassesReturn(o: Options, e: Coding, input: seq<byte>, pos: nat, end: nat, room: nat,
                                        fuel: nat)
    requires pos <= end <= |input| && (room == 0 || HasCase(e.state))
    ensures var p := Passes(o, e, input, pos, end, room, fuel);
            && (fuel >= room ==> p.Returned?)
            && (p.Returned? ==> p.r == Run(Encoder(o), e, input, pos, end, room))
    decreases fuel
  {
    hide Run, Act;
    var m := Encoder(o);
    EncoderAct(o, e, input, pos, end);
    var a := Act(m, e, input, pos, end);
    if room == 0 || a.Stop? {
      RunStop(m, e, input, pos, end, room);
    } else if fuel > 0 {
      RunMove(m, e, input, pos, end, room);
      PassesReturn(o, a.next, input, a.pos, end, room - |a.out|, fuel - 1);
    }
  }

  lemma {:induction false} NoCaseRuns(o: Options, e: Coding, input: seq<byte>, pos: nat, end: nat, room: nat,
                                      fuel: nat)
    requires pos <= end <= |input| && room > 0 && !HasCase(e.state)
    ensures Passes(o, e, input, pos, end, room, fuel) == Running
    decreases fuel
  {
    if fuel > 0 {
      NoCaseRuns(o, e, input, pos, end, room, fuel - 1);
    }
  }

  /** A call of dw_b64encoder_encode ends if and only if the output buffer is full or the switch has a
      case for the state. */
  lemma EncodeEndsIff(o: Options, e: Coding, input: seq<byte>, pos: nat, end: nat, room: nat)
    requires pos <= end <= |input|
    ensures EncodeEnds(o, e, input, pos, end, room) <==> room == 0 || HasCase(e.state)
  {
    hide Run, Passes;
    if room == 0 || HasCase(e.state) {
      PassesReturn(o, e, input, pos, end, room, room);
    } else {
      forall fuel: nat
        ensures !Passes(o, e, input, pos, end, room, fuel).Returned?
      {
        NoCaseRuns(o, e, input, pos, end, room, fuel);
      }
    }
  }

  // ---- When the line loop of dw_b64encoder_encode_fast ends ----

  /** The loop encodes a line and its end while the input position is not behind the limit. It does not
      look at the output position. */
  datatype LinePass = LinePass(inPos: int, outPos: int)

  function LinePasses(p: LinePass, line: nat, eol: nat, passes: nat): LinePass {
    LinePass(p.inPos + passes * (line / 4 * 3), p.outPos + passes * (line + eol))
  }

  /** The limit that the loop computes from the input and the room. */
  function LineLoopLimit(p: LinePass, inLen: int, outLen: int, line: nat, eol: nat): int
    requires eol > 0
  {
    var limit := p.inPos + (outLen - p.outPos) / (line + eol) * (line / 4 * 3);
    (if limit > inLen then inLen else limit) - line / 4 * 3
  }

  /** The loop is left after some number of passes. */
  ghost predicate LineLoopEnds(p: LinePass, inLen: int, outLen: int, line: nat, eol: nat)
    requires eol > 0
  {
    exists passes: nat :: LinePasses(p, line, eol, passes).inPos > LineLoopLimit(p, inLen, outLen, line, eol)
  }

  /** Whatever the pass that the loop is in, what it is about to write fits. */
  ghost predicate LineLoopStaysInside(p: LinePass, inLen: int, outLen: int, line: nat, eol: nat)
    requires eol > 0
  {
    forall passes: nat ::
      LinePasses(p, line, eol, passes).inPos <= LineLoopLimit(p, inLen, outLen, line, eol) ==>
        LinePasses(p, line, eol, passes + 1).outPos <= outLen
  }

  /** The line-by-line loop ends, and never writes past mOutLen, if and only if the masked maximum is at
      least one quartet. A smaller one is no quartet at all: no input is taken, and each pass writes a
      line end. */
  lemma LineLoopEndsIff(p: LinePass, inLen: int, outLen: int, maxLineLen: int, eol: nat)
    requires p.inPos <= inLen && p.outPos <= outLen && eol > 0
    ensures LineLoopEnds(p, inLen, outLen, Mask(maxLineLen), eol) <==> Mask(maxLineLen) >= 4
    ensures LineLoopStaysInside(p, inLen, outLen, Mask(maxLineLen), eol) <==> Mask(maxLineLen) >= 4
  {
    var line := Mask(maxLineLen);
    hide LinePasses, LineLoopLimit;
    var limit := LineLoopLimit(p, inLen, outLen, line, eol);
    if line >= 4 {
      FullLineEnds(p, inLen, outLen, line, eol);
      forall passes: nat | LinePasses(p, line, eol, passes).inPos <= limit
        ensures LinePasses(p, line, eol, passes + 1).outPos <= outLen
      {
        FullLineFits(p, inLen, outLen, line, eol, passes);
      }
    } else {
      forall passes: nat
        ensures LinePasses(p, 0, eol, passes).inPos == limit
        ensures LinePasses(p, 0, eol, passes).outPos == p.outPos + passes * eol
      {
        EmptyLineStays(p, inLen, outLen, eol, passes);
      }
      var many := outLen - p.outPos;
      assert LinePasses(p, 0, eol, many).inPos <= limit;
      ManyEnds(many, eol);
      assert LinePasses(p, 0, eol, many + 1).outPos > outLen;
    }
  }

  lemma ManyEnds(many: nat, eol: nat)
    requires eol > 0
    ensures (many + 1) * eol > many
  {
  }

  lemma EmptyLineStays(p: LinePass, inLen: int, outLen: int, eol: nat, passes: nat)
    requires p.inPos <= inLen && p.outPos <= outLen && eol > 0
    ensures LinePasses(p, 0, eol, passes).inPos == LineLoopLimit(p, inLen, outLen, 0, eol)
    ensures LinePasses(p, 0, eol, passes).outPos == p.outPos + passes * eol
  {
  }

  lemma FullLineEnds(p: LinePass, inLen: int, outLen: int, line: nat, eol: nat)
    requires p.inPos <= inLen && p.outPos <= outLen && eol > 0 && line >= 4
    ensures LineLoopEnds(p, inLen, outLen, line, eol)
  {
    var passes := inLen - p.inPos + 1;
    AtLeastOneEach(passes, line / 4 * 3);
    assert LinePasses(p, line, eol, passes).inPos > LineLoopLimit(p, inLen, outLen, line, eol);
  }

  lemma AtLeastOneEach(n: nat, m: nat)
    requires m >= 1
    ensures n * m >= n
  {
  }

  lemma FullLineFits(p: LinePass, inLen: int, outLen: int, line: nat, eol: nat, passes: nat)
    requires p.inPos <= inLen && p.outPos <= outLen && eol > 0 && line >= 4
    requires LinePasses(p, line, eol, passes).inPos <= LineLoopLimit(p, inLen, outLen, line, eol)
    ensures LinePasses(p, line, eol, passes + 1).outPos <= outLen
  {
    var quota, segment := (outLen - p.outPos) / (line + eol), line / 4 * 3;
    assert (passes + 1) * segment <= quota * segment;
    FewerTimes(passes + 1, quota, segment);
    TimesQuotient(outLen - p.outPos, line + eol);
    MoreTimes(passes + 1, quota, line + eol);
  }

  lemma FewerTimes(a: nat, b: nat, m: nat)
    requires m > 0 && a * m <= b * m
    ensures a <= b
  {
    if a > b {
      assert a * m == b * m + (a - b) * m;
      AtLeastOneEach(a - b, m);
    }
  }

  lemma MoreTimes(a: nat, b: nat, m: nat)
    requires a <= b
    ensures a * m <= b * m
  {
  }

  lemma TimesQuotient(n: nat, m: nat)
    requires m > 0
    ensures n / m * m <= n
  {
  }

  // ---- What dw_b64encoder_encode_fast puts between its slow ends ----

  /** There are input and room for a line of `n` characters and its end. */
  predicate LineFits(unread: int, room: int, n: nat, eol: nat) {
    n / 4 * 3 <= unread && n + eol <= room
  }

  /** The text of the bytes of several lines, each line with its end. */
  function EndedLines(lines: seq<seq<byte>>, eol: seq<byte>): seq<byte> {
    if lines == [] then []
    else EndedLines(lines[..|lines| - 1], eol) + Chars(lines[|lines| - 1]) + eol
  }

  /** With `lineLen` characters counted on the current line, this much input and this much room: a first
      line that fills up the current one, if it fits; then full lines, as long as one fits; then whole
      groups, as many as can be. */
  ghost predicate FastLines(o: Options, lineLen: int, unread: seq<byte>, room: nat, lines: seq<seq<byte>>,
                            rest: seq<byte>)
  {
    var eol, left := Eol(o), Mask(o.lineMax - lineLen);
    var first := LineFits(|unread|, room, left, |eol|);
    var unread', room' := |unread| - |Flatten(lines)|, room - |EndedLines(lines, eol)|;
    && Flatten(lines) + rest <= unread && |rest| % 3 == 0
    && (first ==> lines != [] && |Chars(lines[0])| == left)
    && (forall k :: (if first then 1 else 0) <= k < |lines| ==> |Chars(lines[k])| == o.lineMax)
    && !LineFits(unread', room', o.lineMax, |eol|)
    && 0 <= |Chars(rest)| <= room'
    && (room < 0x8000_0000 ==> unread' - |rest| < 3 || room' - |Chars(rest)| < 4)
  }

  lemma EndedSnoc(lines: seq<seq<byte>>, line: seq<byte>, eol: seq<byte>)
    ensures EndedLines(lines + [line], eol) == EndedLines(lines, eol) + Chars(line) + eol
  {
    assert (lines + [line])[..|lines|] == lines;
  }

  lemma {:induction false} EndedConcat(a: seq<seq<byte>>, b: seq<seq<byte>>, eol: seq<byte>)
    ensures EndedLines(a + b, eol) == EndedLines(a, eol) + EndedLines(b, eol)
    decreases |b|
  {
    hide Chars;
    if b == [] {
      assert a + b == a;
    } else {
      var n := |b| - 1;
      assert a + b == a + b[..n] + [b[n]];
      EndedConcat(a, b[..n], eol);
      EndedSnoc(a + b[..n], b[n], eol);
    }
  }

  /** Behind a line end the column counts from there. */
  lemma ColumnOfLines(t: seq<byte>, lines: seq<seq<byte>>, o: Options)
    ensures Column(t + EndedLines(lines, Eol(o))) == if lines == [] then Column(t) else 0
  {
    hide Chars, Column;
    if lines == [] {
      assert t + [] == t;
    } else {
      var n := |lines| - 1;
      var before := t + (EndedLines(lines[..n], Eol(o)) + Chars(lines[n]));
      var cr: seq<byte> := if o.crLf then [CR] else [];
      assert Eol(o) == cr + [LF];
      assert t + EndedLines(lines, Eol(o)) == before + cr + [LF];
      ColumnMoves(before + cr, LF);
    }
  }

  // ---- The end of the data ----

  /** The end of the data: a final line end unless it is suppressed and the line is not full. */
  function DataEnd(o: Options, e: Coding): Coding {
    if e.lineLen >= o.lineMax || !o.noFinalNewline then Coding(LineEnd(o), e.last, 0) else e.(state := Done)
  }

  function FinishDrain(o: Options, e: Coding): (d: Drained<Coding>)
    ensures d.Nothing? <==> e.state.Done?
    ensures d.Put? ==> !d.next.state.S0?
  {
    match e.state
    case S0 => if o.crLf then Put(Coding(OutputLf, e.last, 0), CR) else Put(Coding(Done, e.last, 0), LF)
    case S1 => Put(Coding(OutputEqEq, e.last, e.lineLen + 1), Char64(e.last % 4 * 16))
    case S2 => Put(Coding(OutputEq, e.last, e.lineLen + 1), Char64(e.last % 16 * 4))
    case S3 => Put(DataEnd(o, e.(lineLen := e.lineLen + 1)), Char64(e.last % 64))
    case OutputEqEq => Put(e.(state := OutputEq), PAD)
    case OutputEq => Put(DataEnd(o, e), PAD)
    case OutputLf => Put(e.(state := Done), LF)
    case OutputCrLf => Put(e.(state := OutputLf), CR)
    case Done => Nothing
  }

  /** dw_b64encoder_finish, once the suppressed final line end has been dealt with by FinishEntry. */
  function Finisher(o: Options): Machine<Coding> {
    Machine((e: Coding) => FinishDrain(o, e), (e: Coding, b: byte) => Refuse)
  }

  function FinishEntry(o: Options, e: Coding): Coding {
    if e.state.S0? && o.noFinalNewline then e.(state := Done) else e
  }

  // ---- What every step keeps ----

  /** The bytes `c` were consumed and the text `t` emitted when the encoder is in `e`. */
  ghost predicate Carries(c: seq<byte>, t: seq<byte>, e: Coding) {
    match e.state
    case S0 => |c| % 3 == 0 && Strip(t) == Chars(c)
    case S1 => |c| % 3 == 1 && e.last == c[|c| - 1] && Strip(t) + [Char64(e.last % 4 * 16)] == Chars(c)
    case S2 => |c| % 3 == 2 && e.last == c[|c| - 1] && Strip(t) + [Char64(e.last % 16 * 4)] == Chars(c)
    case S3 => |c| % 3 == 0 && |c| > 0 && e.last == c[|c| - 1] && Strip(t) + [Char64(e.last % 64)] == Chars(c)
    case OutputEqEq => |c| % 3 == 1 && Strip(t) == Chars(c)
    case OutputEq => |c| % 3 != 0 && Strip(t) + [PAD] == Encoded(c)
    case _ => Strip(t) == Encoded(c)
  }

  /** A state of dw_b64encoder_encode: the padding states and Done belong to finish. */
  ghost predicate Encoding(c: seq<byte>, t: seq<byte>, e: Coding) {
    && Carries(c, t, e)
    && !e.state.OutputEqEq? && !e.state.OutputEq? && !e.state.Done?
    && |c| % 3 == match e.state case S1 => 1 case S2 => 2 case _ => 0
  }

  lemma StartEncodes()
    ensures Encoding([], [], START)
  {
    assert Strip([]) == [] && Chars([]) == [];
  }

  lemma EncodingStates(c: seq<byte>, t: seq<byte>, e: Coding)
    requires Encoding(c, t, e)
    ensures e.state in {S0, S1, S2, S3, OutputCrLf, OutputLf}
  {
  }

  /** A move of the encoding machine, without the machinery of Act. */
  lemma EncoderAct(o: Options, e: Coding, input: seq<byte>, pos: nat, end: nat)
    requires pos <= end <= |input|
    ensures Act(Encoder(o), e, input, pos, end) ==
            if EncodeDrain(o, e).Put? then Move(EncodeDrain(o, e).next, pos, [EncodeDrain(o, e).c])
            else if pos < end && EncodeFeed(e, input[pos]).Convert? then
              Move(EncodeFeed(e, input[pos]).next, pos + 1, [EncodeFeed(e, input[pos]).c])
            else Stop
  {
  }

  lemma FinisherAct(o: Options, e: Coding)
    ensures Act(Finisher(o), e, [], 0, 0) ==
            if e.state.Done? then Stop else Move(FinishDrain(o, e).next, 0, [FinishDrain(o, e).c])
  {
  }

  lemma SuppressKeeps(c: seq<byte>, t: seq<byte>, e: Coding)
    requires Carries(c, t, e) && e.state.S0?
    ensures Carries(c, t, e.(state := Done))
  {
    assert Encoded(c) == Chars(c);
  }

  lemma StripChar(t: seq<byte>, c: byte)
    ensures Strip(t + [c]) == if c == LF || c == CR then Strip(t) else Strip(t) + [c]
  {
    StripConcat(t, [c]);
    assert Strip([c]) == if c == LF || c == CR then [] else [c] by {
      assert [c][..0] == [];
    }
  }

  /** The text of a group of `n` bytes ending in `last`, when the byte `b` joins the group. */
  function Grow(h: seq<byte>, n: nat, last: byte, b: byte): seq<byte>
    requires n > 0 ==> |h| > 0
  {
    if n == 0 then h + [Char64(b / 4), Char64(b % 4 * 16)]
    else h[..|h| - 1] +
         if n == 1 then [Char64(last % 4 * 16 + b / 16), Char64(b % 16 * 4)]
         else [Char64(last % 16 * 4 + b / 64), Char64(b % 64)]
  }

  lemma GrowBehind(p: seq<byte>, h: seq<byte>, n: nat, last: byte, b: byte)
    requires n > 0 ==> |h| > 0
    ensures Grow(p + h, n, last, b) == p + Grow(h, n, last, b)
  {
    hide Char64;
    if n > 0 {
      assert (p + h)[..|p + h| - 1] == p + h[..|h| - 1];
    }
  }

  lemma WholeGroups(n: nat)
    ensures (n - n % 3) % 3 == 0 && n - n % 3 >= 0
  {
    assert n - n % 3 == 3 * (n / 3);
  }

  lemma CharsSnoc(c: seq<byte>, b: byte)
    ensures |c| % 3 != 0 ==> |Chars(c)| > 0
    ensures Chars(c + [b]) == Grow(Chars(c), |c| % 3, if c == [] then 0 else c[|c| - 1], b)
  {
    hide Chars, Grow;
    var k := |c| - |c| % 3;
    WholeGroups(|c|);
    var head, tail := c[..k], c[k..];
    var last := if c == [] then 0 else c[|c| - 1];
    CharsAppend(head, tail);
    CharsAppend(head, tail + [b]);
    assert head + tail == c;
    assert head + (tail + [b]) == c + [b];
    GroupSnoc(tail, last, b);
    GrowBehind(Chars(head), Chars(tail), |tail|, last, b);
  }

  lemma GroupSnoc(g: seq<byte>, last: byte, b: byte)
    requires |g| < 3 && (g != [] ==> last == g[|g| - 1])
    ensures |g| > 0 ==> |Chars(g)| > 0
    ensures Chars(g + [b]) == Grow(Chars(g), |g|, last, b)
  {
    hide Char64;
    if |g| == 2 {
      assert (g + [b])[3..] == [];
      assert Chars(g + [b]) == Quartet(g[0], g[1], b);
    }
  }

  /** A step of encode keeps what is carried. */
  lemma EncodeDrainKeeps(o: Options, c: seq<byte>, t: seq<byte>, e: Coding)
    requires Encoding(c, t, e) && EncodeDrain(o, e).Put?
    ensures var d := EncodeDrain(o, e); Encoding(c, t + [d.c], d.next)
  {
    hide Char64, Chars, Strip;
    var d := EncodeDrain(o, e);
    StripChar(t, d.c);
    assert Encoded(c) == Chars(c);
  }

  lemma EncodeFeedKeeps(c: seq<byte>, t: seq<byte>, e: Coding, b: byte)
    requires Encoding(c, t, e) && EncodeFeed(e, b).Convert?
    ensures var f := EncodeFeed(e, b); Encoding(c + [b], t + [f.c], f.next)
  {
    hide Char64, Chars, Strip;
    var f := EncodeFeed(e, b);
    StripChar(t, f.c);
    CharsSnoc(c, b);
  }

  lemma FinishDrainKeeps(o: Options, c: seq<byte>, t: seq<byte>, e: Coding)
    requires Carries(c, t, e) && FinishDrain(o, e).Put?
    ensures var d := FinishDrain(o, e); Carries(c, t + [d.c], d.next)
  {
    hide Char64, Chars, Strip;
    var d := FinishDrain(o, e);
    StripChar(t, d.c);
  }

  /** So does a whole call, whatever its input and buffer. */
  lemma {:induction false} EncodeKeeps(o: Options, c: seq<byte>, t: seq<byte>, e: Coding,
                                       input: seq<byte>, pos: nat, end: nat, room: nat)
    requires pos <= end <= |input| && Encoding(c, t, e)
    ensures var r := Run(Encoder(o), e, input, pos, end, room);
            Encoding(c + input[pos..r.pos], t + r.out, r.state)
    decreases end - pos + room
  {
    hide Run, Encoding, EncodeDrain, EncodeFeed;
    var m := Encoder(o);
    var a := Act(m, e, input, pos, end);
    if room == 0 || a.Stop? {
      RunStop(m, e, input, pos, end, room);
      assert c + input[pos..pos] == c && t + [] == t;
    } else {
      RunMove(m, e, input, pos, end, room);
      var r := Run(m, a.next, input, a.pos, end, room - |a.out|);
      if EncodeDrain(o, e).Put? {
        EncodeDrainKeeps(o, c, t, e);
        EncodeKeeps(o, c, t + a.out, a.next, input, a.pos, end, room - |a.out|);
      } else {
        EncodeFeedKeeps(c, t, e, input[pos]);
        EncodeKeeps(o, c + [input[pos]], t + a.out, a.next, input, a.pos, end, room - |a.out|);
        assert c + [input[pos]] + input[a.pos..r.pos] == c + input[pos..r.pos];
      }
      assert t + a.out + r.out == t + (a.out + r.out);
    }
  }

  lemma {:induction false} FinishKeeps(o: Options, c: seq<byte>, t: seq<byte>, e: Coding, room: nat)
    requires Carries(c, t, e)
    ensures var r := Run(Finisher(o), e, [], 0, 0, room);
            Carries(c, t + r.out, r.state)
    decreases room
  {
    hide Run, Carries, FinishDrain;
    var m := Finisher(o);
    var a := Act(m, e, [], 0, 0);
    if room == 0 || a.Stop? {
      RunStop(m, e, [], 0, 0, room);
      assert t + [] == t;
    } else {
      RunMove(m, e, [], 0, 0, room);
      FinishDrainKeeps(o, c, t, e);
      FinishKeeps(o, c, t + a.out, a.next, room - |a.out|);
      var r := Run(m, a.next, [], 0, 0, room - |a.out|);
      assert t + a.out + r.out == t + (a.out + r.out);
    }
  }

  /** The characters of the current quartet that have been put. */
  function Put4(s: State): nat {
    match s case S1 => 1 case S2 => 2 case S3 => 3 case _ => 0
  }

  /** A call that can not get to the end of a quartet counts in mLineLen what it puts. */
  lemma {:induction false} NoLineEnd(o: Options, e: Coding, t: seq<byte>, input: seq<byte>, pos: nat, end: nat,
                                     room: nat)
    requires pos <= end <= |input| && e.state in {S0, S1, S2, S3}
    requires end - pos < 3 - Put4(e.state) || room < 4 - Put4(e.state)
    ensures var r := Run(Encoder(o), e, input, pos, end, room);
            Column(t + r.out) - r.state.lineLen == Column(t) - e.lineLen
    decreases room
  {
    hide Run, Act, Column, Char64;
    EncoderAct(o, e, input, pos, end);
    var a := Act(Encoder(o), e, input, pos, end);
    if room == 0 || a.Stop? {
      RunStop(Encoder(o), e, input, pos, end, room);
      assert t + [] == t;
    } else {
      RunMove(Encoder(o), e, input, pos, end, room);
      ColumnMoves(t, a.out[0]);
      assert a.out == [a.out[0]];
      NoLineEnd(o, a.next, t + a.out, input, a.pos, end, room - 1);
      var r := Run(Encoder(o), a.next, input, a.pos, end, room - 1);
      assert t + a.out + r.out == t + (a.out + r.out);
    }
  }

  /** A line end changes nothing that is carried, wherever it is put. */
  lemma LineEndKeeps(c: seq<byte>, t: seq<byte>, e: Coding, eol: byte)
    requires Encoding(c, t, e) && (eol == LF || eol == CR)
    ensures Encoding(c, t + [eol], e)
  {
    hide Char64, Chars, Strip;
    StripChar(t, eol);
  }

  lemma MultiplesAdd(m: nat, n: nat)
    requires m % 3 == 0 && n % 3 == 0
    ensures (m + n) % 3 == 0
  {
  }

  /** Whole groups may be encoded in one go between two quartets. */
  lemma GroupsKeep(c: seq<byte>, t: seq<byte>, e: Coding, x: seq<byte>)
    requires Encoding(c, t, e) && e.state.S0? && |x| % 3 == 0
    ensures Encoding(c + x, t + Chars(x), e)
  {
    hide Char64, Chars, Strip;
    assert (|c| + |x|) % 3 == 0 by { MultiplesAdd(|c|, |x|); }
    CharsAppend(c, x);
    CharsAreNotEol(x);
    StripNothing(Chars(x));
    StripConcat(t, Chars(x));
  }

  lemma DivideBy64(n: int, q: int, r: int)
    requires n == 64 * q + r && 0 <= r < 64
    ensures n / 64 == q && n % 64 == r
  {
  }

  /** The four six-bit pieces of a 24-bit number, last first, as fast_encode takes them. */
  lemma SixBitPieces(a: byte, b: byte, c: byte)
    ensures var n := a as int * 0x1_0000 + b as int * 256 + c;
            && n % 64 == c % 64
            && n / 64 % 64 == b % 16 * 4 + c / 64
            && n / 64 / 64 % 64 == a % 4 * 16 + b / 16
            && n / 64 / 64 / 64 % 64 == a / 4
  {
    var n := a as int * 0x1_0000 + b as int * 256 + c;
    var high := a as int * 16 + b / 16;
    DivideBy64(n, high * 64 + (b % 16 * 4 + c / 64), c % 64);
    DivideBy64(high * 64 + (b % 16 * 4 + c / 64), high, b % 16 * 4 + c / 64);
    DivideBy64(high, a / 4, a % 4 * 16 + b / 16);
  }
}
