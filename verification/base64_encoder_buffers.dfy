/** The routines of dw_b64encoder in service/cpplib/mimepp/src/base64.c over caller-supplied buffers. */
module Base64EncoderBuffers {
  import opened Bytes
  import opened Base64Text
  import opened Streams
  import opened Base64Encoder

  /** The buffers and the history at the start of a call. */
  datatype Snapshot = Snapshot(input: seq<byte>, inPos: nat, output: seq<byte>, outPos: nat,
                               consumed: seq<byte>, emitted: seq<byte>)

  /** `b` is reached from `a` by reading input from `a.inPos` on and writing output from `a.outPos` on,
      and the history records exactly that. */
  ghost predicate Follows(a: Snapshot, b: Snapshot) {
    && b.input == a.input && a.inPos <= b.inPos <= |a.input|
    && a.outPos <= b.outPos <= |b.output| == |a.output|
    && b.output == Splice(a.output, a.outPos, b.output[a.outPos..b.outPos])
    && b.consumed == a.consumed + a.input[a.inPos..b.inPos]
    && b.emitted == a.emitted + b.output[a.outPos..b.outPos]
  }

  lemma FollowsThen(a: Snapshot, b: Snapshot, c: Snapshot)
    requires Follows(a, b) && Follows(b, c)
    ensures Follows(a, c)
    ensures c.output[a.outPos..c.outPos] == b.output[a.outPos..b.outPos] + c.output[b.outPos..c.outPos]
  {
    var x, y := b.output[a.outPos..b.outPos], c.output[b.outPos..c.outPos];
    SpliceTwice(a.output, a.outPos, x, y);
    assert c.output[a.outPos..c.outPos] == x + y;
    assert a.input[a.inPos..c.inPos] == a.input[a.inPos..b.inPos] + a.input[b.inPos..c.inPos];
  }

  /** The most that is put until the current quartet and its line are closed. */
  function Owed(s: State): nat {
    match s case S1 => 5 case S2 => 4 case S3 => 3 case OutputCrLf => 2 case OutputLf => 1 case _ => 0
  }

  lemma OwedFalls(o: Options, e: Coding)
    ensures EncodeDrain(o, e).Put? ==> Owed(EncodeDrain(o, e).next.state) < Owed(e.state)
    ensures forall b: byte :: EncodeFeed(e, b).Convert? && !e.state.S0? ==>
                                Owed(EncodeFeed(e, b).next.state) < Owed(e.state)
  {
    hide Char64, Mask;
  }

  /** A slow call can begin by reaching `head`: that is at most the rest of a quartet and its line end, and
      ends between quartets unless the input or the room does. */
  ghost predicate SlowHead(o: Options, e: Coding, input: seq<byte>, pos: nat, end: nat, room: nat,
                           head: Result<Coding>)
    requires pos <= end <= |input|
  {
    && Begins(Encoder(o), e, input, pos, end, room, head)
    && |head.out| <= Owed(e.state) && (e.state.S0? ==> head == Result(e, pos, []))
    && (head.state.state.S0? || head.pos == end || |head.out| == room)
  }

  /** Where a call is: in the input, in the output and in the history. */
  datatype Spot = Spot(inPos: nat, outPos: nat, emitted: seq<byte>)

  /** From `a` to `b` the bytes `x` were read and the text `t` was put. */
  ghost predicate Puts(input: seq<byte>, a: Spot, b: Spot, x: seq<byte>, t: seq<byte>) {
    && a.inPos <= b.inPos <= |input| && x == input[a.inPos..b.inPos]
    && b.outPos == a.outPos + |t| && b.emitted == a.emitted + t
  }

  lemma PutsThen(input: seq<byte>, a: Spot, b: Spot, c: Spot, x: seq<byte>, t: seq<byte>, y: seq<byte>, u: seq<byte>)
    requires Puts(input, a, b, x, t) && Puts(input, b, c, y, u)
    ensures Puts(input, a, c, x + y, t + u)
  {
    assert a.emitted + (t + u) == a.emitted + t + u;
  }

  lemma PutsNothing(input: seq<byte>, a: Spot)
    requires a.inPos <= |input|
    ensures Puts(input, a, a, [], [])
  {
  }

  lemma PutsMoves(input: seq<byte>, a: Spot, b: Spot, x: seq<byte>, t: seq<byte>)
    requires Puts(input, a, b, x, t)
    ensures b.inPos == a.inPos + |x| && b.outPos == a.outPos + |t| && b.emitted == a.emitted + t
  {
  }

  lemma NoLines(o: Options)
    ensures EndedLines([], Eol(o)) == [] && Flatten<byte>([]) == []
  {
  }

  /** One more line. */
  lemma PutsLine(o: Options, input: seq<byte>, a: Spot, b: Spot, c: Spot, lines: seq<seq<byte>>, x: seq<byte>)
    requires Puts(input, a, b, Flatten(lines), EndedLines(lines, Eol(o))) && Puts(input, b, c, x, Chars(x) + Eol(o))
    ensures Puts(input, a, c, Flatten(lines + [x]), EndedLines(lines + [x], Eol(o)))
  {
    hide Puts, EndedLines, Chars;
    PutsThen(input, a, b, c, Flatten(lines), EndedLines(lines, Eol(o)), x, Chars(x) + Eol(o));
    EndedSnoc(lines, x, Eol(o));
    FlattenAppend(lines, x);
    assert EndedLines(lines, Eol(o)) + (Chars(x) + Eol(o)) == EndedLines(lines + [x], Eol(o));
  }

  /** A first line and full lines. */
  lemma PutsLines(o: Options, input: seq<byte>, a: Spot, b: Spot, c: Spot, first: seq<seq<byte>>, full: seq<seq<byte>>)
    requires Puts(input, a, b, Flatten(first), EndedLines(first, Eol(o)))
    requires Puts(input, b, c, Flatten(full), EndedLines(full, Eol(o)))
    ensures Puts(input, a, c, Flatten(first + full), EndedLines(first + full, Eol(o)))
  {
    hide Puts, EndedLines;
    PutsThen(input, a, b, c, Flatten(first), EndedLines(first, Eol(o)), Flatten(full), EndedLines(full, Eol(o)));
    EndedConcat(first, full, Eol(o));
    FlattenConcat(first, full);
  }

  /** What was put in this way, until no full line fits, is as FastLines says. */
  lemma TheseAreFast(o: Options, lineLen: int, input: seq<byte>, end: nat, outLen: nat, a: Spot, b: Spot, c: Spot,
                     first: seq<seq<byte>>, full: seq<seq<byte>>, rest: seq<byte>)
    requires Puts(input, a, b, Flatten(first + full), EndedLines(first + full, Eol(o)))
    requires Puts(input, b, c, rest, Chars(rest)) && c.inPos <= end <= |input| && c.outPos <= outLen
    requires var n := Mask(o.lineMax - lineLen);
             if LineFits(end - a.inPos, outLen - a.outPos, n, |Eol(o)|) then |first| == 1 && |Chars(first[0])| == n
             else first == []
    requires forall k :: 0 <= k < |full| ==> |Chars(full[k])| == o.lineMax
    requires !LineFits(end - b.inPos, outLen - b.outPos, o.lineMax, |Eol(o)|)
    requires |rest| % 3 == 0 && o.lineMax % 4 == 0 && o.lineMax >= 4
    requires outLen - b.outPos < 0x8000_0000 ==> end - c.inPos < 3 || outLen - c.outPos < 4
    ensures a.inPos <= end && a.outPos <= outLen
    ensures FastLines(o, lineLen, input[a.inPos..end], outLen - a.outPos, first + full, rest)
    ensures Puts(input, a, c, Flatten(first + full) + rest, EndedLines(first + full, Eol(o)) + Chars(rest))
    ensures |Chars(rest)| < o.lineMax + |Eol(o)|
  {
    hide Chars, Eol, EndedLines, Mask, Flatten, LineFits, Puts;
    var lines := first + full;
    var put := EndedLines(lines, Eol(o));
    PutsThen(input, a, b, c, Flatten(lines), put, rest, Chars(rest));
    PutsMoves(input, a, b, Flatten(lines), put);
    PutsMoves(input, b, c, rest, Chars(rest));
    PutsReads(input, a, c, Flatten(lines) + rest, put + Chars(rest), end);
    RestIsShort(rest, end - b.inPos, outLen - b.outPos, o.lineMax, |Eol(o)|);
    assert forall k :: |first| <= k < |lines| ==> lines[k] == full[k - |first|];
  }

  lemma PutsReads(input: seq<byte>, a: Spot, b: Spot, x: seq<byte>, t: seq<byte>, end: nat)
    requires Puts(input, a, b, x, t) && b.inPos <= end <= |input|
    ensures a.inPos <= end && x <= input[a.inPos..end]
  {
  }

  /** The rest is shorter than a line and its end. */
  lemma RestIsShort(rest: seq<byte>, unread: int, room: int, line: nat, eol: nat)
    requires |rest| % 3 == 0 && |rest| <= unread && |Chars(rest)| <= room && line % 4 == 0 && line >= 4
    requires !LineFits(unread, room, line, eol)
    ensures |Chars(rest)| < line + eol
  {
    CharsLength(rest, |rest| / 3);
  }

  class EncoderBuffers {
    var inPos: nat
    var inLen: nat
    var inBuffer: array<byte>
    var outPos: nat
    var outLen: nat
    var outBuffer: array<byte>
    var maxLineLen: int
    var outputCrLf: bool
    var noFinalNewline: bool
    var state: State
    var lastByte: byte
    var lineLen: int

    // The bytes consumed and the text emitted since Start, over all calls.
    ghost var Consumed: seq<byte>
    ghost var Emitted: seq<byte>

    ghost predicate Valid()
      reads `inPos, `inLen, `inBuffer, `outPos, `outLen, `outBuffer
    {
      inPos <= inLen <= inBuffer.Length && outPos <= outLen <= outBuffer.Length && inBuffer != outBuffer
    }

    function Core(): Coding
      reads `state, `lastByte, `lineLen
    {
      Coding(state, lastByte, lineLen)
    }

    function Opts(): Options
      reads `maxLineLen, `outputCrLf, `noFinalNewline
    {
      Options(Mask(maxLineLen), outputCrLf, noFinalNewline)
    }

    ghost function Now(): Snapshot
      reads `inPos, `inBuffer, `outPos, `outBuffer, `Consumed, `Emitted, inBuffer, outBuffer
    {
      Snapshot(inBuffer[..], inPos, outBuffer[..], outPos, Consumed, Emitted)
    }

    ghost function Here(): Spot
      reads `inPos, `outPos, `Emitted
    {
      Spot(inPos, outPos, Emitted)
    }

    /** What was done since `start` is in the buffers and in the history. */
    ghost predicate Traced(start: Snapshot)
      reads `inPos, `inLen, `inBuffer, `outPos, `outLen, `outBuffer, `Consumed, `Emitted, inBuffer, outBuffer
    {
      Valid() && Follows(start, Now())
    }

    ghost function Written(start: Snapshot): seq<byte>
      requires Traced(start)
      reads `inPos, `inLen, `inBuffer, `outPos, `outLen, `outBuffer, `Consumed, `Emitted, inBuffer, outBuffer
    {
      outBuffer[start.outPos..outPos]
    }

    lemma TracedBounds(start: Snapshot)
      requires Traced(start)
      ensures Valid() && Follows(start, Now())
      ensures |start.input| == inBuffer.Length && start.inPos <= inPos
      ensures start.outPos <= outPos && |Written(start)| == outPos - start.outPos
    {
    }

    method SetDefaults()
      modifies this`maxLineLen, this`outputCrLf, this`noFinalNewline
      ensures Opts() == Options(72, false, false)
    {
      maxLineLen, outputCrLf, noFinalNewline := 72, false, false;
    }

    method Start()
      modifies this`state, this`lastByte, this`lineLen, this`Consumed, this`Emitted
      ensures Core() == START && Consumed == [] && Emitted == []
      ensures Encoding(Consumed, Emitted, Core())
    {
      state, lastByte, lineLen := S0, 0, 0;
      Consumed, Emitted := [], [];
    }

    /** Stores one character and records it. */
    method Emit(c: byte, ghost start: Snapshot)
      requires Traced(start) && outPos < outLen
      modifies this`outPos, this`Emitted, outBuffer
      ensures Traced(start) && outPos == old(outPos) + 1 && Emitted == old(Emitted) + [c]
      ensures Written(start) == old(Written(start)) + [c]
    {
      ghost var out := outBuffer[start.outPos..outPos];
      SpliceOne(start.output, start.outPos, out, c);
      outBuffer[outPos] := c;
      outPos := outPos + 1;
      Emitted := Emitted + [c];
      assert outBuffer[start.outPos..outPos] == out + [c];
    }

    /** Reads one character and records it. */
    method Fetch(ghost start: Snapshot) returns (b: byte)
      requires Traced(start) && inPos < inLen
      modifies this`inPos, this`Consumed
      ensures Traced(start) && inPos == old(inPos) + 1
      ensures b == start.input[old(inPos)] && Consumed == old(Consumed) + [b]
      ensures Written(start) == old(Written(start))
    {
      b := inBuffer[inPos];
      inPos := inPos + 1;
      Consumed := Consumed + [b];
      assert start.input[start.inPos..inPos] == start.input[start.inPos..inPos - 1] + [b];
    }

    /** The cases of the switch in which a byte is read. */
    method EncodeByte(ghost start: Snapshot)
      requires Traced(start) && inPos < inLen && outPos < outLen
      requires state.S0? || state.S1? || state.S2?
      requires Encoding(Consumed, Emitted, Core())
      modifies this`inPos, this`outPos, this`state, this`lastByte, this`lineLen, this`Consumed, this`Emitted, outBuffer
      ensures Traced(start) && inPos == old(inPos) + 1 && outPos == old(outPos) + 1
      ensures Encoding(Consumed, Emitted, Core())
      ensures EncodeFeed(old(Core()), start.input[old(inPos)]).Convert?
      ensures Core() == EncodeFeed(old(Core()), start.input[old(inPos)]).next
      ensures Written(start) == old(Written(start)) + [EncodeFeed(old(Core()), start.input[old(inPos)]).c]
    {
      hide Encoding, Traced, Written, Char64;
      TracedBounds(start);
      EncodeFeedKeeps(Consumed, Emitted, Core(), start.input[inPos]);
      ghost var f := EncodeFeed(Core(), start.input[inPos]);
      var b := Fetch(start);
      var n;
      match state {
        case S0 =>
          state := S1;
          n := b / 4;
        case S1 =>
          state := S2;
          n := lastByte % 4 * 16 + b / 16;
        case S2 =>
          state := S3;
          n := lastByte % 16 * 4 + b / 64;
      }
      assert f == Convert(Coding(state, b, lineLen + 1), Char64(n));
      hide EncodeFeed;
      lastByte := b;
      lineLen := lineLen + 1;
      Emit(Char64(n), start);
    }

    /** The cases of the switch in which a character was already due. */
    method EncodePending(ghost start: Snapshot)
      requires Traced(start) && outPos < outLen
      requires state.S3? || state.OutputLf? || state.OutputCrLf?
      requires Encoding(Consumed, Emitted, Core())
      modifies this`outPos, this`state, this`lineLen, this`Emitted, outBuffer
      ensures Traced(start) && outPos == old(outPos) + 1
      ensures Encoding(Consumed, Emitted, Core())
      ensures EncodeDrain(Opts(), old(Core())).Put?
      ensures Core() == EncodeDrain(Opts(), old(Core())).next
      ensures Written(start) == old(Written(start)) + [EncodeDrain(Opts(), old(Core())).c]
    {
      hide Encoding, Traced, Written, Char64, Mask;
      EncodeDrainKeeps(Opts(), Consumed, Emitted, Core());
      match state {
        case S3 =>
          state := S0;
          lineLen := lineLen + 1;
          if lineLen >= Mask(maxLineLen) {
            lineLen := 0;
            state := if outputCrLf then OutputCrLf else OutputLf;
          }
          Emit(Char64(lastByte % 64), start);
        case OutputLf =>
          state := S0;
          Emit(LF, start);
        case OutputCrLf =>
          state := OutputLf;
          Emit(CR, start);
      }
    }

    /** The call that began in `core` and `start` has so far done the first moves of the encoding machine. */
    ghost predicate Since(core: Coding, start: Snapshot)
      reads this, inBuffer, outBuffer
    {
      && Traced(start)
      && Encoding(Consumed, Emitted, Core())
      && Begins(Encoder(Opts()), core, start.input, start.inPos, inLen, outLen - start.outPos,
                Result(Core(), inPos, Written(start)))
    }

    lemma SinceNow()
      requires Valid() && Encoding(Consumed, Emitted, Core())
      ensures Since(Core(), Now())
    {
      hide Begins, Encoding;
      BeginsNothing(Encoder(Opts()), Core(), inBuffer[..], inPos, inLen, outLen - outPos);
      assert outBuffer[outPos..outPos] == [];
      assert inBuffer[..][inPos..inPos] == [];
    }

    /** One pass through either loop of dw_b64encoder_encode. */
    method EncodeStep(ghost core: Coding, ghost start: Snapshot)
      requires Since(core, start) && outPos < outLen
      requires state.S0? || state.S1? || state.S2? ==> inPos < inLen
      modifies this`inPos, this`outPos, this`state, this`lastByte, this`lineLen, this`Consumed, this`Emitted, outBuffer
      ensures Since(core, start) && outPos == old(outPos) + 1
      ensures old(state.S0? || state.S1? || state.S2?) || inPos == old(inPos)
      ensures !old(state.S0?) ==> Owed(state) < old(Owed(state))
    {
      hide Begins, Encoding, Act, EncodeFeed, EncodeDrain, Written, Traced, Opts;
      TracedBounds(start);
      EncodingStates(Consumed, Emitted, Core());
      OwedFalls(Opts(), Core());
      EncoderAct(Opts(), Core(), start.input, inPos, inLen);
      BeginsMove(Encoder(Opts()), core, start.input, start.inPos, inLen, outLen - start.outPos,
                 Result(Core(), inPos, Written(start)));
      if state.S0? || state.S1? || state.S2? {
        EncodeByte(start);
      } else {
        EncodePending(start);
      }
    }

    /** dw_b64encoder_encode: one call of the encoding machine. EncodeEndsIff says that in a padding or
        final state, which only finish reaches, the C loops end only without room. */
    method Encode()
      requires Valid() && (outPos < outLen ==> Encoding(Consumed, Emitted, Core()))
      modifies this`inPos, this`outPos, this`state, this`lastByte, this`lineLen, this`Consumed, this`Emitted, outBuffer
      ensures Traced(old(Now()))
      ensures old(Encoding(Consumed, Emitted, Core())) ==> Encoding(Consumed, Emitted, Core())
      ensures var r := Run(Encoder(Opts()), old(Core()), old(inBuffer[..]), old(inPos), inLen, outLen - old(outPos));
              Core() == r.state && inPos == r.pos && Written(old(Now())) == r.out
      ensures outPos == outLen || (inPos == inLen && (state.S0? || state.S1? || state.S2?))
    {
      hide Encoding, Run, Act, Traced, Follows;
      if outPos == outLen {
        // Neither loop runs.
        RunStop(Encoder(Opts()), Core(), inBuffer[..], inPos, inLen, 0);
        TracedNow();
        assert Written(Now()) == [];
        return;
      }
      EncodeLoops();
    }

    /** The two loops of dw_b64encoder_encode. */
    method EncodeLoops()
      requires Valid() && Encoding(Consumed, Emitted, Core())
      modifies this`inPos, this`outPos, this`state, this`lastByte, this`lineLen, this`Consumed, this`Emitted, outBuffer
      ensures Traced(old(Now())) && Encoding(Consumed, Emitted, Core())
      ensures var r := Run(Encoder(Opts()), old(Core()), old(inBuffer[..]), old(inPos), inLen, outLen - old(outPos));
              Core() == r.state && inPos == r.pos && Written(old(Now())) == r.out
      ensures outPos == outLen || (inPos == inLen && (state.S0? || state.S1? || state.S2?))
    {
      hide Begins, Encoding, Run, Traced, Written, Act, Since;
      ghost var core, start := Core(), Now();
      SinceNow();
      WithInput(core, start);
      WithoutInput(core, start);
      SinceIsTraced(core, start);
      TracedBounds(start);
      EncoderAct(Opts(), Core(), start.input, inPos, inLen);
      BeginsAll(Encoder(Opts()), core, start.input, start.inPos, inLen, outLen - start.outPos,
                Result(Core(), inPos, Written(start)));
    }

    lemma SinceIsTraced(core: Coding, start: Snapshot)
      requires Since(core, start)
      ensures Traced(start) && Valid() && Encoding(Consumed, Emitted, Core())
      ensures start.inPos <= inPos <= inLen <= |start.input| && start.outPos <= outPos <= outLen
      ensures Begins(Encoder(Opts()), core, start.input, start.inPos, inLen, outLen - start.outPos,
                     Result(Core(), inPos, Written(start)))
    {
      hide Begins, Encoding;
      TracedBounds(start);
    }

    /** The loop of dw_b64encoder_encode that needs input and room. */
    method WithInput(ghost core: Coding, ghost start: Snapshot)
      requires Since(core, start)
      modifies this`inPos, this`outPos, this`state, this`lastByte, this`lineLen, this`Consumed, this`Emitted, outBuffer
      ensures Since(core, start) && (outPos == outLen || inPos == inLen)
    {
      hide Since, Encoding, Begins;
      SinceIsTraced(core, start);
      while inPos < inLen && outPos < outLen
        invariant Valid() && Since(core, start)
        decreases outLen - outPos
      {
        EncodeStep(core, start);
        SinceIsTraced(core, start);
      }
    }

    /** The loop that puts what is due without input. */
    method WithoutInput(ghost core: Coding, ghost start: Snapshot)
      requires Since(core, start) && (outPos == outLen || inPos == inLen)
      modifies this`inPos, this`outPos, this`state, this`lastByte, this`lineLen, this`Consumed, this`Emitted, outBuffer
      ensures Since(core, start)
      ensures outPos == outLen || (inPos == inLen && (state.S0? || state.S1? || state.S2?))
    {
      hide Since, Encoding, Begins;
      SinceIsTraced(core, start);
      while outPos < outLen && !state.S0? && !state.S1? && !state.S2?
        invariant Valid() && Since(core, start)
        invariant outPos == outLen || inPos == inLen
        decreases outLen - outPos
      {
        EncodeStep(core, start);
        SinceIsTraced(core, start);
      }
    }

    /** fast_encode on `groups` groups of three bytes of the unread input. */
    method FastEncode(len: nat, ghost groups: nat)
      requires Valid() && len == 3 * groups && inPos + len <= inLen && outPos + 4 * groups <= outLen
      modifies outBuffer
      ensures |Chars(inBuffer[inPos..inPos + len])| == 4 * groups
      ensures inBuffer[..] == old(inBuffer[..])
      ensures outBuffer[..] == Splice(old(outBuffer[..]), outPos, Chars(inBuffer[inPos..inPos + len]))
    {
      hide Chars, Quartet, Splice;
      ghost var s, before := inBuffer[inPos..inPos + len], outBuffer[..];
      assert Chars(s[..0]) == [] by { CharsLength(s[..0], 0); }
      SpliceNothing(before, outPos);
      var i, o := 0, 0;
      ghost var done := 0;
      while i < len
        invariant 0 <= done <= groups && i == 3 * done && o == 4 * done
        invariant inBuffer[..] == old(inBuffer[..])
        invariant |Chars(s[..i])| == o
        invariant outBuffer[..] == Splice(before, outPos, Chars(s[..i]))
      {
        WriteQuartet(inBuffer[inPos + i], inBuffer[inPos + i + 1], inBuffer[inPos + i + 2], outPos + o);
        NextQuartet(s, i, before, outPos, done);
        i := i + 3;
        o := o + 4;
        done := done + 1;
      }
      assert s[..len] == s;
    }

    lemma NextQuartet(s: seq<byte>, i: nat, before: seq<byte>, at: nat, done: nat)
      requires i == 3 * done && i + 3 <= |s| && |Chars(s[..i])| == 4 * done && at + 4 * done + 4 <= |before|
      ensures |Chars(s[..i + 3])| == 4 * done + 4
      ensures Splice(Splice(before, at, Chars(s[..i])), at + 4 * done, Quartet(s[i], s[i + 1], s[i + 2])) ==
              Splice(before, at, Chars(s[..i + 3]))
    {
      hide Chars, Quartet, Splice;
      CharsGrow(s, done);
      SpliceTwice(before, at, Chars(s[..i]), Quartet(s[i], s[i + 1], s[i + 2]));
    }

    /** The body of the loop of fast_encode: a 24-bit number, its pieces stored from the last. */
    method WriteQuartet(a: byte, b: byte, c: byte, to: nat)
      requires to + 4 <= outBuffer.Length
      modifies outBuffer
      ensures outBuffer[..] == Splice(old(outBuffer[..]), to, Quartet(a, b, c))
    {
      hide Char64;
      SixBitPieces(a, b, c);
      var n := a as int * 0x1_0000 + b as int * 256 + c;
      outBuffer[to + 3] := Char64(n % 64);
      n := n / 64;
      outBuffer[to + 2] := Char64(n % 64);
      n := n / 64;
      outBuffer[to + 1] := Char64(n % 64);
      n := n / 64;
      outBuffer[to] := Char64(n % 64);
    }

    /** A run of whole groups, with the positions moved behind it. */
    method EncodeGroups(inSegmentLen: nat, outSegmentLen: nat, ghost groups: nat, ghost start: Snapshot)
      returns (ghost x: seq<byte>)
      requires Traced(start) && Encoding(Consumed, Emitted, Core())
      requires inSegmentLen == 3 * groups && outSegmentLen == 4 * groups
      requires inPos + inSegmentLen <= inLen && outPos + outSegmentLen <= outLen
      requires state.S0? || groups == 0
      modifies this`inPos, this`outPos, this`Consumed, this`Emitted, outBuffer
      ensures Traced(start) && Encoding(Consumed, Emitted, Core())
      ensures |x| == inSegmentLen && |Chars(x)| == outSegmentLen
      ensures Puts(start.input, old(Here()), Here(), x, Chars(x))
    {
      hide Encoding, Chars, Follows, Splice, Opts;
      TracedBounds(start);
      ghost var mid := Now();
      x := inBuffer[inPos..inPos + inSegmentLen];
      assert x == start.input[inPos..inPos + inSegmentLen];
      FastEncode(inSegmentLen, groups);
      if groups > 0 {
        GroupsKeep(Consumed, Emitted, Core(), x);
      } else {
        assert Consumed + x == Consumed && Emitted + Chars(x) == Emitted by { CharsLength(x, 0); }
      }
      inPos := inPos + inSegmentLen;
      outPos := outPos + outSegmentLen;
      Consumed := Consumed + x;
      Emitted := Emitted + Chars(x);
      AppendFollows(start, mid, x, Chars(x), Now());
    }

    lemma AppendFollows(start: Snapshot, mid: Snapshot, x: seq<byte>, t: seq<byte>, now: Snapshot)
      requires Follows(start, mid) && mid.inPos + |x| <= |mid.input| && mid.outPos + |t| <= |mid.output|
      requires x == mid.input[mid.inPos..mid.inPos + |x|]
      requires now == mid.(inPos := mid.inPos + |x|, outPos := mid.outPos + |t|,
                           output := Splice(mid.output, mid.outPos, t),
                           consumed := mid.consumed + x, emitted := mid.emitted + t)
      ensures Follows(start, now)
    {
      FollowsThen(start, mid, now);
    }

    function EolLength(): (n: nat)
      reads `outputCrLf, `maxLineLen, `noFinalNewline
      ensures n == |Eol(Opts())|
    {
      if outputCrLf then 2 else 1
    }

    method EndLine(ghost start: Snapshot)
      requires Traced(start) && Encoding(Consumed, Emitted, Core())
      requires outPos + EolLength() <= outLen
      modifies this`outPos, this`Emitted, outBuffer
      ensures Traced(start) && Encoding(Consumed, Emitted, Core())
      ensures Puts(start.input, old(Here()), Here(), [], Eol(Opts()))
    {
      hide Encoding, Traced;
      TracedBounds(start);
      if outputCrLf {
        LineEndKeeps(Consumed, Emitted, Core(), CR);
        Emit(CR, start);
      }
      LineEndKeeps(Consumed, Emitted, Core(), LF);
      Emit(LF, start);
    }

    /** A run of whole groups and a line end. */
    method PutLine(inSegmentLen: nat, outSegmentLen: nat, ghost groups: nat, ghost start: Snapshot)
      returns (ghost x: seq<byte>)
      requires Traced(start) && Encoding(Consumed, Emitted, Core())
      requires inSegmentLen == 3 * groups && outSegmentLen == 4 * groups
      requires inPos + inSegmentLen <= inLen && outPos + outSegmentLen + EolLength() <= outLen
      requires state.S0? || groups == 0
      modifies this`inPos, this`outPos, this`Consumed, this`Emitted, outBuffer
      ensures Traced(start) && Encoding(Consumed, Emitted, Core()) && Valid()
      ensures |x| == inSegmentLen && |Chars(x)| == outSegmentLen
      ensures inPos == old(inPos) + inSegmentLen && outPos == old(outPos) + outSegmentLen + EolLength()
      ensures Puts(start.input, old(Here()), Here(), x, Chars(x) + Eol(Opts()))
    {
      hide Encoding, Traced, Puts, Chars, Eol;
      ghost var a := Here();
      x := EncodeGroups(inSegmentLen, outSegmentLen, groups, start);
      ghost var b := Here();
      PutsMoves(start.input, a, b, x, Chars(x));
      EndLine(start);
      PutsThen(start.input, a, b, Here(), x, Chars(x), [], Eol(Opts()));
      PutsMoves(start.input, a, Here(), x + [], Chars(x) + Eol(Opts()));
      assert x + [] == x;
      TracedBounds(start);
    }

    /** Between quartets, or with nothing left to do. */
    ghost predicate AtQuartet()
      reads this
    {
      state.S0? || inPos == inLen || outPos == outLen
    }

    /** dw_b64encoder_encode_fast. Its line ends may fall elsewhere than those of Encode; everything
        else about the text is the same. It needs a line of at least one quartet: see LineLoopEndsIff.
        The call puts what a slow call puts first, up to the end of the quartet (`head`); then the text of
        `lines`, each with its end, and that of `rest`, as FastLines says; then what a slow call puts. From
        a quartet boundary the column moves away from mLineLen by what is not counted of `rest` and, if a
        line was ended, by what mLineLen was not set back. */
    method EncodeFast() returns (ghost head: Result<Coding>, ghost lines: seq<seq<byte>>, ghost rest: seq<byte>)
      requires Valid() && Encoding(Consumed, Emitted, Core()) && 4 <= maxLineLen < 0x8000_0000
      modifies this`inPos, this`outPos, this`state, this`lastByte, this`lineLen, this`Consumed, this`Emitted, outBuffer
      ensures Traced(old(Now())) && Encoding(Consumed, Emitted, Core())
      ensures outPos == outLen || (inPos == inLen && (state.S0? || state.S1? || state.S2?))
      ensures SlowHead(Opts(), old(Core()), old(inBuffer[..]), old(inPos), inLen, outLen - old(outPos), head)
      ensures FastLines(Opts(), head.state.lineLen, old(inBuffer[..])[head.pos..inLen],
                        outLen - old(outPos) - |head.out|, lines, rest)
      ensures var pos := head.pos + |Flatten(lines)| + |rest|;
              var put := head.out + EndedLines(lines, Eol(Opts())) + Chars(rest);
              var r := Run(Encoder(Opts()), head.state, old(inBuffer[..]), pos, inLen, outLen - old(outPos) - |put|);
              Core() == r.state && inPos == r.pos && Emitted == old(Emitted) + put + r.out
      ensures |Chars(rest)| < Mask(maxLineLen) + EolLength()
      ensures old(state.S0?) && outLen - old(outPos) < 0x8000_0000 ==>
                Column(Emitted) - lineLen ==
                (if lines != [] then 0 else old(Column(Emitted))) + |Chars(rest)| - old(lineLen)
    {
      hide Encoding, Traced, Column, Mask, Chars, Eol, EndedLines, FastLines, Follows, SlowHead, Run, Flatten, Puts;
      ghost var core, start := Core(), Now();
      FinishTriplet(core, start);
      head := Result(Core(), inPos, Written(start));
      ghost var a := Here();
      lines, rest := LinesAndGroups(start);
      ghost var b := Here();
      PutsMoves(start.input, a, b, Flatten(lines) + rest, EndedLines(lines, Eol(Opts())) + Chars(rest));
      EncodeRest(start);
      Regroups(start.emitted, head.out, EndedLines(lines, Eol(Opts())), Chars(rest));
      if core.state.S0? && start.outPos + 0x8000_0000 > outLen {
        ColumnOfFast(Opts(), core, start.emitted, start.input, inLen, outLen - start.outPos, start.inPos, lines, rest);
      }
    }

    /** From a quartet boundary: what a fast call does to the column. */
    lemma ColumnOfFast(o: Options, e: Coding, t: seq<byte>, input: seq<byte>, end: nat, room: nat, pos: nat,
                       lines: seq<seq<byte>>, rest: seq<byte>)
      requires pos <= end <= |input| && e.state.S0? && room < 0x8000_0000
      requires FastLines(o, e.lineLen, input[pos..end], room, lines, rest)
      ensures var put, p := EndedLines(lines, Eol(o)) + Chars(rest), pos + |Flatten(lines)| + |rest|;
              && p <= end && |put| <= room
              && var r := Run(Encoder(o), e, input, p, end, room - |put|);
                 Column(t + put + r.out) - r.state.lineLen ==
                 (if lines != [] then 0 else Column(t)) + |Chars(rest)| - e.lineLen
    {
      hide Column, Mask, Chars, Eol, EndedLines, Flatten, Run, LineFits;
      var put, p := EndedLines(lines, Eol(o)) + Chars(rest), pos + |Flatten(lines)| + |rest|;
      NoLineEnd(o, e, t + put, input, p, end, room - |put|);
      ColumnOfLines(t, lines, o);
      CharsAreNotEol(rest);
      ColumnGrows(t + EndedLines(lines, Eol(o)), Chars(rest));
      assert t + put == t + EndedLines(lines, Eol(o)) + Chars(rest);
    }

    lemma Regroups(t: seq<byte>, a: seq<byte>, b: seq<byte>, c: seq<byte>)
      ensures t + a + (b + c) == t + (a + b + c)
      ensures a == [] ==> a + b + c == b + c
    {
    }


    /** The parts of dw_b64encoder_encode_fast that encode whole groups at once. */
    method LinesAndGroups(ghost start: Snapshot) returns (ghost lines: seq<seq<byte>>, ghost rest: seq<byte>)
      requires Traced(start) && Encoding(Consumed, Emitted, Core()) && AtQuartet() && 4 <= maxLineLen < 0x8000_0000
      modifies this`inPos, this`outPos, this`Consumed, this`Emitted, outBuffer
      ensures Traced(start) && Encoding(Consumed, Emitted, Core())
      ensures old(inPos) <= inLen <= |start.input| && old(outPos) <= outLen
      ensures FastLines(Opts(), lineLen, start.input[old(inPos)..inLen], outLen - old(outPos), lines, rest)
      ensures Puts(start.input, old(Here()), Here(), Flatten(lines) + rest,
                   EndedLines(lines, Eol(Opts())) + Chars(rest))
      ensures |Chars(rest)| < Mask(maxLineLen) + EolLength()
    {
      hide Encoding, Traced, Mask, Chars, Eol, EndedLines, FastLines, LineFits, Flatten, Puts, AtQuartet, Follows;
      MaskKeeps(maxLineLen);
      TracedBounds(start);
      ghost var o, a := Opts(), Here();
      ghost var first, full := WholeLines(start);
      ghost var c := Here();
      rest := PartialLine(start);
      TracedBounds(start);
      lines := first + full;
      TheseAreFast(o, lineLen, start.input, inLen, outLen, a, c, Here(), first, full, rest);
    }

    /** The parts that end lines: one that fills up the current line, and full ones. */
    method WholeLines(ghost start: Snapshot) returns (ghost first: seq<seq<byte>>, ghost full: seq<seq<byte>>)
      requires Traced(start) && Encoding(Consumed, Emitted, Core()) && AtQuartet() && Mask(maxLineLen) >= 4
      modifies this`inPos, this`outPos, this`Consumed, this`Emitted, outBuffer
      ensures Traced(start) && Encoding(Consumed, Emitted, Core()) && AtQuartet()
      ensures var n := Mask(Mask(maxLineLen) - lineLen);
              if old(LineFits(inLen - inPos, outLen - outPos, n, EolLength()))
              then |first| == 1 && |Chars(first[0])| == n
              else first == []
      ensures forall k :: 0 <= k < |full| ==> |Chars(full[k])| == Mask(maxLineLen)
      ensures !LineFits(inLen - inPos, outLen - outPos, Mask(maxLineLen), EolLength())
      ensures Puts(start.input, old(Here()), Here(), Flatten(first + full), EndedLines(first + full, Eol(Opts())))
    {
      hide Encoding, Traced, Mask, Chars, Eol, EndedLines, LineFits, Flatten, Puts;
      ghost var a := Here();
      first := FinishLine(start);
      ghost var b := Here();
      full := FullLines(start);
      PutsLines(Opts(), start.input, a, b, Here(), first, full);
    }

    lemma MaskKeeps(n: int)
      ensures Mask(n) % 4 == 0 && (4 <= n < 0x8000_0000 ==> 4 <= Mask(n) <= n)
    {
    }

    method EncodeRest(ghost start: Snapshot)
      requires Traced(start) && Encoding(Consumed, Emitted, Core())
      modifies this`inPos, this`outPos, this`state, this`lastByte, this`lineLen, this`Consumed, this`Emitted, outBuffer
      ensures Traced(start) && Encoding(Consumed, Emitted, Core())
      ensures outPos == outLen || (inPos == inLen && (state.S0? || state.S1? || state.S2?))
      ensures var r := Run(Encoder(Opts()), old(Core()), start.input, old(inPos), inLen, outLen - old(outPos));
              Core() == r.state && inPos == r.pos && Emitted == old(Emitted) + r.out
      ensures old(inPos) <= inLen <= |start.input| && old(outPos) <= outLen
    {
      hide Encoding, Traced, Follows, Written, Run, Act;
      TracedBounds(start);
      ghost var mid := Now();
      Encode();
      TracedBounds(mid);
      EmittedSince(mid);
      FollowsThen(start, mid, Now());
      TracedIs(start);
    }

    lemma EmittedSince(mid: Snapshot)
      requires Traced(mid)
      ensures Emitted == mid.emitted + Written(mid)
    {
    }

    lemma TracedNow()
      requires Valid()
      ensures Traced(Now())
    {
      SpliceNothing(outBuffer[..], outPos);
      assert outBuffer[outPos..outPos] == [] && inBuffer[..][inPos..inPos] == [];
      assert Consumed + [] == Consumed && Emitted + [] == Emitted;
    }

    lemma TracedIs(start: Snapshot)
      requires Valid() && Follows(start, Now())
      ensures Traced(start)
    {
    }

    /** Finishes the current group of three bytes as a slow call would. */
    method FinishTriplet(ghost core: Coding, ghost start: Snapshot)
      requires Valid() && Encoding(Consumed, Emitted, Core()) && core == Core() && start == Now()
      modifies this`inPos, this`outPos, this`state, this`lastByte, this`lineLen, this`Consumed, this`Emitted, outBuffer
      ensures Traced(start) && Encoding(Consumed, Emitted, Core()) && AtQuartet()
      ensures start.inPos <= inPos <= inLen && |Written(start)| == outPos - start.outPos
      ensures SlowHead(Opts(), core, start.input, start.inPos, inLen, outLen - start.outPos,
                       Result(Core(), inPos, Written(start)))
      ensures Emitted == start.emitted + Written(start)
      ensures core.state.S0? ==> Core() == core && Here() == Spot(start.inPos, start.outPos, start.emitted)
    {
      hide Encoding, Traced, Written, Since, Begins, Owed;
      SinceNow();
      while inPos < inLen && outPos < outLen && !state.S0?
        invariant Valid() && Since(core, start)
        invariant outPos - start.outPos + Owed(state) <= Owed(core.state)
        invariant core.state.S0? ==> Core() == core && Here() == Spot(start.inPos, start.outPos, start.emitted)
        decreases outLen - outPos
      {
        EncodeStep(core, start);
        SinceIsTraced(core, start);
      }
      SinceIsTraced(core, start);
      TracedBounds(start);
      EmittedSince(start);
    }

    /** Finishes the current line of output, if all of it can be read and written. With no input left and
        fewer than four columns free, that is a line end inside a quartet. */
    method FinishLine(ghost start: Snapshot) returns (ghost lines: seq<seq<byte>>)
      requires Traced(start) && Encoding(Consumed, Emitted, Core()) && AtQuartet()
      modifies this`inPos, this`outPos, this`Consumed, this`Emitted, outBuffer
      ensures Traced(start) && Encoding(Consumed, Emitted, Core()) && AtQuartet()
      ensures var n := Mask(Mask(maxLineLen) - lineLen);
              if old(LineFits(inLen - inPos, outLen - outPos, n, EolLength()))
              then |lines| == 1 && |Chars(lines[0])| == n
              else lines == []
      ensures Puts(start.input, old(Here()), Here(), Flatten(lines), EndedLines(lines, Eol(Opts())))
    {
      hide Encoding, Traced, Eol, Chars, Puts, EndedLines, Flatten, Mask;
      TracedBounds(start);
      var outSegmentLen := Mask(Mask(maxLineLen) - lineLen);
      var inSegmentLen := outSegmentLen / 4 * 3;
      lines := [];
      NoLines(Opts());
      ghost var a := Here();
      PutsNothing(start.input, a);
      if inPos + inSegmentLen <= inLen && outPos + outSegmentLen + EolLength() <= outLen {
        ghost var x := PutLine(inSegmentLen, outSegmentLen, outSegmentLen / 4, start);
        PutsLine(Opts(), start.input, a, a, Here(), [], x);
        lines := [x];
        assert [] + [x] == [x];
      }
    }

    ghost function Times(a: nat, b: nat): nat { a * b }

    lemma OneLess(quota: nat, m: nat)
      ensures quota == 0 ==> Times(quota, m) == 0
      ensures quota > 0 ==> Times(quota, m) == Times(quota - 1, m) + m
    {
    }

    lemma Quotient(n: nat, m: nat)
      requires m > 0
      ensures Times(n / m, m) <= n < Times(n / m, m) + m
    {
    }

    /** How far the line-by-line loop may read: the input that there is room for in whole lines. */
    method LineLimit(outSegmentLen: nat) returns (inLimit: int, ghost lines: nat)
      requires Valid()
      ensures inLimit - outSegmentLen / 4 * 3 ==
              LineLoopLimit(LinePass(inPos, outPos), inLen, outLen, outSegmentLen, EolLength())
      ensures var inSegmentLen, lineSpace := outSegmentLen / 4 * 3, outSegmentLen + EolLength();
              && inLimit <= inLen && inLimit <= inPos + Times(lines, inSegmentLen)
              && (inLimit == inLen || inLimit == inPos + Times(lines, inSegmentLen))
              && Times(lines, lineSpace) <= outLen - outPos < Times(lines, lineSpace) + lineSpace
    {
      var lineSpace := outSegmentLen + EolLength();
      var n := (outLen - outPos) / lineSpace;
      lines := n;
      Quotient(outLen - outPos, lineSpace);
      assert n * (outSegmentLen / 4 * 3) == Times(n, outSegmentLen / 4 * 3);
      hide Times;
      inLimit := inPos + n * (outSegmentLen / 4 * 3);
      if inLimit > inLen {
        inLimit := inLen;
      }
    }

    /** One line at a time, as long as a whole line of input and room for it and its end are left. */
    method FullLines(ghost start: Snapshot) returns (ghost lines: seq<seq<byte>>)
      requires Traced(start) && Encoding(Consumed, Emitted, Core()) && AtQuartet()
      requires Mask(maxLineLen) >= 4
      modifies this`inPos, this`outPos, this`Consumed, this`Emitted, outBuffer
      ensures Traced(start) && Encoding(Consumed, Emitted, Core()) && AtQuartet()
      ensures forall k :: 0 <= k < |lines| ==> |Chars(lines[k])| == Mask(maxLineLen)
      ensures Puts(start.input, old(Here()), Here(), Flatten(lines), EndedLines(lines, Eol(Opts())))
      ensures !LineFits(inLen - inPos, outLen - outPos, Mask(maxLineLen), EolLength())
    {
      hide Encoding, Traced, Times, Eol, Chars, EndedLines, Mask, Flatten, Puts;
      TracedBounds(start);
      var outSegmentLen := Mask(maxLineLen);
      ghost var groups := outSegmentLen / 4;
      var inSegmentLen := outSegmentLen / 4 * 3;
      // `quota` counts the lines there is still room for.
      ghost var quota: nat;
      var inLimit;
      inLimit, quota := LineLimit(outSegmentLen);
      ghost var inStop := inLimit;
      inLimit := inLimit - inSegmentLen;
      ghost var a := Here();
      lines := [];
      NoLines(Opts());
      PutsNothing(start.input, a);
      while inPos <= inLimit
        invariant Valid() && Traced(start) && Encoding(Consumed, Emitted, Core()) && AtQuartet()
        invariant inPos <= inStop <= inLen && inLimit == inStop - inSegmentLen
        invariant inStop == inLen || inStop == inPos + Times(quota, inSegmentLen)
        invariant Times(quota, outSegmentLen + EolLength()) <= outLen - outPos
        invariant outLen - outPos < Times(quota, outSegmentLen + EolLength()) + outSegmentLen + EolLength()
        invariant inStop - inPos <= Times(quota, inSegmentLen)
        invariant forall k :: 0 <= k < |lines| ==> |Chars(lines[k])| == outSegmentLen
        invariant Puts(start.input, a, Here(), Flatten(lines), EndedLines(lines, Eol(Opts())))
        decreases inLimit - inPos
      {
        OneLess(quota, inSegmentLen);
        OneLess(quota, outSegmentLen + EolLength());
        ghost var b := Here();
        ghost var line := PutLine(inSegmentLen, outSegmentLen, groups, start);
        PutsLine(Opts(), start.input, a, b, Here(), lines, line);
        lines := lines + [line];
        quota := quota - 1;
      }
      OneLess(quota, inSegmentLen);
      OneLess(quota, outSegmentLen + EolLength());
    }

    /** How much of the input and the output the last run of groups takes. */
    method PartialLengths() returns (inSegmentLen: nat, outSegmentLen: nat, ghost groups: nat)
      requires Valid()
      ensures inSegmentLen == 3 * groups <= inLen - inPos && outSegmentLen == 4 * groups <= outLen - outPos
      ensures outLen - outPos < 0x8000_0000 ==>
                inLen - inPos - inSegmentLen < 3 || outLen - outPos - outSegmentLen < 4
    {
      outSegmentLen := Mask(outLen - outPos);
      inSegmentLen := outSegmentLen / 4 * 3;
      groups := outSegmentLen / 4;
      if inSegmentLen > inLen - inPos {
        inSegmentLen := (inLen - inPos) / 3 * 3;
        outSegmentLen := inSegmentLen / 3 * 4;
        groups := (inLen - inPos) / 3;
      }
    }

    /** The remaining whole groups, without a line end. */
    method PartialLine(ghost start: Snapshot) returns (ghost rest: seq<byte>)
      requires Traced(start) && Encoding(Consumed, Emitted, Core()) && AtQuartet()
      modifies this`inPos, this`outPos, this`Consumed, this`Emitted, outBuffer
      ensures Traced(start) && Encoding(Consumed, Emitted, Core())
      ensures Puts(start.input, old(Here()), Here(), rest, Chars(rest)) && |rest| % 3 == 0
      ensures outLen - old(outPos) < 0x8000_0000 ==> inLen - inPos < 3 || outLen - outPos < 4
    {
      hide Encoding, Traced, Chars, Puts, Mask;
      TracedBounds(start);
      var inSegmentLen, outSegmentLen;
      ghost var groups;
      inSegmentLen, outSegmentLen, groups := PartialLengths();
      ghost var a := Here();
      rest := [];
      PutsNothing(start.input, a);
      CharsLength([], 0);
      if inSegmentLen > 0 {
        rest := EncodeGroups(inSegmentLen, outSegmentLen, groups, start);
        PutsMoves(start.input, a, Here(), rest, Chars(rest));
      }
    }

    /** dw_b64encoder_finish: one call of the finishing machine. Without buffer space it does nothing. */
    method Finish()
      requires Valid() && Carries(Consumed, Emitted, Core())
      modifies this`outPos, this`state, this`lineLen, this`Emitted, outBuffer
      ensures Traced(old(Now())) && Carries(Consumed, Emitted, Core())
      ensures var room := outLen - old(outPos);
              var r := Run(Finisher(Opts()), if room == 0 then old(Core()) else FinishEntry(Opts(), old(Core())),
                           [], 0, 0, room);
              Core() == r.state && Written(old(Now())) == r.out
    {
      hide Carries, Traced, Written, Run, Begins, Act, Follows, FinishDrain;
      ghost var start, room := Now(), outLen - outPos;
      assert Traced(start) && Written(start) == [] by { TracedNow(); TracedBounds(start); }
      if outPos < outLen && state.S0? && noFinalNewline {
        SuppressKeeps(Consumed, Emitted, Core());
        state := Done;
      }
      ghost var core := Core();
      BeginsNothing(Finisher(Opts()), core, [], 0, 0, room);
      FinishLoop(start, core, room);
    }

    /** The loop of dw_b64encoder_finish, from `core` on. */
    method FinishLoop(ghost start: Snapshot, ghost core: Coding, ghost room: nat)
      requires Traced(start) && Carries(Consumed, Emitted, Core())
      requires room == 0 || !state.S0? || !noFinalNewline
      requires |Written(start)| == room - (outLen - outPos)
      requires Begins(Finisher(Opts()), core, [], 0, 0, room, Result(Core(), 0, Written(start)))
      modifies this`outPos, this`state, this`lineLen, this`Emitted, outBuffer
      ensures Traced(start) && Carries(Consumed, Emitted, Core())
      ensures var r := Run(Finisher(Opts()), core, [], 0, 0, room);
              Core() == r.state && Written(start) == r.out
    {
      hide Carries, Traced, Written, Run, Begins, Act, Follows, FinishDrain;
      TracedBounds(start);
      while outPos < outLen && !state.Done?
        invariant Valid() && Traced(start) && Carries(Consumed, Emitted, Core())
        invariant room == 0 || !state.S0? || !noFinalNewline
        invariant |Written(start)| == room - (outLen - outPos)
        invariant Begins(Finisher(Opts()), core, [], 0, 0, room, Result(Core(), 0, Written(start)))
        decreases outLen - outPos
      {
        FinisherAct(Opts(), Core());
        BeginsMove(Finisher(Opts()), core, [], 0, 0, room, Result(Core(), 0, Written(start)));
        FinishStep(start);
        TracedBounds(start);
      }
      FinisherAct(Opts(), Core());
      BeginsAll(Finisher(Opts()), core, [], 0, 0, room, Result(Core(), 0, Written(start)));
    }

    /** One character of dw_b64encoder_finish. */
    method FinishStep(ghost start: Snapshot)
      requires Traced(start) && outPos < outLen && Carries(Consumed, Emitted, Core())
      requires !state.Done? && (!state.S0? || !noFinalNewline)
      modifies this`outPos, this`state, this`lineLen, this`Emitted, outBuffer
      ensures Traced(start) && Carries(Consumed, Emitted, Core()) && outPos == old(outPos) + 1
      ensures FinishDrain(Opts(), old(Core())).Put?
      ensures Core() == FinishDrain(Opts(), old(Core())).next
      ensures Written(start) == old(Written(start)) + [FinishDrain(Opts(), old(Core())).c]
    {
      hide Carries, Traced, Written, FinishDrain;
      FinishDrainKeeps(Opts(), Consumed, Emitted, Core());
      var c := FinishChar();
      Emit(c, start);
    }

    /** The cases of the switch of dw_b64encoder_finish that store a character. */
    method FinishChar() returns (c: byte)
      requires !state.Done? && (!state.S0? || !noFinalNewline)
      modifies this`state, this`lineLen
      ensures FinishDrain(Opts(), old(Core())) == Put(Core(), c)
    {
      hide Char64, Mask;
      match state {
        case S0 =>
          state := Done;
          lineLen := 0;
          if outputCrLf {
            state := OutputLf;
            c := CR;
          } else {
            c := LF;
          }
        case S1 =>
          state := OutputEqEq;
          c := Char64(lastByte % 4 * 16);
          lineLen := lineLen + 1;
        case S2 =>
          state := OutputEq;
          c := Char64(lastByte % 16 * 4);
          lineLen := lineLen + 1;
        case S3 =>
          state := Done;
          c := Char64(lastByte % 64);
          lineLen := lineLen + 1;
          EndData();
        case OutputEqEq =>
          state := OutputEq;
          c := PAD;
        case OutputEq =>
          state := Done;
          c := PAD;
          EndData();
        case OutputLf =>
          state := Done;
          c := LF;
        case OutputCrLf =>
          state := OutputLf;
          c := CR;
      }
    }

    method EndData()
      requires state.Done?
      modifies this`state, this`lineLen
      ensures Core() == DataEnd(Opts(), old(Core()))
    {
      if lineLen >= Mask(maxLineLen) || !noFinalNewline {
        lineLen := 0;
        state := if outputCrLf then OutputCrLf else OutputLf;
      }
    }
  }

  /** A window of input and a new output buffer for the next call. */
  method GiveBuffers(b: EncoderBuffers, input: seq<byte>, room: nat)
    modifies b
    ensures fresh(b.inBuffer) && b.inBuffer[..] == input && b.inPos == 0 && b.inLen == |input|
    ensures fresh(b.outBuffer) && b.outBuffer.Length == room && b.outPos == 0 && b.outLen == room
    ensures b.inBuffer != b.outBuffer && b.Core() == old(b.Core()) && b.Opts() == old(b.Opts())
    ensures b.maxLineLen == old(b.maxLineLen) && b.Consumed == old(b.Consumed) && b.Emitted == old(b.Emitted)
  {
    var window := new byte[|input|](i requires 0 <= i < |input| => input[i]);
    assert window[..] == input;
    b.inBuffer, b.inPos, b.inLen := window, 0, |input|;
    b.outBuffer, b.outPos, b.outLen := new byte[room](_ => 0), 0, room;
  }

  /** What a call has consumed and emitted. */
  lemma Grown(a: Snapshot, b: Snapshot)
    requires Follows(a, b)
    ensures a.inPos <= b.inPos <= |a.input| && a.outPos <= b.outPos <= |b.output|
    ensures b.consumed == a.consumed + a.input[a.inPos..b.inPos]
    ensures b.emitted == a.emitted + b.output[a.outPos..b.outPos]
  {
  }
}
