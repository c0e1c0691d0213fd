/** The streaming decoder of service/cpplib/mimepp/src/base64.c: a character-at-a-time machine, the
    three C routines as methods over buffers, and the equivalence of the fast one. */
module Base64Decoder {
  import opened Bytes
  import opened Base64Text
  import opened Streams

  datatype State = S0 | S1 | S2 | S3 | Done

  const SKIP: int := 127
  const BAD: int := 191
  const END: int := 64

  /** The table base64Map: a value below 64, or one of SKIP, BAD and END. */
  function Map64(c: byte): (n: int)
    ensures n < 64 <==> Value64(c) < 64
    ensures n < 64 ==> n == Value64(c)
    ensures n == SKIP <==> c in {9, LF, 12, CR, 32}
    ensures n == END <==> c == PAD
    ensures n == BAD <==> Value64(c) == 64 && c !in {9, LF, 12, CR, 32, PAD}
  {
    if Value64(c) < 64 then Value64(c)
    else if c == 9 || c == LF || c == 12 || c == CR || c == 32 then SKIP
    else if c == PAD then END
    else BAD
  }

  /** What a later call can still observe of the decoder: `last` is read only in S1, S2 and S3. */
  datatype Decoding = Decoding(state: State, last: byte, error: bool)

  function Observable(state: State, last: byte, error: bool): Decoding {
    Decoding(state, if state.S0? || state.Done? then 0 else last, error)
  }

  const START := Decoding(S0, 0, false)

  function Feed(d: Decoding, c: byte): (f: Fed<Decoding>)
    ensures f.Refuse? <==> d.state.Done?
  {
    var n := Map64(c);
    if d.state.Done? then Refuse
    else if n < 64 then
      match d.state
      case S0 => Take(Decoding(S1, n, d.error))
      case S1 => Convert(Decoding(S2, n, d.error), (d.last * 4 + n / 16) % 256)
      case S2 => Convert(Decoding(S3, n, d.error), (d.last * 16 + n / 4) % 256)
      case S3 => Convert(Decoding(S0, 0, d.error), (d.last * 64 + n) % 256)
    else if n == SKIP then Take(d)
    else if n == END then Take(Decoding(Done, 0, d.error))
    else Take(d.(error := true))
  }

  /** The decoder as a machine: it reacts to each character and puts nothing by itself. */
  const DECODER: Machine<Decoding> := Machine((d: Decoding) => Nothing, Feed)

  /** One character, without the machinery of Act. */
  lemma OneCharacter(d: Decoding, input: seq<byte>, pos: nat, end: nat)
    requires pos < end <= |input|
    ensures Act(DECODER, d, input, pos, end) ==
            match Feed(d, input[pos])
            case Refuse => Stop
            case Take(next) => Move(next, pos + 1, [])
            case Convert(next, c) => Move(next, pos + 1, [c])
  {
  }

  /** The machine has no move at the end of the input or of the data. */
  lemma CallEnds(d: Decoding, input: seq<byte>, pos: nat, end: nat)
    requires pos <= end <= |input|
    ensures pos == end || d.state.Done? ==> Act(DECODER, d, input, pos, end).Stop?
  {
  }

  /** Characters and bytes the current quartet still needs. */
  function CharsOwed(state: State): nat {
    match state case S0 => 4 case S1 => 3 case S2 => 2 case S3 => 1 case Done => 0
  }

  function BytesOwed(state: State): nat {
    match state case S0 => 3 case S1 => 3 case S2 => 2 case S3 => 1 case Done => 0
  }

  /** The low 24 bits of `n`, cut in bytes. */
  function Cut24(n: nat): (b: seq<byte>)
    ensures |b| == 3
  {
    [n / 256 / 256 % 256, n / 256 % 256, n % 256]
  }

  lemma Cut24Values(a: nat, b: nat, c: nat, e: nat)
    requires a < 64 && b < 64 && c < 64 && e < 64
    ensures Cut24(((a * 64 + b) * 64 + c) * 64 + e) ==
            [(a * 4 + b / 16) % 256, (b * 16 + c / 4) % 256, (c * 64 + e) % 256]
  {
    var high := a * 4 + b / 16;
    var middle := b % 16 * 16 + c / 4;
    DivideBy256(((a * 64 + b) * 64 + c) * 64 + e, high * 256 + middle, c % 4 * 64 + e);
    DivideBy256(high * 256 + middle, high, middle);
    DivideBy256(b * 16 + c / 4, b / 16, middle);
    DivideBy256(c * 64 + e, c / 4, c % 4 * 64 + e);
  }

  /** Four alphabet characters at a quartet boundary are four moves that put those bytes. */
  lemma QuartetMoves(d: Decoding, input: seq<byte>, pos: nat, end: nat, room: nat)
    requires pos + 4 <= end <= |input| && room >= 3 && d.state == S0 && d.last == 0
    requires forall k :: pos <= k < pos + 4 ==> Map64(input[k]) < 64
    ensures var n := ((Map64(input[pos]) * 64 + Map64(input[pos + 1])) * 64 + Map64(input[pos + 2])) * 64
                     + Map64(input[pos + 3]);
            Begins(DECODER, d, input, pos, end, room, Result(d, pos + 4, Cut24(n)))
  {
    hide Begins, Act, Run, Cut24, Map64;
    var a, b, c, e := Map64(input[pos]), Map64(input[pos + 1]), Map64(input[pos + 2]), Map64(input[pos + 3]);
    var nothing: seq<byte> := [];
    assert nothing + nothing == nothing;
    var x, y, z := (a * 4 + b / 16) % 256, (b * 16 + c / 4) % 256, (c * 64 + e) % 256;
    BeginsNothing(DECODER, d, input, pos, end, room);
    OneCharacter(d, input, pos, end);
    BeginsMove(DECODER, d, input, pos, end, room, Result(d, pos, []));
    var d1 := Decoding(S1, a, d.error);
    OneCharacter(d1, input, pos + 1, end);
    BeginsMove(DECODER, d, input, pos, end, room, Result(d1, pos + 1, []));
    var d2 := Decoding(S2, b, d.error);
    assert [] + [x] == [x];
    OneCharacter(d2, input, pos + 2, end);
    BeginsMove(DECODER, d, input, pos, end, room, Result(d2, pos + 2, [x]));
    var d3 := Decoding(S3, c, d.error);
    assert [x] + [y] == [x, y];
    OneCharacter(d3, input, pos + 3, end);
    BeginsMove(DECODER, d, input, pos, end, room, Result(d3, pos + 3, [x, y]));
    assert [x, y] + [z] == [x, y, z];
    Cut24Values(a, b, c, e);
  }

  lemma SkipMove(d: Decoding, input: seq<byte>, pos: nat, end: nat, room: nat)
    requires pos < end <= |input| && room > 0 && d.state == S0 && Map64(input[pos]) == SKIP
    ensures Begins(DECODER, d, input, pos, end, room, Result(d, pos + 1, []))
  {
    hide Begins, Run, Act, Map64;
    OneCharacter(d, input, pos, end);
    RunMove(DECODER, d, input, pos, end, room);
  }

  /** The decoder at the start of a call. */
  datatype Snapshot = Snapshot(core: Decoding, input: seq<byte>, inPos: nat, output: seq<byte>, outPos: nat)

  class Decoder {
    var inPos: nat
    var inLen: nat
    var inBuffer: array<byte>
    var outPos: nat
    var outLen: nat
    var outBuffer: array<byte>
    var state: State
    var error: bool
    var lastByte: byte

    ghost predicate Valid()
      reads this
    {
      inPos <= inLen <= inBuffer.Length && outPos <= outLen <= outBuffer.Length && inBuffer != outBuffer
    }

    function Core(): Decoding
      reads this
    {
      Observable(state, lastByte, error)
    }

    method Start()
      modifies this`state, this`error, this`lastByte
      ensures Core() == START
    {
      state, error, lastByte := S0, false, 0;
    }

    /** The switch that dw_b64decoder_decode and dw_b64decoder_decode4 share. At the end of a quartet
        decode4 leaves by its goto before mLastByte is set, so the two leave different values there
        unless the last two characters of the quartet are the same. */
    method OneChar(sync: bool)
      requires Valid() && inPos < inLen && outPos < outLen && !state.Done?
      modifies this`inPos, this`outPos, this`state, this`error, this`lastByte, outBuffer
      ensures Valid() && inPos == old(inPos) + 1
      ensures inBuffer[..] == old(inBuffer[..])
      ensures Feed(old(Core()), old(inBuffer[inPos])) ==
              if outPos == old(outPos) then Take(Core()) else Convert(Core(), outBuffer[old(outPos)])
      ensures if outPos == old(outPos) then outBuffer[..] == old(outBuffer[..])
              else outPos == old(outPos) + 1 &&
                   outBuffer[..] == old(outBuffer[..])[old(outPos) := outBuffer[old(outPos)]]
      ensures var n := Map64(old(inBuffer[inPos]));
              lastByte == if n < 64 && !(sync && old(state).S3?) then n else old(lastByte)
    {
      var n := Map64(inBuffer[inPos]);
      inPos := inPos + 1;
      if n < 64 {
        match state {
          case S0 =>
            state := S1;
          case S1 =>
            state := S2;
            outBuffer[outPos] := (lastByte * 4 + n / 16) % 256;
            outPos := outPos + 1;
          case S2 =>
            state := S3;
            outBuffer[outPos] := (lastByte * 16 + n / 4) % 256;
            outPos := outPos + 1;
          case S3 =>
            state := S0;
            outBuffer[outPos] := (lastByte * 64 + n) % 256;
            outPos := outPos + 1;
            if sync {
              return;
            }
        }
        lastByte := n;
      } else if n == SKIP {
      } else if n == END {
        state := Done;
      } else {
        error := true;
      }
    }

    /** What the current call has done since it was in `start`: the machine began by reaching the
        present state, and what it put is in the output buffer, which is otherwise unchanged. */
    ghost predicate Since(start: Snapshot)
      reads this, inBuffer, outBuffer
    {
      && Valid()
      && inBuffer[..] == start.input && start.inPos <= inLen
      && start.outPos <= outPos && outBuffer.Length == |start.output|
      && outBuffer[..] == Splice(start.output, start.outPos, outBuffer[start.outPos..outPos])
      && Begins(DECODER, start.core, start.input, start.inPos, inLen, outLen - start.outPos,
                Result(Core(), inPos, outBuffer[start.outPos..outPos]))
    }

    ghost function Now(): Snapshot
      reads this, inBuffer, outBuffer
    {
      Snapshot(Core(), inBuffer[..], inPos, outBuffer[..], outPos)
    }

    lemma SinceNow()
      requires Valid()
      ensures Since(Now())
    {
      hide Begins;
      BeginsNothing(DECODER, Core(), inBuffer[..], inPos, inLen, outLen - outPos);
      assert outBuffer[outPos..outPos] == [];
    }

    /** OneChar as one move of the machine. */
    method Advance(sync: bool, ghost start: Snapshot)
      requires Valid() && inPos < inLen && outPos < outLen && !state.Done? && Since(start)
      modifies this`inPos, this`outPos, this`state, this`error, this`lastByte, outBuffer
      ensures Since(start) && inPos == old(inPos) + 1 && outPos >= old(outPos)
      ensures Feed(old(Core()), old(inBuffer[inPos])) ==
              if outPos == old(outPos) then Take(Core()) else Convert(Core(), outBuffer[old(outPos)])
      ensures outPos <= old(outPos) + 1
    {
      hide Begins, Run, Act, Feed, Map64, Splice;
      ghost var out := outBuffer[start.outPos..outPos];
      ghost var room := outLen - start.outPos;
      OneCharacter(Core(), start.input, inPos, inLen);
      BeginsMove(DECODER, start.core, start.input, start.inPos, inLen, room, Result(Core(), inPos, out));
      OneChar(sync);
      if outPos == start.outPos + |out| {
        assert out + [] == out;
      } else {
        SpliceOne(start.output, start.outPos, out, outBuffer[outPos - 1]);
      }
      assert outBuffer[start.outPos..outPos] ==
             out + if outPos == start.outPos + |out| then [] else [outBuffer[outPos - 1]];
    }

    /** dw_b64decoder_decode: one call of the machine. */
    method Decode()
      requires Valid()
      modifies this`inPos, this`outPos, this`state, this`error, this`lastByte, outBuffer
      ensures Valid()
      ensures var r := Run(DECODER, old(Core()), old(inBuffer[..]), old(inPos), inLen, outLen - old(outPos));
              && Core() == r.state && inPos == r.pos && outPos == old(outPos) + |r.out|
              && inBuffer[..] == old(inBuffer[..])
              && outBuffer[..] == Splice(old(outBuffer[..]), old(outPos), r.out)
    {
      hide Begins, Run, Act, Feed, Splice;
      ghost var start := Now();
      SinceNow();
      Finish(start);
    }

    /** The loop of dw_b64decoder_decode, as the end of a call that began in `start`. */
    method Finish(ghost start: Snapshot)
      requires Since(start)
      modifies this`inPos, this`outPos, this`state, this`error, this`lastByte, outBuffer
      ensures Since(start)
      ensures var r := Run(DECODER, start.core, start.input, start.inPos, inLen, outLen - start.outPos);
              Core() == r.state && inPos == r.pos && outBuffer[start.outPos..outPos] == r.out
    {
      hide Begins, Run, Act, Feed;
      while inPos < inLen && outPos < outLen && !state.Done?
        invariant Since(start)
        decreases inLen - inPos
      {
        Advance(false, start);
      }
      CallEnds(Core(), start.input, inPos, inLen);
      BeginsAll(DECODER, start.core, start.input, start.inPos, inLen, outLen - start.outPos,
                Result(Core(), inPos, outBuffer[start.outPos..outPos]));
    }

    /** dw_b64decoder_decode4: goes on with a call, up to the end of the current quartet. */
    method Decode4(ghost start: Snapshot)
      requires !state.Done? && Since(start)
      modifies this`inPos, this`outPos, this`state, this`error, this`lastByte, outBuffer
      ensures Since(start) && outPos >= old(outPos)
      ensures outPos - old(outPos) <= BytesOwed(old(state))
      ensures state.Done?
              || (outPos - old(outPos) < BytesOwed(old(state)) && (inPos == inLen || outPos == outLen))
              || (state.S0? && outPos - old(outPos) == BytesOwed(old(state))
                  && inPos - old(inPos) >= CharsOwed(old(state)))
      ensures old(inPos) < inLen && old(outPos) < outLen ==> inPos > old(inPos)
    {
      hide Begins, Run, Act, Map64, Since;
      ghost var st, p, o := state, inPos, outPos;
      assert Valid() by { SinceIsValid(start); }
      var done := false;
      while !done && inPos < inLen && outPos < outLen
        invariant Valid() && Since(start) && outPos >= o
        invariant inPos > p || (inPos == p && !done)
        invariant !done ==> !state.Done? && outPos - o + BytesOwed(state) == BytesOwed(st)
                            && inPos - p + CharsOwed(state) >= CharsOwed(st)
        invariant done ==> outPos - o <= BytesOwed(st)
        invariant done ==> state.Done?
                           || (state.S0? && outPos - o == BytesOwed(st) && inPos - p >= CharsOwed(st))
        decreases inLen - inPos
      {
        done := state.S3? && Map64(inBuffer[inPos]) < 64;
        Advance(true, start);
        SinceIsValid(start);
        done := done || state.Done?;
      }
    }

    lemma SinceIsValid(start: Snapshot)
      requires Since(start)
      ensures Valid()
    {
    }

    /** The body of the inner loop of dw_b64decoder_decode_fast: four alphabet characters at once;
        otherwise one or two skipped characters, or decode4. */
    method FastQuartet(ghost start: Snapshot)
      requires Since(start) && state.S0? && inPos + 4 <= inLen && outPos + 3 <= outLen
      modifies this`inPos, this`outPos, this`state, this`error, this`lastByte, outBuffer
      ensures Since(start) && inPos > old(inPos)
      ensures state.Done?
              || (outPos - old(outPos) <= 3 && inPos == inLen)
              || (state.S0? && (outPos == old(outPos) || (outPos == old(outPos) + 3 && inPos >= old(inPos) + 4)))
    {
      hide Begins, Run, Act, Map64, Cut24;
      var c1, c2 := Map64(inBuffer[inPos]), Map64(inBuffer[inPos + 1]);
      var c3, c4 := Map64(inBuffer[inPos + 2]), Map64(inBuffer[inPos + 3]);
      if c1 < 64 && c2 < 64 && c3 < 64 && c4 < 64 {
        PutQuartet(c1, c2, c3, c4, start);
      } else if c1 == SKIP {
        Skip(start);
        if c2 == SKIP {
          Skip(start);
        }
      } else {
        Decode4(start);
      }
    }

    method PutQuartet(c1: nat, c2: nat, c3: nat, c4: nat, ghost start: Snapshot)
      requires Since(start) && state.S0? && inPos + 4 <= inLen && outPos + 3 <= outLen
      requires c1 == Map64(inBuffer[inPos]) && c2 == Map64(inBuffer[inPos + 1])
      requires c3 == Map64(inBuffer[inPos + 2]) && c4 == Map64(inBuffer[inPos + 3])
      requires c1 < 64 && c2 < 64 && c3 < 64 && c4 < 64
      modifies this`inPos, this`outPos, outBuffer
      ensures Since(start) && inPos == old(inPos) + 4 && outPos == old(outPos) + 3
    {
      hide Begins, Run, Act, Map64, Cut24, Splice;
      ghost var out := outBuffer[start.outPos..outPos];
      var n := ((c1 * 64 + c2) * 64 + c3) * 64 + c4;
      ghost var bytes := Cut24(n);
      QuartetMoves(Core(), start.input, inPos, inLen, outLen - outPos);
      BeginsThen(DECODER, start.core, start.input, start.inPos, inLen, outLen - start.outPos,
                 Result(Core(), inPos, out), Result(Core(), inPos + 4, bytes));
      SpliceTwice(start.output, start.outPos, out, bytes);
      inPos := inPos + 4;
      Write24(n);
      SpliceHolds(start.output, start.outPos, out + bytes);
      assert outBuffer[start.outPos..outPos] == outBuffer[..][start.outPos..outPos] == out + bytes;
    }

    method Write24(value: nat)
      requires outPos + 3 <= outLen <= outBuffer.Length
      modifies this`outPos, outBuffer
      ensures outPos == old(outPos) + 3
      ensures outBuffer[..] == Splice(old(outBuffer[..]), old(outPos), Cut24(value))
    {
      var n := value;
      outPos := outPos + 3;
      outBuffer[outPos - 1] := n % 256;
      n := n / 256;
      outBuffer[outPos - 2] := n % 256;
      n := n / 256;
      outBuffer[outPos - 3] := n % 256;
    }

    method Skip(ghost start: Snapshot)
      requires Since(start) && state.S0? && inPos < inLen && outPos < outLen
      requires Map64(inBuffer[inPos]) == SKIP
      modifies this`inPos
      ensures Since(start) && inPos == old(inPos) + 1
    {
      hide Begins, Run, Act, Map64;
      ghost var out := outBuffer[start.outPos..outPos];
      SkipMove(Core(), start.input, inPos, inLen, outLen - outPos);
      BeginsThen(DECODER, start.core, start.input, start.inPos, inLen, outLen - start.outPos,
                 Result(Core(), inPos, out), Result(Core(), inPos + 1, []));
      assert out + [] == out;
      inPos := inPos + 1;
    }

    /** dw_b64decoder_decode_fast does exactly what one call of the machine, and so what
        dw_b64decoder_decode, does. */
    method DecodeFast()
      requires Valid()
      modifies this`inPos, this`outPos, this`state, this`error, this`lastByte, outBuffer
      ensures Valid()
      ensures var r := Run(DECODER, old(Core()), old(inBuffer[..]), old(inPos), inLen, outLen - old(outPos));
              && Core() == r.state && inPos == r.pos && outPos == old(outPos) + |r.out|
              && inBuffer[..] == old(inBuffer[..])
              && outBuffer[..] == Splice(old(outBuffer[..]), old(outPos), r.out)
    {
      hide Begins, Run, Act, Feed, Splice;
      ghost var start := Now();
      SinceNow();
      FastLoop(start);
      Finish(start);
    }

    /** Gets in step with the quartets and decodes them while there is input and room for one. */
    method FastLoop(ghost start: Snapshot)
      requires Since(start)
      modifies this`inPos, this`outPos, this`state, this`error, this`lastByte, outBuffer
      ensures Since(start)
    {
      hide Since, Begins;
      SinceIsValid(start);
      if !state.Done? {
        Decode4(start);
        SinceIsValid(start);
      }
      while !state.Done? && inPos + 4 <= inLen && outPos + 3 <= outLen
        invariant Valid() && Since(start)
        invariant state.Done? || state.S0? || inPos == inLen || outPos == outLen
        decreases inLen - inPos
      {
        // The input that the output space is enough for, whatever it holds.
        ghost var quota := (outLen - outPos) / 3;
        var inLimit := inPos + (outLen - outPos) / 3 * 4;
        if inLimit > inLen {
          inLimit := inLen;
        }
        inLimit := inLimit - 4;
        ghost var p := inPos;
        while !state.Done? && inPos <= inLimit
          invariant Valid() && Since(start)
          invariant state.Done? || state.S0? || inPos == inLen
          invariant inPos > p || (inPos == p <= inLimit && !state.Done?)
          invariant inLimit + 4 <= inLen
          invariant state.Done? || inPos > inLimit || (outPos + 3 * quota <= outLen && inLimit + 4 - inPos <= 4 * quota)
          decreases inLen - inPos
        {
          ghost var o := outPos;
          FastQuartet(start);
          SinceIsValid(start);
          if outPos > o {
            quota := quota - 1;
          }
        }
      }
    }
  }
}
