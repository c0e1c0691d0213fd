/** What mixing the routines of base64.c comes to: any calls of encode, encode_fast and finish that get
    to the end leave text that decodes to what was consumed, and calls with input and room always
    get to the end. */
module Base64Progress {
  import opened Bytes
  import opened Base64Text
  import opened Streams
  import E = Base64Encoder
  import D = Base64Decoder
  import opened Base64EncoderBuffers
  import opened Base64RoundTrip

  // ---- Any mix of calls ----

  /** A call of the slow or of the fast routine, on at most `avail` more bytes and `room` of buffer. */
  datatype EncodeCall = EncodeCall(fast: bool, avail: nat, room: nat)

  /** One call with a window of the input and a new output buffer. */
  method EncodeOnce(b: EncoderBuffers, window: seq<byte>, fast: bool, room: nat) returns (used: nat, out: seq<byte>)
    requires E.Encoding(b.Consumed, b.Emitted, b.Core()) && 4 <= b.maxLineLen < 0x8000_0000
    modifies b
    ensures E.Encoding(b.Consumed, b.Emitted, b.Core()) && b.maxLineLen == old(b.maxLineLen)
    ensures used <= |window| && |out| <= room
    ensures b.Consumed == old(b.Consumed) + window[..used] && b.Emitted == old(b.Emitted) + out
  {
    hide E.Encoding, Follows, E.Mask, Run;
    GiveBuffers(b, window, room);
    ghost var start := b.Now();
    if fast {
      var _, _, _ := b.EncodeFast();
    } else {
      b.Encode();
    }
    Grown(start, b.Now());
    used, out := b.inPos, b.outBuffer[..b.outPos];
  }

  /** One call of finish with a new output buffer. */
  method FinishOnce(b: EncoderBuffers, room: nat) returns (out: seq<byte>)
    requires E.Carries(b.Consumed, b.Emitted, b.Core())
    modifies b
    ensures E.Carries(b.Consumed, b.Emitted, b.Core()) && b.Consumed == old(b.Consumed)
    ensures |out| <= room && b.Emitted == old(b.Emitted) + out
  {
    hide E.Carries, Follows, Run;
    GiveBuffers(b, [], room);
    ghost var start := b.Now();
    b.Finish();
    Grown(start, b.Now());
    out := b.outBuffer[..b.outPos];
  }

  /** An encoding by any calls of encode and encode_fast, in any mix, and then any calls of finish: what
      was consumed is a prefix of the input, the text the buffers got carries it, and when the encoder is
      done with all of the input the text is its encoding, line ends aside, and decodes to it in any
      calls of the decoder. */
  method AnyMix(b: EncoderBuffers, input: seq<byte>, calls: seq<EncodeCall>, finish: seq<nat>)
    returns (pos: nat, text: seq<byte>)
    requires 4 <= b.maxLineLen < 0x8000_0000
    modifies b
    ensures pos <= |input| && b.Consumed == input[..pos] && b.Emitted == text
    ensures E.Carries(input[..pos], text, b.Core())
    ensures b.state.Done? && pos == |input| ==> Strip(text) == Encoded(input)
    ensures b.state.Done? && pos == |input| ==> forall decode :: DecodesTo(text, decode, input)
  {
    hide E.Encoding, E.Carries, DecodesTo;
    b.Start();
    pos, text := 0, [];
    for k := 0 to |calls|
      invariant 4 <= b.maxLineLen < 0x8000_0000 && E.Encoding(b.Consumed, b.Emitted, b.Core())
      invariant pos <= |input| && b.Consumed == input[..pos] && b.Emitted == text
    {
      var shown := Shown(input, pos, calls[k].avail);
      var used, out := EncodeOnce(b, input[pos..shown], calls[k].fast, calls[k].room);
      assert input[..pos] + input[pos..shown][..used] == input[..pos + used];
      pos, text := pos + used, text + out;
    }
    EncodingCarries(b.Consumed, b.Emitted, b.Core());
    for k := 0 to |finish|
      invariant b.Consumed == input[..pos] && b.Emitted == text && E.Carries(b.Consumed, b.Emitted, b.Core())
    {
      var out := FinishOnce(b, finish[k]);
      text := text + out;
    }
    if b.state.Done? && pos == |input| {
      assert input[..pos] == input;
      DoneDecodes(input, text, b.Core());
    }
  }

  lemma EncodingCarries(c: seq<byte>, t: seq<byte>, e: E.Coding)
    requires E.Encoding(c, t, e)
    ensures E.Carries(c, t, e)
  {
    hide E.Carries;
  }

  /** The decoder given the text in these calls puts a prefix of `bytes`, and once it has come to the end
      of the data all of them, without error. */
  ghost predicate DecodesTo(text: seq<byte>, decode: seq<Call>, bytes: seq<byte>) {
    var r := Session(D.DECODER, D.START, text, 0, decode);
    && r.out <= bytes
    && (r.pos == |text| || r.state.state.Done? ==> r.out == bytes && !r.state.error)
  }

  lemma DoneDecodes(c: seq<byte>, t: seq<byte>, e: E.Coding)
    requires E.Carries(c, t, e) && e.state.Done?
    ensures Strip(t) == Encoded(c) && forall decode :: DecodesTo(t, decode, c)
  {
    hide Session, Strip, Encoded;
    forall decode
      ensures DecodesTo(t, decode, c)
    {
      DecodesInAnyCalls(c, t, decode);
    }
  }

  // ---- Calls get to the end ----

  /** Every call is shown a character, if there is one left, and has room for one. */
  predicate Feeding(calls: seq<Call>) {
    forall k :: 0 <= k < |calls| ==> calls[k].avail >= 1 && calls[k].room >= 1
  }

  /** The moves that encode can still make. */
  function Left(e: E.Coding, length: nat, pos: nat): nat
    requires pos <= length
  {
    4 * (length - pos) + Due(e.state)
  }

  lemma {:induction false} RunMakesNoMore(o: E.Options, e: E.Coding, input: seq<byte>, pos: nat, end: nat, room: nat)
    requires pos <= end <= |input| && E.HasCase(e.state)
    ensures var r := Run(E.Encoder(o), e, input, pos, end, room);
            E.HasCase(r.state.state) && Left(r.state, |input|, r.pos) <= Left(e, |input|, pos)
    decreases end - pos + room
  {
    hide Run, Act;
    var m := E.Encoder(o);
    E.EncoderAct(o, e, input, pos, end);
    var a := Act(m, e, input, pos, end);
    if room == 0 || a.Stop? {
      RunStop(m, e, input, pos, end, room);
    } else {
      RunMove(m, e, input, pos, end, room);
      RunMakesNoMore(o, a.next, input, a.pos, end, room - |a.out|);
    }
  }

  lemma CallMakesProgress(o: E.Options, e: E.Coding, input: seq<byte>, pos: nat, end: nat, room: nat)
    requires pos < end <= |input| && room >= 1 && E.HasCase(e.state)
    ensures var r := Run(E.Encoder(o), e, input, pos, end, room);
            E.HasCase(r.state.state) && Left(r.state, |input|, r.pos) < Left(e, |input|, pos)
  {
    hide Run, Act;
    var m := E.Encoder(o);
    E.EncoderAct(o, e, input, pos, end);
    var a := Act(m, e, input, pos, end);
    RunMove(m, e, input, pos, end, room);
    RunMakesNoMore(o, a.next, input, a.pos, end, room - |a.out|);
  }

  lemma {:induction false} EnoughCalls(o: E.Options, e: E.Coding, input: seq<byte>, pos: nat, calls: seq<Call>)
    requires pos <= |input| && E.HasCase(e.state) && Feeding(calls) && |calls| >= Left(e, |input|, pos)
    ensures Session(E.Encoder(o), e, input, pos, calls).pos == |input|
    decreases |calls|
  {
    hide Run, Left;
    if pos < |input| {
      MovesAreLeft(e, |input|, pos);
      var shown := Shown(input, pos, calls[0].avail);
      assert shown > pos;
      CallMakesProgress(o, e, input, pos, shown, calls[0].room);
      var r := Run(E.Encoder(o), e, input, pos, shown, calls[0].room);
      EnoughCalls(o, r.state, input, r.pos, calls[1..]);
    }
  }

  lemma MovesAreLeft(e: E.Coding, length: nat, pos: nat)
    requires pos < length
    ensures Left(e, length, pos) > 0
  {
  }

  lemma {:induction false} FinishMakesNoMore(o: E.Options, e: E.Coding, room: nat)
    ensures var r := Run(E.Finisher(o), e, [], 0, 0, room);
            && Rank(r.state.state) <= Rank(e.state)
            && (room >= 1 && !e.state.Done? ==> Rank(r.state.state) < Rank(e.state))
    decreases room
  {
    hide Run, Act;
    E.FinisherAct(o, e);
    if room == 0 || e.state.Done? {
      RunStop(E.Finisher(o), e, [], 0, 0, room);
    } else {
      RunMove(E.Finisher(o), e, [], 0, 0, room);
      FinishMakesNoMore(o, E.FinishDrain(o, e).next, room - 1);
    }
  }

  lemma {:induction false} EnoughFinish(o: E.Options, e: E.Coding, calls: seq<Call>)
    requires Feeding(calls) && |calls| >= Rank(e.state)
    ensures Session(E.Finisher(o), e, [], 0, calls).state.state.Done?
    decreases |calls|
  {
    hide Run;
    if calls != [] {
      var r := Run(E.Finisher(o), e, [], 0, 0, calls[0].room);
      FinishMakesNoMore(o, e, calls[0].room);
      EnoughFinish(o, r.state, calls[1..]);
    }
  }

  /** Four calls of encode for each byte and six of finish, each with input and room, are always enough
      to get to the end. */
  lemma AlwaysCompletes(o: E.Options, input: seq<byte>, calls: seq<Call>, finish: seq<Call>)
    requires Feeding(calls) && Feeding(finish) && |calls| >= 4 * |input| && |finish| >= 6
    ensures Complete(o, input, calls, finish)
  {
    hide Session;
    EnoughCalls(o, E.START, input, 0, calls);
    var e := EncodeCalls(o, input, calls).state;
    EnoughFinish(o, E.FinishEntry(o, e), finish);
    FinishIsSession(o, e, finish);
    assert finish[0].room > 0;
  }
}
