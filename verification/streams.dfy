/** Resumable byte machines, as the coders of base64.c are: a machine may put a character on its own
    or react to an input character, and a call runs it over the input it was given while there is
    room for output. What a call does must not depend on how a stream was cut into calls. */
module Streams {
  import opened Bytes

  datatype Drained<S> = Nothing | Put(next: S, c: byte)
  datatype Fed<S> = Refuse | Take(next: S) | Convert(next: S, c: byte)

  /** `drain` says what a state puts without input; `feed` what it does with a character. */
  datatype Machine<!S> = Machine(drain: S -> Drained<S>, feed: (S, byte) -> Fed<S>)

  /** One move: the state and input position reached, the bytes produced. */
  datatype Move<S> = Stop | Move(next: S, pos: nat, out: seq<byte>)

  function Act<S>(m: Machine<S>, s: S, input: seq<byte>, pos: nat, end: nat): (a: Move<S>)
    requires pos <= end <= |input|
    ensures a.Move? ==> pos <= a.pos <= pos + 1 && a.pos <= end && |a.out| <= 1 && a.pos + |a.out| > pos
  {
    match m.drain(s)
    case Put(next, c) => Move(next, pos, [c])
    case Nothing =>
      if pos == end then Stop
      else
        match m.feed(s, input[pos])
        case Refuse => Stop
        case Take(next) => Move(next, pos + 1, [])
        case Convert(next, c) => Move(next, pos + 1, [c])
  }

  /** The outcome of a call: the state and input position reached, the bytes produced. */
  datatype Result<S> = Result(state: S, pos: nat, out: seq<byte>)

  function Prepend<S>(out: seq<byte>, r: Result<S>): Result<S> {
    r.(out := out + r.out)
  }

  /** One call on `input[pos..end]`; `room` is the free space of the output buffer. */
  function Run<S>(m: Machine<S>, s: S, input: seq<byte>, pos: nat, end: nat, room: nat): (r: Result<S>)
    requires pos <= end <= |input|
    ensures pos <= r.pos <= end && |r.out| <= room
    decreases end - pos + room
  {
    var a := Act(m, s, input, pos, end);
    if room == 0 || a.Stop? then Result(s, pos, [])
    else Prepend(a.out, Run(m, a.next, input, a.pos, end, room - |a.out|))
  }

  /** A call can begin by reaching `r`: what it does is that, and then what a call does from there. */
  ghost predicate Begins<S>(m: Machine<S>, s: S, input: seq<byte>, pos: nat, end: nat, room: nat,
                            r: Result<S>)
    requires pos <= end <= |input|
  {
    && pos <= r.pos <= end && |r.out| <= room
    && Run(m, s, input, pos, end, room) ==
       Prepend(r.out, Run(m, r.state, input, r.pos, end, room - |r.out|))
  }

  /** Beginnings compose. */
  lemma BeginsThen<S>(m: Machine<S>, s: S, input: seq<byte>, pos: nat, end: nat, room: nat,
                      r: Result<S>, r': Result<S>)
    requires pos <= end <= |input|
    requires Begins(m, s, input, pos, end, room, r)
    requires Begins(m, r.state, input, r.pos, end, room - |r.out|, r')
    ensures Begins(m, s, input, pos, end, room, Prepend(r.out, r'))
  {
    hide Run, Act;
    var rest := Run(m, r'.state, input, r'.pos, end, room - |r.out| - |r'.out|);
    assert r.out + (r'.out + rest.out) == r.out + r'.out + rest.out;
  }

  lemma RunMove<S>(m: Machine<S>, s: S, input: seq<byte>, pos: nat, end: nat, room: nat)
    requires pos <= end <= |input| && room > 0 && Act(m, s, input, pos, end).Move?
    ensures var a := Act(m, s, input, pos, end);
            && Run(m, s, input, pos, end, room) ==
               Prepend(a.out, Run(m, a.next, input, a.pos, end, room - |a.out|))
            && Begins(m, s, input, pos, end, room, Result(a.next, a.pos, a.out))
  {
    hide Act;
  }

  lemma RunStop<S>(m: Machine<S>, s: S, input: seq<byte>, pos: nat, end: nat, room: nat)
    requires pos <= end <= |input| && (room == 0 || Act(m, s, input, pos, end).Stop?)
    ensures Run(m, s, input, pos, end, room) == Result(s, pos, [])
  {
    hide Act;
  }

  lemma BeginsNothing<S>(m: Machine<S>, s: S, input: seq<byte>, pos: nat, end: nat, room: nat)
    requires pos <= end <= |input|
    ensures Begins(m, s, input, pos, end, room, Result(s, pos, []))
  {
    hide Act, Run;
  }

  /** One more move after a beginning. */
  lemma BeginsMove<S>(m: Machine<S>, s: S, input: seq<byte>, pos: nat, end: nat, room: nat, r: Result<S>)
    requires pos <= end <= |input| && Begins(m, s, input, pos, end, room, r)
    requires |r.out| < room && Act(m, r.state, input, r.pos, end).Move?
    ensures var a := Act(m, r.state, input, r.pos, end);
            Begins(m, s, input, pos, end, room, Result(a.next, a.pos, r.out + a.out))
  {
    hide Act, Run;
    var a := Act(m, r.state, input, r.pos, end);
    RunMove(m, r.state, input, r.pos, end, room - |r.out|);
    BeginsThen(m, s, input, pos, end, room, r, Result(a.next, a.pos, a.out));
  }

  /** A beginning after which nothing can move is the whole call. */
  lemma BeginsAll<S>(m: Machine<S>, s: S, input: seq<byte>, pos: nat, end: nat, room: nat, r: Result<S>)
    requires pos <= end <= |input| && Begins(m, s, input, pos, end, room, r)
    requires |r.out| == room || Act(m, r.state, input, r.pos, end).Stop?
    ensures Run(m, s, input, pos, end, room) == r
  {
    hide Act;
    assert r.out + [] == r.out;
  }

  lemma MoveNeedsNoMore<S>(m: Machine<S>, s: S, input: seq<byte>, pos: nat, shown: nat, end: nat)
    requires pos <= shown <= end <= |input|
    ensures Act(m, s, input, pos, shown).Move? ==>
              Act(m, s, input, pos, end) == Act(m, s, input, pos, shown)
  {
  }

  lemma MoveOnCopy<S>(m: Machine<S>, s: S, input: seq<byte>, pos: nat, shown: nat, start: nat)
    requires start <= pos <= shown <= |input|
    ensures var a := Act(m, s, input, pos, shown);
            Act(m, s, input[start..shown], pos - start, shown - start) ==
            if a.Stop? then Stop else Move(a.next, a.pos - start, a.out)
  {
  }

  /** A call on less input and a smaller buffer is the beginning of a call on all of it. */
  lemma {:induction false} CallIsPrefix<S>(m: Machine<S>, s: S, input: seq<byte>, pos: nat, shown: nat,
                                           room: nat, end: nat, whole: nat)
    requires pos <= shown <= end <= |input| && room <= whole
    ensures Begins(m, s, input, pos, end, whole, Run(m, s, input, pos, shown, room))
    decreases shown - pos + room
  {
    hide Act, Run, Begins;
    var a := Act(m, s, input, pos, shown);
    if room == 0 || a.Stop? {
      RunStop(m, s, input, pos, shown, room);
      BeginsNothing(m, s, input, pos, end, whole);
    } else {
      MoveNeedsNoMore(m, s, input, pos, shown, end);
      RunMove(m, s, input, pos, end, whole);
      RunMove(m, s, input, pos, shown, room);
      CallIsPrefix(m, a.next, input, a.pos, shown, room - |a.out|, end, whole - |a.out|);
      BeginsThen(m, s, input, pos, end, whole, Result(a.next, a.pos, a.out),
                 Run(m, a.next, input, a.pos, shown, room - |a.out|));
    }
  }

  /** A call does the same on a copy of its window. */
  lemma {:induction false} WindowIsCopied<S>(m: Machine<S>, s: S, input: seq<byte>, pos: nat, shown: nat,
                                             start: nat, room: nat)
    requires start <= pos <= shown <= |input|
    ensures var r := Run(m, s, input, pos, shown, room);
            Run(m, s, input[start..shown], pos - start, shown - start, room) == r.(pos := r.pos - start)
    decreases shown - pos + room
  {
    hide Act, Run;
    MoveOnCopy(m, s, input, pos, shown, start);
    var a := Act(m, s, input, pos, shown);
    var copy := input[start..shown];
    if room == 0 || a.Stop? {
      RunStop(m, s, input, pos, shown, room);
      RunStop(m, s, copy, pos - start, shown - start, room);
    } else {
      RunMove(m, s, input, pos, shown, room);
      RunMove(m, s, copy, pos - start, shown - start, room);
      WindowIsCopied(m, a.next, input, a.pos, shown, start, room - |a.out|);
    }
  }

  /** A caller that shows the machine at most `avail` more characters and `room` of buffer. */
  datatype Call = Call(avail: nat, room: nat)

  function Shown(input: seq<byte>, pos: nat, avail: nat): (n: nat)
    requires pos <= |input|
    ensures pos <= n <= |input|
  {
    if pos + avail <= |input| then pos + avail else |input|
  }

  /** A sequence of calls; each goes on where the one before stopped, with a fresh buffer. */
  function Session<S>(m: Machine<S>, s: S, input: seq<byte>, pos: nat, calls: seq<Call>): (r: Result<S>)
    requires pos <= |input|
    ensures pos <= r.pos <= |input| && |r.out| <= TotalRoom(calls)
    decreases |calls|
  {
    if calls == [] then Result(s, pos, [])
    else
      var r := Run(m, s, input, pos, Shown(input, pos, calls[0].avail), calls[0].room);
      Prepend(r.out, Session(m, r.state, input, r.pos, calls[1..]))
  }

  function TotalRoom(calls: seq<Call>): nat {
    if calls == [] then 0 else calls[0].room + TotalRoom(calls[1..])
  }

  /** However a stream is cut into calls, the calls together do what one call does first. */
  lemma {:induction false} SessionIsPrefix<S>(m: Machine<S>, s: S, input: seq<byte>, pos: nat,
                                              calls: seq<Call>, whole: nat)
    requires pos <= |input| && TotalRoom(calls) <= whole
    ensures Begins(m, s, input, pos, |input|, whole, Session(m, s, input, pos, calls))
    decreases |calls|
  {
    hide Act, Run, Begins;
    if calls == [] {
      BeginsNothing(m, s, input, pos, |input|, whole);
    } else {
      var shown := Shown(input, pos, calls[0].avail);
      var r := Run(m, s, input, pos, shown, calls[0].room);
      CallIsPrefix(m, s, input, pos, shown, calls[0].room, |input|, whole);
      SessionIsPrefix(m, r.state, input, r.pos, calls[1..], whole - |r.out|);
      BeginsThen(m, s, input, pos, |input|, whole, r, Session(m, r.state, input, r.pos, calls[1..]));
    }
  }

  /** A call that leaves buffer space stops only because the machine has no move on what is left. */
  lemma {:induction false} RoomLeft<S>(m: Machine<S>, s: S, input: seq<byte>, pos: nat, end: nat, room: nat)
    requires pos <= end <= |input|
    ensures var r := Run(m, s, input, pos, end, room);
            |r.out| < room ==> Act(m, r.state, input, r.pos, end).Stop?
    decreases end - pos + room
  {
    hide Act, Run;
    var a := Act(m, s, input, pos, end);
    if room == 0 || a.Stop? {
      RunStop(m, s, input, pos, end, room);
    } else {
      RunMove(m, s, input, pos, end, room);
      RoomLeft(m, a.next, input, a.pos, end, room - |a.out|);
    }
  }
}
