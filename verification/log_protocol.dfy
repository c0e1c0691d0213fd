/** The length-prefixed framing of service/mtftps/logserver.py. */
module LogProtocol {
  import opened Bytes

  /** The body length announced at the head of a stream. */
  function Announced(s: seq<byte>): nat
    requires |s| >= 4
  {
    FromBigEndian32(s[..4])
  }

  /** A whole frame stands at the head of the stream. */
  predicate HasFrame(s: seq<byte>) {
    |s| >= 4 && Announced(s) <= |s| - 4
  }

  function Body(s: seq<byte>): seq<byte>
    requires HasFrame(s)
  {
    s[4..4 + Announced(s)]
  }

  function Behind(s: seq<byte>): (r: seq<byte>)
    requires HasFrame(s)
    ensures |r| < |s|
  {
    s[4 + Announced(s)..]
  }

  /** The frames of a stream and its unfinished tail. */
  datatype Split = Split(bodies: seq<seq<byte>>, tail: seq<byte>)

  function Frames(s: seq<byte>): (r: Split)
    ensures !HasFrame(r.tail)
    decreases |s|
  {
    if HasFrame(s) then
      var r := Frames(Behind(s));
      Split([Body(s)] + r.bodies, r.tail)
    else Split([], s)
  }

  /** A frame as a sender writes it: the length of the body in four bytes, then the body. */
  function Frame(body: seq<byte>): seq<byte>
    requires |body| < TWO32
  {
    BigEndian32(|body|) + body
  }

  predicate Sendable(bodies: seq<seq<byte>>) {
    forall k :: 0 <= k < |bodies| ==> |bodies[k]| < TWO32
  }

  function Stream(bodies: seq<seq<byte>>, tail: seq<byte>): seq<byte>
    requires Sendable(bodies)
  {
    if bodies == [] then tail else Frame(bodies[0]) + Stream(bodies[1..], tail)
  }

  lemma FrameAtHead(body: seq<byte>, rest: seq<byte>)
    requires |body| < TWO32
    ensures HasFrame(Frame(body) + rest)
    ensures Body(Frame(body) + rest) == body && Behind(Frame(body) + rest) == rest
  {
    var s := Frame(body) + rest;
    assert s[..4] == BigEndian32(|body|);
    BigEndian32RoundTrip(|body|);
  }

  /** What was sent is what is parsed: the frames in order, and the unfinished tail. */
  lemma {:induction false} StreamParses(bodies: seq<seq<byte>>, tail: seq<byte>)
    requires Sendable(bodies) && !HasFrame(tail)
    ensures Frames(Stream(bodies, tail)) == Split(bodies, tail)
    decreases |bodies|
  {
    if bodies != [] {
      FrameAtHead(bodies[0], Stream(bodies[1..], tail));
      StreamParses(bodies[1..], tail);
    }
  }

  /** What is parsed is all that was received. */
  lemma {:induction false} ParseIsComplete(s: seq<byte>)
    ensures var r := Frames(s); Sendable(r.bodies) && Stream(r.bodies, r.tail) == s
    decreases |s|
  {
    if HasFrame(s) {
      var r := Frames(Behind(s));
      ParseIsComplete(Behind(s));
      HeadIsFrame(s);
      assert ([Body(s)] + r.bodies)[1..] == r.bodies;
      assert s == Frame(Body(s)) + Behind(s);
    }
  }

  lemma HeadIsFrame(s: seq<byte>)
    requires HasFrame(s)
    ensures |Body(s)| < TWO32 && Frame(Body(s)) + Behind(s) == s
  {
    FromBigEndian32RoundTrip(s[..4]);
    assert s == s[..4] + Body(s) + Behind(s);
  }

  /** More data changes neither the frames already complete nor, before them, anything else. */
  lemma {:induction false} FramesGrow(s: seq<byte>, more: seq<byte>)
    ensures var r, r' := Frames(s), Frames(Frames(s).tail + more);
            Frames(s + more) == Split(r.bodies + r'.bodies, r'.tail)
    decreases |s|
  {
    hide Body, Behind, HasFrame, Frames;
    FramesStep(s);
    var r, r' := Frames(s), Frames(Frames(s).tail + more);
    if HasFrame(s) {
      HeadStays(s, more);
      FramesStep(s + more);
      FramesGrow(Behind(s), more);
      var b := Frames(Behind(s)).bodies;
      assert [Body(s)] + (b + r'.bodies) == [Body(s)] + b + r'.bodies;
    } else {
      assert [] + r'.bodies == r'.bodies;
    }
  }

  lemma HeadStays(s: seq<byte>, more: seq<byte>)
    requires HasFrame(s)
    ensures HasFrame(s + more) && Body(s + more) == Body(s) && Behind(s + more) == Behind(s) + more
  {
    assert (s + more)[..4] == s[..4];
  }

  lemma FramesStep(s: seq<byte>)
    ensures Frames(s) == if HasFrame(s) then Split([Body(s)] + Frames(Behind(s)).bodies, Frames(Behind(s)).tail)
                         else Split([], s)
  {
  }

  // ---- Bodies that cannot be loaded ----

  /** What pickle.loads accepts. */
  type Loader = seq<byte> -> bool

  /** The number of bodies before the first that the loader rejects. */
  function Loaded(loads: Loader, bodies: seq<seq<byte>>): (n: nat)
    ensures n <= |bodies|
    ensures forall k :: 0 <= k < n ==> loads(bodies[k])
    ensures n < |bodies| ==> !loads(bodies[n])
  {
    if bodies == [] || !loads(bodies[0]) then 0 else 1 + Loaded(loads, bodies[1..])
  }

  lemma {:induction false} LoadedThen(loads: Loader, a: seq<seq<byte>>, b: seq<seq<byte>>)
    requires Loaded(loads, a) == |a|
    ensures Loaded(loads, a + b) == |a| + Loaded(loads, b)
    decreases |a|
  {
    if a == [] {
      assert a + b == b;
    } else {
      assert (a + b)[1..] == a[1..] + b;
      LoadedThen(loads, a[1..], b);
    }
  }

  lemma {:induction false} LoadedAtMost(loads: Loader, a: seq<seq<byte>>, b: seq<seq<byte>>)
    requires Loaded(loads, a) < |a|
    ensures Loaded(loads, a + b) == Loaded(loads, a) && (a + b)[..Loaded(loads, a)] == a[..Loaded(loads, a)]
    decreases |a|
  {
    assert (a + b)[1..] == a[1..] + b;
    if loads(a[0]) {
      LoadedAtMost(loads, a[1..], b);
    }
  }

  class Receiver {
    const loads: Loader
    var inputBuffer: seq<byte>
    // The bodies handed to the logger, in order.
    var handled: seq<seq<byte>>

    // Everything received so far.
    ghost var Received: seq<byte>

    /** Every frame of what was received has been handled, and its unfinished tail is kept. */
    ghost predicate Valid()
      reads this
    {
      Frames(Received) == Split(handled, inputBuffer) && Loaded(loads, handled) == |handled|
    }

    /** A body was rejected: the records before it were handled, and what stood behind it is lost. */
    ghost predicate Broken()
      reads this
    {
      var bodies := Frames(Received).bodies;
      var n := Loaded(loads, bodies);
      n < |bodies| && handled == bodies[..n] && inputBuffer == []
    }

    constructor (loads: Loader)
      ensures Valid() && Received == [] && handled == [] && this.loads == loads
    {
      this.loads := loads;
      inputBuffer, handled, Received := [], [], [];
    }

    /** dataReceived. A body that cannot be loaded ends the call by an exception. */
    method DataReceived(chunk: seq<byte>) returns (raised: bool)
      requires Valid()
      modifies this
      ensures Received == old(Received) + chunk
      ensures if raised then Broken() else Valid()
    {
      hide Frames, FromBigEndian32, Loaded;
      var data := chunk;
      FramesGrow(Received, chunk);
      assert inputBuffer == [] ==> inputBuffer + chunk == chunk;
      Received := Received + chunk;
      if inputBuffer != [] {
        data := inputBuffer + data;
        inputBuffer := [];
      }
      while true
        invariant inputBuffer == [] && Received == old(Received) + chunk
        invariant Frames(Received) == Split(handled + Frames(data).bodies, Frames(data).tail)
        invariant Loaded(loads, handled) == |handled|
        decreases |data|
      {
        FramesStep(data);
        assert handled + [] == handled;
        if |data| < 4 {
          inputBuffer := data;
          return false;
        }
        assert data[0..4] == data[..4];
        var slen := FromBigEndian32(data[0..4]);
        if slen <= |data| - 4 {
          var body := data[4..4 + slen];
          ghost var later := Frames(data[4 + slen..]).bodies;
          assert handled + ([body] + later) == handled + [body] + later;
          LoadedThen(loads, handled, [body]);
          LoadedOne(loads, body);
          data := data[4 + slen..];
          if !loads(body) {
            LoadedAtMost(loads, handled + [body], later);
            return true;
          }
          handled := handled + [body];
        } else {
          inputBuffer := data;
          return false;
        }
      }
    }
  }

  lemma LoadedOne(loads: Loader, body: seq<byte>)
    ensures Loaded(loads, [body]) == if loads(body) then 1 else 0
  {
  }

  /** However a stream is cut into received chunks, up to the first exception: the records handled are
      its complete frames and the buffer holds its unfinished tail, if and only if every body can be
      loaded; otherwise they are the frames before the first body that cannot. */
  method ReceiveAll(loads: Loader, chunks: seq<seq<byte>>)
    returns (raised: bool, handled: seq<seq<byte>>, tail: seq<byte>)
    ensures var s := Frames(Flatten(chunks));
            var n := Loaded(loads, s.bodies);
            raised == (n < |s.bodies|) && handled == s.bodies[..n] && tail == if raised then [] else s.tail
  {
    hide Frames, Loaded;
    var r := new Receiver(loads);
    raised := false;
    var k := 0;
    while k < |chunks| && !raised
      invariant 0 <= k <= |chunks| && fresh(r) && r.loads == loads && r.Received == Flatten(chunks[..k])
      invariant if raised then r.Broken() else r.Valid()
      decreases |chunks| - k
    {
      raised := r.DataReceived(chunks[k]);
      assert chunks[..k + 1] == chunks[..k] + [chunks[k]];
      FlattenAppend(chunks[..k], chunks[k]);
      k := k + 1;
    }
    handled, tail := r.handled, r.inputBuffer;
    if raised {
      LaterIsLost(loads, chunks, k);
    } else {
      assert chunks[..k] == chunks;
      assert handled[..|handled|] == handled;
    }
  }

  /** What comes after the chunk that raised makes no difference to what was handled. */
  lemma LaterIsLost(loads: Loader, chunks: seq<seq<byte>>, k: nat)
    requires k <= |chunks|
    requires var bodies := Frames(Flatten(chunks[..k])).bodies; Loaded(loads, bodies) < |bodies|
    ensures var bodies, all := Frames(Flatten(chunks[..k])).bodies, Frames(Flatten(chunks)).bodies;
            var n := Loaded(loads, bodies);
            Loaded(loads, all) == n < |all| && all[..n] == bodies[..n]
  {
    hide Frames, Loaded;
    FlattenSplit(chunks, k);
    var s, more := Flatten(chunks[..k]), Flatten(chunks[k..]);
    FramesGrow(s, more);
    LoadedAtMost(loads, Frames(s).bodies, Frames(Frames(s).tail + more).bodies);
  }

  lemma {:induction false} FlattenSplit<T>(parts: seq<seq<T>>, k: nat)
    requires k <= |parts|
    ensures Flatten(parts) == Flatten(parts[..k]) + Flatten(parts[k..])
    decreases k
  {
    if k == 0 {
      assert parts[..0] == [] && parts[0..] == parts;
    } else {
      assert parts[..k][0] == parts[0] && parts[..k][1..] == parts[1..][..k - 1] && parts[1..][k - 1..] == parts[k..];
      FlattenSplit(parts[1..], k - 1);
    }
  }
}
