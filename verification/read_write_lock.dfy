/** The monitor of service/cpplib/mutex/timedreadwritelock.cpp: its atomic sections as methods, and
    every interleaving of the threads that call them. */
module ReadWriteLock {
  /** The fields m_bWriteLocked, m_nReadLockedCount and m_nWaitingForWriteLock. */
  datatype Monitor = Monitor(writeLocked: bool, readers: int, waitingWriters: int)

  const FREE := Monitor(false, 0, 0)

  predicate Locked(m: Monitor) {
    m.readers > 0 || m.writeLocked
  }

  predicate KeepsReadersOut(m: Monitor) {
    m.writeLocked || m.waitingWriters > 0
  }

  /** What one pass of a waiting loop comes to. */
  datatype Outcome = Granted | Refused | Waits

  function ReadPass(m: Monitor, mayWait: bool): (r: (Monitor, Outcome)) {
    if KeepsReadersOut(m) then (m, if mayWait then Waits else Refused)
    else (m.(readers := m.readers + 1), Granted)
  }

  function WritePass(m: Monitor, mayWait: bool): (r: (Monitor, Outcome)) {
    if Locked(m) then
      if mayWait then (m.(waitingWriters := m.waitingWriters + 1), Waits) else (m, Refused)
    else (m.(writeLocked := true), Granted)
  }

  /** A writer that wakes up or times out is no longer counted as waiting. */
  function WriterLeavesWait(m: Monitor): Monitor {
    m.(waitingWriters := m.waitingWriters - 1)
  }

  datatype Released = Ok | Error

  function Release(m: Monitor): (r: (Monitor, Released)) {
    if !Locked(m) then (m, Error)
    else if m.readers > 0 then (m.(readers := m.readers - 1), Ok)
    else (m.(writeLocked := false), Ok)
  }

  class TimedReadWriteLock {
    var writeLocked: bool
    var readLockedCount: int
    var waitingForWriteLock: int

    function View(): Monitor
      reads this
    {
      Monitor(writeLocked, readLockedCount, waitingForWriteLock)
    }

    constructor ()
      ensures View() == FREE
    {
      writeLocked, readLockedCount, waitingForWriteLock := false, 0, 0;
    }

    /** timedWaitReadLockUntil from its start, or from a wake-up, to its end or its next wait. */
    method ReadSection(zeroTime: bool) returns (o: Outcome)
      modifies this
      ensures (View(), o) == ReadPass(old(View()), !zeroTime)
    {
      if (writeLocked || waitingForWriteLock > 0) && zeroTime {
        return Refused;
      }
      if writeLocked || waitingForWriteLock > 0 {
        return Waits;
      }
      readLockedCount := readLockedCount + 1;
      return Granted;
    }

    /** timedWaitWriteLockUntil from its start to its end or its first wait. */
    method WriteSection(zeroTime: bool) returns (o: Outcome)
      modifies this
      ensures (View(), o) == WritePass(old(View()), !zeroTime)
    {
      var locked := readLockedCount > 0 || writeLocked;
      if locked && zeroTime {
        return Refused;
      }
      if locked {
        waitingForWriteLock := waitingForWriteLock + 1;
        return Waits;
      }
      writeLocked := true;
      return Granted;
    }

    /** The end of a writer's wait, where the counter is decreased again, and what follows it. */
    method WriterWakes(timedOut: bool) returns (o: Outcome)
      modifies this
      ensures (View(), o) == if timedOut then (WriterLeavesWait(old(View())), Refused)
                             else WritePass(WriterLeavesWait(old(View())), true)
    {
      waitingForWriteLock := waitingForWriteLock - 1;
      if timedOut {
        return Refused;
      }
      o := WriteSection(false);
    }

    /** release. Its last branch, which throws, cannot be reached. */
    method ReleaseSection() returns (r: Released)
      modifies this
      ensures (View(), r) == Release(old(View()))
    {
      if !(readLockedCount > 0) && !writeLocked {
        return Error;
      }
      if readLockedCount > 0 {
        readLockedCount := readLockedCount - 1;
      } else if writeLocked {
        writeLocked := false;
      } else {
        assert false;
      }
      return Ok;
    }
  }

  // ---- Every interleaving ----

  type Thread = nat

  /** Where a thread is: outside, waiting in one of the two operations, or holding the lock. */
  datatype Place = Outside | WaitsToRead | WaitsToWrite | Reads | Writes

  datatype System = System(monitor: Monitor, at: map<Thread, Place>)

  /** The threads of a program, all outside. */
  function Start(threads: set<Thread>): System {
    System(FREE, map t | t in threads :: Outside)
  }

  datatype Step =
    | Read(t: Thread, zeroTime: bool)
    | Write(t: Thread, zeroTime: bool)
    | Wake(t: Thread)
    | TimeOut(t: Thread)
    | Leave(t: Thread)

  function After(o: Outcome, granted: Place, waiting: Place): Place {
    match o case Granted => granted case Refused => Outside case Waits => waiting
  }

  /** A step of a thread that can make it; any other step changes nothing. A thread that waits calls
      nothing, but one that holds nothing may call release. */
  function Next(s: System, step: Step): System {
    var t := step.t;
    if t !in s.at then s
    else
      match step
      case Read(_, zeroTime) =>
        if s.at[t] != Outside then s
        else var (m, o) := ReadPass(s.monitor, !zeroTime); System(m, s.at[t := After(o, Reads, WaitsToRead)])
      case Write(_, zeroTime) =>
        if s.at[t] != Outside then s
        else var (m, o) := WritePass(s.monitor, !zeroTime); System(m, s.at[t := After(o, Writes, WaitsToWrite)])
      case Wake(_) =>
        if s.at[t] == WaitsToRead then
          var (m, o) := ReadPass(s.monitor, true); System(m, s.at[t := After(o, Reads, WaitsToRead)])
        else if s.at[t] == WaitsToWrite then
          var (m, o) := WritePass(WriterLeavesWait(s.monitor), true);
          System(m, s.at[t := After(o, Writes, WaitsToWrite)])
        else s
      case TimeOut(_) =>
        if s.at[t] == WaitsToRead then System(s.monitor, s.at[t := Outside])
        else if s.at[t] == WaitsToWrite then System(WriterLeavesWait(s.monitor), s.at[t := Outside])
        else s
      case Leave(_) =>
        if s.at[t] == WaitsToRead || s.at[t] == WaitsToWrite then s
        else System(Release(s.monitor).0, s.at[t := Outside])
  }

  function Run(s: System, steps: seq<Step>): System
    decreases |steps|
  {
    if steps == [] then s else Next(Run(s, steps[..|steps| - 1]), steps[|steps| - 1])
  }

  /** The threads at a place. */
  function Those(at: map<Thread, Place>, p: Place): set<Thread> {
    set t | t in at && at[t] == p
  }

  function Count(at: map<Thread, Place>, p: Place): nat {
    |Those(at, p)|
  }

  /** The monitor counts the threads; a writer excludes readers and other writers. */
  ghost predicate Safe(s: System) {
    && s.monitor.readers == Count(s.at, Reads)
    && s.monitor.waitingWriters == Count(s.at, WaitsToWrite)
    && Count(s.at, Writes) == (if s.monitor.writeLocked then 1 else 0)
    && (s.monitor.writeLocked ==> s.monitor.readers == 0)
  }

  /** Moving a thread changes the sizes of the places it leaves and enters, and no others. */
  lemma Move(at: map<Thread, Place>, t: Thread, to: Place, p: Place)
    requires t in at
    ensures Count(at[t := to], p) == Count(at, p) - (if at[t] == p then 1 else 0) + (if to == p then 1 else 0)
  {
    MovedSet(at, t, to, p);
    hide Those;
    var before, after := Those(at, p), Those(at[t := to], p);
    assert t in before <==> at[t] == p by { MemberOf(at, t, p); }
    if at[t] == p && to != p {
      assert |before - {t}| == |before| - 1;
    } else if at[t] != p && to == p {
      assert |before + {t}| == |before| + 1;
    }
  }

  lemma MemberOf(at: map<Thread, Place>, t: Thread, p: Place)
    requires t in at
    ensures t in Those(at, p) <==> at[t] == p
  {
  }

  lemma MovedSet(at: map<Thread, Place>, t: Thread, to: Place, p: Place)
    requires t in at
    ensures Those(at[t := to], p) ==
            if at[t] == p && to != p then Those(at, p) - {t}
            else if at[t] != p && to == p then Those(at, p) + {t}
            else Those(at, p)
  {
  }

  /** A release is by a holder, or comes to the error because nobody holds the lock. */
  predicate Permitted(s: System, step: Step) {
    step.Leave? && step.t in s.at && s.at[step.t] == Outside ==> !Locked(s.monitor)
  }

  /** A step keeps the monitor right about its threads if and only if it is permitted. */
  lemma StepKeeps(s: System, step: Step)
    requires Safe(s)
    ensures Safe(Next(s, step)) <==> Permitted(s, step)
  {
    hide Count;
    var t := step.t;
    var s' := Next(s, step);
    if t in s.at && s'.at != s.at {
      Move(s.at, t, s'.at[t], Reads);
      Move(s.at, t, s'.at[t], Writes);
      Move(s.at, t, s'.at[t], WaitsToWrite);
      assert s'.at == s.at[t := s'.at[t]];
    } else if t in s.at {
      assert s.at[t := s.at[t]] == s.at;
      Move(s.at, t, s.at[t], WaitsToWrite);
    }
  }

  /** Every state that a run passes through is safe. */
  ghost predicate SafeThroughout(s: System, steps: seq<Step>)
    decreases |steps|
  {
    Safe(Run(s, steps)) && (steps != [] ==> SafeThroughout(s, steps[..|steps| - 1]))
  }

  /** Every step of a run is permitted where it is made. */
  predicate PermittedThroughout(s: System, steps: seq<Step>)
    decreases |steps|
  {
    steps != [] ==>
      && PermittedThroughout(s, steps[..|steps| - 1])
      && Permitted(Run(s, steps[..|steps| - 1]), steps[|steps| - 1])
  }

  /** In a run of any threads, whatever they release, the monitor's fields count exactly the threads
      that read, write and wait to write, and a writer never coexists with a reader or with another
      writer, if and only if a thread without the lock releases only when nobody has it. */
  lemma {:induction false} EveryRunIsSafe(threads: set<Thread>, steps: seq<Step>)
    ensures SafeThroughout(Start(threads), steps) <==> PermittedThroughout(Start(threads), steps)
    ensures PermittedThroughout(Start(threads), steps) ==> Safe(Run(Start(threads), steps))
    decreases |steps|
  {
    hide Permitted, Next;
    if steps == [] {
      assert forall p :: p != Outside ==> Those(Start(threads).at, p) == {};
    } else {
      hide Safe;
      var init := steps[..|steps| - 1];
      EveryRunIsSafe(threads, init);
      if PermittedThroughout(Start(threads), init) {
        StepKeeps(Run(Start(threads), init), steps[|steps| - 1]);
      }
    }
  }

  lemma CountedAtLeast(at: map<Thread, Place>, t: Thread)
    requires t in at
    ensures Count(at, at[t]) >= 1
  {
    assert t in Those(at, at[t]);
  }

  lemma CountedTwice(at: map<Thread, Place>, t: Thread, u: Thread)
    requires t in at && u in at && t != u && at[t] == at[u]
    ensures Count(at, at[t]) >= 2
  {
    assert {t, u} <= Those(at, at[t]);
    SubsetSize({t, u}, Those(at, at[t]));
  }

  lemma {:induction false} SubsetSize<T>(a: set<T>, b: set<T>)
    requires a <= b
    ensures |a| <= |b|
    decreases a
  {
    if a != {} {
      var x :| x in a;
      SubsetSize(a - {x}, b - {x});
    }
  }

  /** Mutual exclusion, thread by thread. */
  lemma WriterIsAlone(threads: set<Thread>, steps: seq<Step>, w: Thread, t: Thread)
    requires PermittedThroughout(Start(threads), steps)
    requires var s := Run(Start(threads), steps); w in s.at && t in s.at && w != t && s.at[w] == Writes
    ensures var s := Run(Start(threads), steps); s.at[t] != Writes && s.at[t] != Reads
  {
    hide Count, Run;
    var s := Run(Start(threads), steps);
    EveryRunIsSafe(threads, steps);
    CountedAtLeast(s.at, w);
    CountedAtLeast(s.at, t);
    if s.at[t] == Writes {
      CountedTwice(s.at, w, t);
    }
  }

  predicate Nobody(at: map<Thread, Place>, p: Place) {
    forall u :: u in at ==> at[u] != p
  }

  lemma NobodyIsZero(at: map<Thread, Place>, p: Place)
    ensures Nobody(at, p) <==> Count(at, p) == 0
  {
    if Nobody(at, p) {
      assert Those(at, p) == {};
    } else {
      var u :| u in at && at[u] == p;
      CountedAtLeast(at, u);
    }
  }

  /** A thread that asks to read, or wakes up waiting for it, reads if and only if nobody writes or waits to
      write; otherwise it waits unless it may not. */
  lemma ReadComesTo(s: System, t: Thread, zeroTime: bool)
    requires Safe(s) && t in s.at
    ensures var free := Nobody(s.at, Writes) && Nobody(s.at, WaitsToWrite);
            && (s.at[t] == Outside ==>
                  Next(s, Read(t, zeroTime)).at ==
                  s.at[t := if free then Reads else if zeroTime then Outside else WaitsToRead])
            && (s.at[t] == WaitsToRead ==> Next(s, Wake(t)).at == s.at[t := if free then Reads else WaitsToRead])
  {
    hide Count, Nobody;
    NobodyIsZero(s.at, Writes);
    NobodyIsZero(s.at, WaitsToWrite);
  }

  /** A thread that asks to write, or wakes up waiting for it, writes if and only if nobody reads or writes;
      otherwise it waits unless it may not. */
  lemma WriteComesTo(s: System, t: Thread, zeroTime: bool)
    requires Safe(s) && t in s.at
    ensures var free := Nobody(s.at, Writes) && Nobody(s.at, Reads);
            && (s.at[t] == Outside ==>
                  Next(s, Write(t, zeroTime)).at ==
                  s.at[t := if free then Writes else if zeroTime then Outside else WaitsToWrite])
            && (s.at[t] == WaitsToWrite ==> Next(s, Wake(t)).at == s.at[t := if free then Writes else WaitsToWrite])
  {
    hide Count, Nobody;
    NobodyIsZero(s.at, Writes);
    NobodyIsZero(s.at, Reads);
  }

  /** A thread that leaves or times out is outside, unless it waits or does not; every other step that is
      not for where its thread is changes nothing. */
  lemma LeavingComesTo(s: System, step: Step)
    ensures var t, s' := step.t, Next(s, step);
            && (t !in s.at ==> s' == s)
            && (t in s.at ==>
                  var waits := s.at[t] == WaitsToRead || s.at[t] == WaitsToWrite;
                  && (step.Leave? ==> s'.at == if waits then s.at else s.at[t := Outside])
                  && (step.TimeOut? ==> s'.at == if waits then s.at[t := Outside] else s.at)
                  && (step.Wake? && !waits ==> s' == s)
                  && ((step.Read? || step.Write?) && s.at[t] != Outside ==> s' == s))
  {
  }

  /** A release comes to the error if and only if nobody reads or writes. */
  lemma ReleaseFailsIff(s: System)
    requires Safe(s)
    ensures Release(s.monitor).1 == Error <==> Nobody(s.at, Reads) && Nobody(s.at, Writes)
  {
    hide Count, Nobody;
    NobodyIsZero(s.at, Reads);
    NobodyIsZero(s.at, Writes);
  }

  /** No step of any run grants a read while a writer waits or holds the lock. */
  lemma WritersGoFirst(threads: set<Thread>, steps: seq<Step>, step: Step, w: Thread)
    requires PermittedThroughout(Start(threads), steps)
    requires var s := Run(Start(threads), steps);
             w in s.at && (s.at[w] == WaitsToWrite || s.at[w] == Writes)
    ensures var s := Run(Start(threads), steps);
            forall t :: t in s.at && s.at[t] != Reads ==> Next(s, step).at[t] != Reads
  {
    hide Count, Run;
    var s := Run(Start(threads), steps);
    EveryRunIsSafe(threads, steps);
    CountedAtLeast(s.at, w);
    assert KeepsReadersOut(s.monitor);
  }

  /** A wait that times out changes neither who holds the lock nor what the monitor says about it. */
  lemma TimeOutGrantsNothing(s: System, t: Thread)
    ensures var s' := Next(s, TimeOut(t));
            && s'.monitor.readers == s.monitor.readers && s'.monitor.writeLocked == s.monitor.writeLocked
            && forall u :: u in s.at ==>
                 (s'.at[u] == Reads <==> s.at[u] == Reads) && (s'.at[u] == Writes <==> s.at[u] == Writes)
  {
  }

  /** A writer that times out stops keeping readers out: if it was the only one waiting and nobody
      writes, the next reader gets in, although before the timeout it would not have. */
  lemma TimedOutWriterLetsReadersIn(threads: set<Thread>, steps: seq<Step>, w: Thread, r: Thread)
    requires PermittedThroughout(Start(threads), steps)
    requires var s := Run(Start(threads), steps);
             && w in s.at && r in s.at && w != r && s.at[w] == WaitsToWrite && s.at[r] == Outside
             && forall u :: u in s.at && u != w ==> s.at[u] != WaitsToWrite && s.at[u] != Writes
    ensures var s := Run(Start(threads), steps);
            && Next(s, Read(r, true)).at[r] == Outside
            && Next(Next(s, TimeOut(w)), Read(r, true)).at[r] == Reads
  {
    hide Run;
    var s := Run(Start(threads), steps);
    EveryRunIsSafe(threads, steps);
    assert Those(s.at, WaitsToWrite) == {w};
    assert Those(s.at, Writes) == {};
  }

  /** One release that is not permitted, and a writer finds the lock free while a reader reads. */
  lemma ForeignReleaseIsUnsafe()
    ensures var steps := [Read(0, true), Leave(1), Write(1, true)];
            var s := Run(Start({0, 1}), steps);
            && 0 in s.at && 1 in s.at && s.at[0] == Reads && s.at[1] == Writes
            && !PermittedThroughout(Start({0, 1}), steps)
  {
    var steps := [Read(0, true), Leave(1), Write(1, true)];
    assert steps[..2] == [Read(0, true), Leave(1)];
    assert steps[..2][..1] == [Read(0, true)] && steps[..2][..1][..0] == [];
    var s0 := Start({0, 1});
    var s1 := Next(s0, steps[0]);
    assert Run(s0, steps[..2][..1][..0]) == s0 && Run(s0, steps[..2][..1]) == s1;
    var s2 := Next(s1, steps[1]);
    assert Run(s0, steps[..2]) == s2 && s2.monitor == FREE;
    assert Run(s0, steps) == Next(s2, steps[2]);
    assert !Permitted(s1, steps[1]);
    assert !PermittedThroughout(s0, steps[..2]);
  }

  /** A holder's release never fails, and takes from the lock just what the holder had. */
  lemma HoldersRelease(threads: set<Thread>, steps: seq<Step>, t: Thread)
    requires PermittedThroughout(Start(threads), steps)
    requires var s := Run(Start(threads), steps); t in s.at && (s.at[t] == Reads || s.at[t] == Writes)
    ensures var s := Run(Start(threads), steps);
            && Release(s.monitor).1 == Ok
            && Release(s.monitor).0 == if s.at[t] == Reads then s.monitor.(readers := s.monitor.readers - 1)
                                       else s.monitor.(writeLocked := false)
  {
    hide Count, Run;
    var s := Run(Start(threads), steps);
    EveryRunIsSafe(threads, steps);
    CountedAtLeast(s.at, t);
  }

  /** The reads granted and the reads released in a run. */
  datatype Traffic = Traffic(granted: nat, released: nat)

  function ReadTraffic(s: System, steps: seq<Step>): Traffic
    decreases |steps|
  {
    if steps == [] then Traffic(0, 0)
    else
      var last := steps[|steps| - 1];
      var before := Run(s, steps[..|steps| - 1]);
      Passing(ReadTraffic(s, steps[..|steps| - 1]), before.at, Next(before, last).at, last.t)
  }

  function Passing(c: Traffic, before: map<Thread, Place>, after: map<Thread, Place>, t: Thread): Traffic {
    if t !in before || t !in after || (before[t] == Reads) == (after[t] == Reads) then c
    else if after[t] == Reads then c.(granted := c.granted + 1)
    else c.(released := c.released + 1)
  }

  /** The reader count is always the reads granted less the reads released. */
  lemma {:induction false} ReadersAreTraffic(threads: set<Thread>, steps: seq<Step>)
    requires PermittedThroughout(Start(threads), steps)
    ensures var c := ReadTraffic(Start(threads), steps);
            Run(Start(threads), steps).monitor.readers == c.granted - c.released
    decreases |steps|
  {
    if steps != [] {
      var init, last := steps[..|steps| - 1], steps[|steps| - 1];
      ReadersAreTraffic(threads, init);
      EveryRunIsSafe(threads, init);
      ReadersMove(Run(Start(threads), init), last);
    }
  }

  /** A step moves one thread, and the reader count with it if it starts or stops reading. */
  lemma ReadersMove(s: System, step: Step)
    requires Safe(s) && Permitted(s, step)
    ensures Next(s, step).monitor.readers - s.monitor.readers ==
            var c := Passing(Traffic(0, 0), s.at, Next(s, step).at, step.t); c.granted - c.released
  {
    hide Count;
    if step.t in s.at {
      CountedAtLeast(s.at, step.t);
    }
  }
}
