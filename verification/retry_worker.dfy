/** The mail-sending worker post_email_queue of service/faceside/src/main.cpp: a map of files that
    wait to be tried again, and the reports of those that are done. */
module RetryWorker {
  type File = string

  const SMTP_RETRY := -2
  const SMTP_NRETRY := -6

  /** Attempts so far and the time of the last one. */
  datatype Retries = Retries(n: int, t: int)

  /** A file that was reported and moved, with the result. */
  datatype Report = Report(file: File, flag: int)

  /** What the queue hands out: nothing more, nothing for five seconds, or a file. */
  datatype Got = Closed | TimedOut | Taken(src: File)

  /** One pass of the worker: what it got, the two clock readings, and what sending each file with
      each attempt number would come to. */
  datatype Tick = Tick(got: Got, now: int, end: int, post: (File, int) -> int)

  /** (int) of an unsigned setting. */
  function ToInt(u: int): (n: int)
    requires 0 <= u < 0x1_0000_0000
    ensures n <= u && -0x8000_0000 <= n < 0x8000_0000 && (u - n) % 0x1_0000_0000 == 0
  {
    if u < 0x8000_0000 then u else u - 0x1_0000_0000
  }

  predicate Reported(log: seq<Report>, f: File) {
    exists k :: 0 <= k < |log| && log[k].file == f
  }

  /** No file is reported twice. */
  predicate Once(log: seq<Report>) {
    forall j, k :: 0 <= j < k < |log| ==> log[j].file != log[k].file
  }

  /** A clock reading from which a waiting file is due: C compares the int setting as it is. */
  predicate Due(r: Retries, end: int, interval: int) {
    end - r.t > interval
  }

  /** What a pass makes of a waiting file: it stays, perhaps after another attempt, or it is done. */
  datatype Fate = Stays(r: Retries, tried: bool) | Leaves(flag: int, tried: bool)

  datatype Settings = Settings(failRetry: int, interval: int)

  predicate Sensible(s: Settings) {
    0 <= s.failRetry < 0x1_0000_0000
  }

  function Visit(s: Settings, f: File, r: Retries, tick: Tick): Fate
    requires Sensible(s)
  {
    if r.n > ToInt(s.failRetry) then Leaves(SMTP_NRETRY, false)
    else if Due(r, tick.end, s.interval) then
      var flag := tick.post(f, r.n);
      if flag != SMTP_RETRY then Leaves(flag, true) else Stays(Retries(r.n + 1, tick.end), true)
    else Stays(r, false)
  }

  // ---- What the worker has on its books ----

  /** One call of smtp_post: the pass it was made in, the number of the attempt, the time that is kept for
      it and the result. */
  datatype Try = Try(pass: nat, n: int, time: int, flag: int)

  /** The waiting files, the reports, the attempts at each file taken, the files that the worker has
      dropped, and the passes it has made. */
  datatype Books = Books(retry: map<File, Retries>, log: seq<Report>, tries: map<File, seq<Try>>, lost: set<File>,
                         passes: seq<Tick>)

  /** Every file taken is waiting, reported or lost; none is lost while retries are enabled; and the
      counter of a waiting file is at most the setting and one. */
  ghost predicate Covered(b: Books, s: Settings) {
    && (forall f :: f in b.tries <==> f in b.retry || Reported(b.log, f) || f in b.lost)
    && (forall f :: f in b.retry ==> 1 <= b.retry[f].n <= s.failRetry + 1)
    && (s.failRetry > 0 ==> b.lost == {})
  }

  /** And only one of these, and reported once; the counter of a waiting file is the number of its
      attempts; and no file has more attempts than the setting and one. */
  ghost predicate Conserved(b: Books, s: Settings) {
    && Covered(b, s)
    && (forall f :: f in b.retry ==> !Reported(b.log, f) && b.retry[f].n == |b.tries[f]|)
    && (forall f :: f in b.lost ==> f !in b.retry && !Reported(b.log, f))
    && Once(b.log)
    && (forall f :: f in b.tries ==> 1 <= |b.tries[f]| <= s.failRetry + 1)
  }

  function TriesOf(tries: map<File, seq<Try>>, f: File): seq<Try> {
    if f in tries then tries[f] else []
  }

  function Tried(b: Books, f: File, t: Try): Books {
    b.(tries := b.tries[f := TriesOf(b.tries, f) + [t]])
  }

  /** A file from the queue, tried with result `flag` at time `now`. With retries switched off a file
      that would have to be tried again is neither kept nor reported. */
  function FirstTried(b: Books, s: Settings, src: File, now: int, flag: int): Books
    requires b.passes != []
  {
    var tried := Tried(b, src, Try(|b.passes| - 1, 0, now, flag));
    if flag != SMTP_RETRY then tried.(log := b.log + [Report(src, flag)])
    else if s.failRetry > 0 then tried.(retry := b.retry[src := Retries(1, now)])
    else tried.(lost := b.lost + {src})
  }

  /** A file handed out again takes the place of the first, but none is forgotten. */
  lemma FirstCovers(b: Books, s: Settings, src: File, now: int, flag: int)
    requires Covered(b, s) && Sensible(s) && b.passes != []
    ensures Covered(FirstTried(b, s, src, now, flag), s)
  {
    if flag != SMTP_RETRY {
      ReportedAppend(b.log, Report(src, flag));
    }
  }

  /** The first attempt conserves the books if and only if the queue has not handed out that name before;
      and it loses a new file if and only if retries are switched off and it would have to be tried again. */
  lemma FirstKeeps(b: Books, s: Settings, src: File, now: int, flag: int)
    requires Conserved(b, s) && Sensible(s) && b.passes != []
    ensures Conserved(FirstTried(b, s, src, now, flag), s) <==> src !in b.tries
    ensures var b' := FirstTried(b, s, src, now, flag);
            src !in b.tries ==>
              ((src in b'.retry || Reported(b'.log, src)) <==> s.failRetry > 0 || flag != SMTP_RETRY)
  {
    hide Covered, Reported, Once;
    FirstCovers(b, s, src, now, flag);
    ReportedAppend(b.log, Report(src, flag));
    if src in b.tries {
      AgainBreaks(b, s, src, now, flag);
    } else {
      NewIsNowhere(b, s, src);
    }
  }

  lemma AgainBreaks(b: Books, s: Settings, src: File, now: int, flag: int)
    requires Conserved(b, s) && src in b.tries && b.passes != []
    ensures !Conserved(FirstTried(b, s, src, now, flag), s)
  {
    var b' := FirstTried(b, s, src, now, flag);
    if flag != SMTP_RETRY {
      assert b'.log[|b.log|].file == src;
      if Reported(b.log, src) {
        var k :| 0 <= k < |b.log| && b.log[k].file == src;
        assert b'.log[k].file == b'.log[|b.log|].file;
      }
    } else {
      assert |b'.tries[src]| == |b.tries[src]| + 1;
    }
  }

  lemma NewIsNowhere(b: Books, s: Settings, f: File)
    requires Covered(b, s) && f !in b.tries
    ensures f !in b.retry && !Reported(b.log, f) && f !in b.lost
  {
  }

  function Result(fate: Fate): int {
    match fate case Leaves(flag, _) => flag case Stays(_, _) => SMTP_RETRY
  }

  /** The books after the visit of a waiting file. */
  function Visited(b: Books, s: Settings, f: File, tick: Tick): Books
    requires Sensible(s) && f in b.retry && b.passes != []
  {
    var r := b.retry[f];
    var fate := Visit(s, f, r, tick);
    var counted := if fate.tried then Tried(b, f, Try(|b.passes| - 1, r.n, tick.end, Result(fate))) else b;
    match fate
    case Stays(r, _) => counted.(retry := b.retry[f := r])
    case Leaves(flag, _) => counted.(retry := b.retry - {f}, log := b.log + [Report(f, flag)])
  }

  lemma VisitCovers(b: Books, s: Settings, f: File, tick: Tick)
    requires Covered(b, s) && Sensible(s) && f in b.retry && b.passes != []
    ensures Covered(Visited(b, s, f, tick), s)
  {
    var fate := Visit(s, f, b.retry[f], tick);
    if fate.Leaves? {
      ReportedAppend(b.log, Report(f, fate.flag));
    }
  }

  lemma VisitKeeps(b: Books, s: Settings, f: File, tick: Tick)
    requires Conserved(b, s) && Sensible(s) && f in b.retry && b.passes != []
    ensures Conserved(Visited(b, s, f, tick), s)
  {
    VisitCovers(b, s, f, tick);
    var fate := Visit(s, f, b.retry[f], tick);
    if fate.Leaves? {
      ReportedAppend(b.log, Report(f, fate.flag));
    }
  }

  /** A pass over the map that has still to visit `todo`: what was visited stays with its new counter
      and time or is reported with its result, and nothing else has happened. */
  ghost predicate Swept(old_: Books, b: Books, s: Settings, tick: Tick, todo: set<File>)
    requires Sensible(s)
  {
    && todo <= old_.retry.Keys && b.lost == old_.lost && b.passes == old_.passes
    && SweptRetry(old_.retry, b.retry, s, tick, todo)
    && SweptTries(old_, b.tries, s, tick, todo)
    && SweptLog(old_, b.log, s, tick, todo)
  }

  ghost predicate SweptRetry(before: map<File, Retries>, now: map<File, Retries>, s: Settings, tick: Tick,
                             todo: set<File>)
    requires Sensible(s)
  {
    && (forall f :: f in now <==> f in before && (f in todo || Visit(s, f, before[f], tick).Stays?))
    && (forall f :: f in now ==> now[f] == if f in todo then before[f] else Visit(s, f, before[f], tick).r)
  }

  ghost predicate SweptTries(old_: Books, tries: map<File, seq<Try>>, s: Settings, tick: Tick, todo: set<File>)
    requires Sensible(s)
  {
    && old_.passes != [] && tries.Keys == old_.tries.Keys
    && forall f :: f in tries ==>
         tries[f] == if f in old_.retry && f !in todo
                     then NowTried(old_.tries[f], s, f, old_.retry[f], |old_.passes| - 1, tick) else old_.tries[f]
  }

  /** The attempts at a waiting file after its visit in a pass. */
  function NowTried(ts: seq<Try>, s: Settings, f: File, r: Retries, pass: nat, tick: Tick): seq<Try>
    requires Sensible(s)
  {
    var fate := Visit(s, f, r, tick);
    if fate.tried then ts + [Try(pass, r.n, tick.end, Result(fate))] else ts
  }

  ghost predicate SweptLog(old_: Books, log: seq<Report>, s: Settings, tick: Tick, todo: set<File>)
    requires Sensible(s)
  {
    && |old_.log| <= |log| && log[..|old_.log|] == old_.log
    && (forall f :: Reported(log, f) <==>
          Reported(old_.log, f) || (f in old_.retry && f !in todo && Visit(s, f, old_.retry[f], tick).Leaves?))
    && (forall k :: |old_.log| <= k < |log| ==> Explained(old_, s, tick, log[k]))
    && (forall f :: f in old_.retry && f !in todo && Visit(s, f, old_.retry[f], tick).Leaves? ==>
          Report(f, Visit(s, f, old_.retry[f], tick).flag) in log)
  }

  predicate Explained(b: Books, s: Settings, tick: Tick, r: Report)
    requires Sensible(s)
  {
    r.file in b.retry && Visit(s, r.file, b.retry[r.file], tick) in
      {Leaves(r.flag, true), Leaves(r.flag, false)}
  }

  lemma SweptStep(old_: Books, b: Books, s: Settings, tick: Tick, todo: set<File>, f: File)
    requires Sensible(s) && Covered(b, s) && Swept(old_, b, s, tick, todo) && f in todo && b.passes != []
    ensures f in b.retry && f in b.tries
    ensures Swept(old_, Visited(b, s, f, tick), s, tick, todo - {f})
  {
    hide Visit, Covered, Explained, SweptTries, SweptRetry, SweptLog, Result;
    Waiting(b, s, f, old_, tick, todo);
    var fate := Visit(s, f, old_.retry[f], tick);
    var b' := Visited(b, s, f, tick);
    TriesStep(old_, b, s, tick, todo, f);
    RetryStep(old_.retry, b.retry, b'.retry, s, tick, todo, f);
    if fate.Leaves? {
      LogStep(old_, b.log, s, tick, todo, f);
    } else {
      SameLog(old_, b.log, s, tick, todo, f);
    }
  }

  lemma SameLog(old_: Books, log: seq<Report>, s: Settings, tick: Tick, todo: set<File>, f: File)
    requires Sensible(s) && SweptLog(old_, log, s, tick, todo) && f in old_.retry
    requires !Visit(s, f, old_.retry[f], tick).Leaves?
    ensures SweptLog(old_, log, s, tick, todo - {f})
  {
    hide Visit, Explained;
  }

  lemma TriesStep(old_: Books, b: Books, s: Settings, tick: Tick, todo: set<File>, f: File)
    requires Sensible(s) && SweptTries(old_, b.tries, s, tick, todo)
    requires f in todo && f in b.tries && f in b.retry && f in old_.retry && b.retry[f] == old_.retry[f]
    requires b.passes == old_.passes
    ensures SweptTries(old_, Visited(b, s, f, tick).tries, s, tick, todo - {f})
  {
    VisitedTries(b, s, f, tick);
    hide NowTried, Visited;
  }

  lemma VisitedTries(b: Books, s: Settings, f: File, tick: Tick)
    requires Sensible(s) && f in b.retry && f in b.tries && b.passes != []
    ensures Visited(b, s, f, tick).tries ==
            b.tries[f := NowTried(b.tries[f], s, f, b.retry[f], |b.passes| - 1, tick)]
  {
    hide Visit, Result;
    assert b.tries == b.tries[f := b.tries[f]];
  }

  lemma Waiting(b: Books, s: Settings, f: File, old_: Books, tick: Tick, todo: set<File>)
    requires Sensible(s) && Covered(b, s) && Swept(old_, b, s, tick, todo) && f in todo
    ensures f in b.retry && f in b.tries && b.retry[f] == old_.retry[f]
  {
  }

  lemma RetryStep(before: map<File, Retries>, now: map<File, Retries>, next: map<File, Retries>, s: Settings,
                  tick: Tick, todo: set<File>, f: File)
    requires Sensible(s) && SweptRetry(before, now, s, tick, todo) && f in todo && f in now
    requires next == match Visit(s, f, before[f], tick)
                     case Stays(r, _) => now[f := r]
                     case Leaves(_, _) => now - {f}
    ensures SweptRetry(before, next, s, tick, todo - {f})
  {
    hide Visit;
  }

  lemma LogStep(old_: Books, log: seq<Report>, s: Settings, tick: Tick, todo: set<File>, f: File)
    requires Sensible(s) && SweptLog(old_, log, s, tick, todo) && f in todo && f in old_.retry
    requires Visit(s, f, old_.retry[f], tick).Leaves?
    ensures SweptLog(old_, log + [Report(f, Visit(s, f, old_.retry[f], tick).flag)], s, tick, todo - {f})
  {
    hide Visit;
    var r := Report(f, Visit(s, f, old_.retry[f], tick).flag);
    ReportedAppend(log, r);
    assert Explained(old_, s, tick, r);
    assert (log + [r])[..|old_.log|] == old_.log;
    assert (log + [r])[|log|] == r && forall x :: x in log ==> x in log + [r];
  }

  // ---- What the attempts and the reports come from ----

  /** After `a` the next attempt: it asked for another, and more than the interval has gone by. */
  predicate Precedes(a: Try, t: Try, s: Settings) {
    a.flag == SMTP_RETRY && a.n + 1 == t.n && a.pass <= t.pass && t.time - a.time > s.interval
  }

  /** An attempt was made in one of the passes, with the result that smtp_post gave there: number 0 on the
      file that the pass got from the queue, a later one within the setting and after another. */
  ghost predicate TryStands(passes: seq<Tick>, s: Settings, f: File, ts: seq<Try>, j: nat)
    requires Sensible(s) && j < |ts|
  {
    var t := ts[j];
    && t.pass < |passes| && t.flag == passes[t.pass].post(f, t.n)
    && if t.n == 0 then Files(passes[t.pass]) && passes[t.pass].got.src == f && t.time == passes[t.pass].now
       else t.time == passes[t.pass].end && t.n <= ToInt(s.failRetry) && exists i :: 0 <= i < j && Precedes(ts[i], t, s)
  }

  ghost predicate TriesStand(passes: seq<Tick>, s: Settings, tries: map<File, seq<Try>>)
    requires Sensible(s)
  {
    forall f, j :: f in tries && 0 <= j < |tries[f]| ==> TryStands(passes, s, f, tries[f], j)
  }

  /** A file waits because an attempt asked for another, with its time and the number of the next. */
  predicate WaitStands(ts: seq<Try>, r: Retries) {
    exists j :: 0 <= j < |ts| && ts[j].flag == SMTP_RETRY && ts[j].n + 1 == r.n && ts[j].time == r.t
  }

  ghost predicate WaitsStand(tries: map<File, seq<Try>>, retry: map<File, Retries>) {
    forall f :: f in retry ==> f in tries && WaitStands(tries[f], retry[f])
  }

  /** The flag of a report is the result of an attempt that did not ask for another, or says that one did
      after which the setting allows no more. */
  predicate ReportStands(ts: seq<Try>, s: Settings, flag: int)
    requires Sensible(s)
  {
    || (flag != SMTP_RETRY && exists j :: 0 <= j < |ts| && ts[j].flag == flag)
    || (flag == SMTP_NRETRY &&
        exists j :: 0 <= j < |ts| && ts[j].flag == SMTP_RETRY && ts[j].n + 1 > ToInt(s.failRetry))
  }

  ghost predicate ReportsStand(tries: map<File, seq<Try>>, s: Settings, log: seq<Report>)
    requires Sensible(s)
  {
    forall k :: 0 <= k < |log| ==> log[k].file in tries && ReportStands(tries[log[k].file], s, log[k].flag)
  }

  /** Every result that did not ask for another attempt was reported. */
  ghost predicate ResultsReported(tries: map<File, seq<Try>>, log: seq<Report>) {
    forall f, j :: f in tries && 0 <= j < |tries[f]| && tries[f][j].flag != SMTP_RETRY ==>
                     Report(f, tries[f][j].flag) in log
  }

  ghost predicate Recorded(b: Books, s: Settings) {
    && Sensible(s) && TriesStand(b.passes, s, b.tries) && WaitsStand(b.tries, b.retry)
    && ReportsStand(b.tries, s, b.log) && ResultsReported(b.tries, b.log)
  }

  lemma MorePasses(passes: seq<Tick>, s: Settings, tries: map<File, seq<Try>>, tick: Tick)
    requires Sensible(s) && TriesStand(passes, s, tries)
    ensures TriesStand(passes + [tick], s, tries)
  {
    forall f, j | f in tries && 0 <= j < |tries[f]|
      ensures TryStands(passes + [tick], s, f, tries[f], j)
    {
      assert TryStands(passes, s, f, tries[f], j);
    }
  }

  lemma BegunKeeps(b: Books, s: Settings, tick: Tick)
    ensures Covered(b, s) ==> Covered(Begun(b, tick), s)
    ensures Recorded(b, s) ==> Recorded(Begun(b, tick), s)
    ensures Conserved(b, s) ==> Conserved(Begun(b, tick), s)
  {
    if Recorded(b, s) {
      MorePasses(b.passes, s, b.tries, tick);
    }
  }

  /** One more attempt at a file leaves standing what stood. */
  lemma MoreTries(b: Books, s: Settings, f: File, t: Try)
    requires Recorded(b, s) && TryStands(b.passes, s, f, TriesOf(b.tries, f) + [t], |TriesOf(b.tries, f)|)
    ensures var b' := Tried(b, f, t);
            && TriesStand(b.passes, s, b'.tries) && WaitsStand(b'.tries, b.retry) && ReportsStand(b'.tries, s, b.log)
            && ResultsReported(b'.tries, b.log + [Report(f, t.flag)])
            && (t.flag == SMTP_RETRY ==> ResultsReported(b'.tries, b.log))
  {
    hide TryStands;
    var tries := Tried(b, f, t).tries;
    var before := TriesOf(b.tries, f);
    assert tries[f] == before + [t] && forall g :: g != f && g in tries ==> tries[g] == b.tries[g];
    forall g, j | g in tries && 0 <= j < |tries[g]|
      ensures TryStands(b.passes, s, g, tries[g], j)
    {
      if g == f && j < |before| {
        EarlierStands(b.passes, s, f, before, t, j);
      }
    }
    forall g | g in b.retry
      ensures g in tries && WaitStands(tries[g], b.retry[g])
    {
      if g == f {
        WaitStays(before, t, b.retry[f]);
      }
    }
    forall k | 0 <= k < |b.log|
      ensures b.log[k].file in tries && ReportStands(tries[b.log[k].file], s, b.log[k].flag)
    {
      if b.log[k].file == f {
        ReportOfMore(before, t, s, b.log[k].flag);
      }
    }
    forall g, j | g in tries && 0 <= j < |tries[g]| && tries[g][j].flag != SMTP_RETRY
      ensures Report(g, tries[g][j].flag) in b.log + [Report(f, t.flag)]
      ensures t.flag == SMTP_RETRY ==> Report(g, tries[g][j].flag) in b.log
    {
      if g != f || j < |before| {
        assert g in b.tries && b.tries[g][j] == tries[g][j];
      }
    }
  }

  lemma EarlierStands(passes: seq<Tick>, s: Settings, f: File, ts: seq<Try>, t: Try, j: nat)
    requires Sensible(s) && j < |ts| && TryStands(passes, s, f, ts, j)
    ensures TryStands(passes, s, f, ts + [t], j)
  {
    var more := ts + [t];
    assert more[j] == ts[j];
    if ts[j].n != 0 {
      var i :| 0 <= i < j && Precedes(ts[i], ts[j], s);
      assert more[i] == ts[i];
    }
  }

  lemma WaitStays(ts: seq<Try>, t: Try, r: Retries)
    requires WaitStands(ts, r)
    ensures WaitStands(ts + [t], r)
  {
    var j :| 0 <= j < |ts| && ts[j].flag == SMTP_RETRY && ts[j].n + 1 == r.n && ts[j].time == r.t;
    assert (ts + [t])[j] == ts[j];
  }

  lemma ReportOfMore(ts: seq<Try>, t: Try, s: Settings, flag: int)
    requires Sensible(s) && ReportStands(ts, s, flag)
    ensures ReportStands(ts + [t], s, flag)
  {
    assert forall j :: 0 <= j < |ts| ==> (ts + [t])[j] == ts[j];
  }

  lemma LastStands(ts: seq<Try>, t: Try, s: Settings)
    requires Sensible(s)
    ensures t.flag != SMTP_RETRY ==> ReportStands(ts + [t], s, t.flag)
    ensures t.flag == SMTP_RETRY ==> WaitStands(ts + [t], Retries(t.n + 1, t.time))
  {
    assert (ts + [t])[|ts|] == t;
  }

  lemma FirstRecorded(b: Books, s: Settings, tick: Tick)
    requires Recorded(b, s) && b.passes != [] && b.passes[|b.passes| - 1] == tick && Files(tick)
    ensures Recorded(FirstTried(b, s, tick.got.src, tick.now, tick.post(tick.got.src, 0)), s)
  {
    var f, flag := tick.got.src, tick.post(tick.got.src, 0);
    var t := Try(|b.passes| - 1, 0, tick.now, flag);
    LastStands(TriesOf(b.tries, f), t, s);
    MoreTries(b, s, f, t);
  }

  lemma VisitRecorded(b: Books, s: Settings, f: File, tick: Tick)
    requires Recorded(b, s) && Covered(b, s) && f in b.retry
    requires b.passes != [] && b.passes[|b.passes| - 1] == tick
    ensures Recorded(Visited(b, s, f, tick), s)
  {
    var r, ts := b.retry[f], b.tries[f];
    var fate := Visit(s, f, r, tick);
    var j :| 0 <= j < |ts| && ts[j].flag == SMTP_RETRY && ts[j].n + 1 == r.n && ts[j].time == r.t;
    if fate.tried {
      var t := Try(|b.passes| - 1, r.n, tick.end, Result(fate));
      assert TryStands(b.passes, s, f, ts, j);
      assert (ts + [t])[j] == ts[j] && (ts + [t])[|ts|] == t && Precedes(ts[j], t, s);
      LastStands(ts, t, s);
      MoreTries(b, s, f, t);
    } else if fate.Leaves? {
      assert ReportStands(ts, s, SMTP_NRETRY);
    }
  }

  // ---- The worker ----

  class Worker {
    const settings: Settings
    var retry: map<File, Retries>
    // The reports, each with its move out of the way.
    var log: seq<Report>
    ghost var Tries: map<File, seq<Try>>
    ghost var Lost: set<File>
    ghost var Passes: seq<Tick>

    ghost function View(): Books
      reads this
    {
      Books(retry, log, Tries, Lost, Passes)
    }

    ghost predicate Valid()
      reads this
    {
      Sensible(settings) && Covered(View(), settings) && Recorded(View(), settings)
    }

    constructor (settings: Settings)
      requires Sensible(settings)
      ensures Valid() && this.settings == settings && View() == Books(map[], [], map[], {}, [])
      ensures Conserved(View(), settings)
    {
      this.settings := settings;
      retry, log, Tries, Lost, Passes := map[], [], map[], {}, [];
    }

    /** fput_report_file and dw_smart_move. */
    method Finish(file: File, flag: int)
      modifies this`log
      ensures log == old(log) + [Report(file, flag)]
    {
      log := log + [Report(file, flag)];
    }

    /** A file from the queue is tried at once. */
    method First(src: File, now: int, flag: int)
      requires Passes != []
      modifies this
      ensures View() == FirstTried(old(View()), settings, src, now, flag)
    {
      Tries := Tries[src := TriesOf(Tries, src) + [Try(|Passes| - 1, 0, now, flag)]];
      if flag != SMTP_RETRY {
        Finish(src, flag);
      } else if settings.failRetry > 0 {
        retry := retry[src := Retries(1, now)];
      } else {
        Lost := Lost + {src};
      }
    }

    /** One waiting file in the loop over the map. */
    method VisitOne(f: File, tick: Tick)
      requires Sensible(settings) && f in retry && Passes != []
      modifies this
      ensures View() == Visited(old(View()), settings, f, tick)
    {
      var r := retry[f];
      var flag := 9999999;
      if r.n > ToInt(settings.failRetry) {
        flag := SMTP_NRETRY;
      } else if Due(r, tick.end, settings.interval) {
        flag := tick.post(f, r.n);
        Tries := Tries[f := TriesOf(Tries, f) + [Try(|Passes| - 1, r.n, tick.end, flag)]];
      } else {
        assert retry == retry[f := r];
        return;
      }
      if flag != SMTP_RETRY {
        Finish(f, flag);
        retry := retry - {f};
      } else {
        retry := retry[f := Retries(r.n + 1, tick.end)];
      }
    }

    /** The loop over the map, in whatever order: each waiting file is visited once. */
    method Sweep(tick: Tick)
      requires Valid() && Passes != [] && Passes[|Passes| - 1] == tick
      modifies this
      ensures Valid() && Swept(old(View()), View(), settings, tick, {})
      ensures Conserved(old(View()), settings) ==> Conserved(View(), settings)
    {
      hide Conserved, Covered, Swept, Visited, Recorded;
      ghost var old_ := View();
      var todo := retry.Keys;
      assert Swept(old_, View(), settings, tick, todo) by { SweepStarts(old_, settings, tick); }
      while todo != {}
        invariant Valid() && Swept(old_, View(), settings, tick, todo)
        invariant Passes == old_.passes
        invariant Conserved(old_, settings) ==> Conserved(View(), settings)
        decreases todo
      {
        var f :| f in todo;
        SweptStep(old_, View(), settings, tick, todo, f);
        VisitCovers(View(), settings, f, tick);
        VisitRecorded(View(), settings, f, tick);
        VisitPasses(View(), settings, f, tick);
        if Conserved(View(), settings) {
          VisitKeeps(View(), settings, f, tick);
        }
        VisitOne(f, tick);
        todo := todo - {f};
      }
    }

    /** The worker's loop over what the queue hands out. */
    method PostEmailQueue(ticks: seq<Tick>) returns (ghost trace: seq<Books>)
      requires Valid()
      modifies this
      ensures Valid() && Passes == old(Passes) + ticks[..Open(ticks)]
      ensures Conserved(old(View()), settings) && AllNew(ticks, old(Tries.Keys)) ==> Conserved(View(), settings)
      ensures forall f :: f in Tries <==> f in old(Tries) || TakenBefore(ticks, Open(ticks), f)
      ensures |trace| == Open(ticks) + 1 && trace[0] == old(View()) && trace[Open(ticks)] == View()
      ensures forall k :: 0 <= k < Open(ticks) ==> Pass(trace[k], trace[k + 1], settings, ticks[k])
    {
      hide Conserved, Covered, AllNew, Recorded, Pass, Files;
      ghost var before := Tries.Keys;
      ghost var conserved := Conserved(View(), settings) && AllNew(ticks, before);
      var k := 0;
      trace := [View()];
      assert ticks[..0] == [] && Passes + [] == Passes;
      while k < |ticks|
        invariant 0 <= k <= Open(ticks) && Passes == old(Passes) + ticks[..k]
        invariant Valid() && (conserved ==> Conserved(View(), settings))
        invariant Tries.Keys == before + TakenFiles(ticks, k)
        invariant |trace| == k + 1 && trace[0] == old(View()) && trace[k] == View()
        invariant forall i :: 0 <= i < k ==> Pass(trace[i], trace[i + 1], settings, ticks[i])
      {
        var tick := ticks[k];
        OpenStep(ticks, k);
        if tick.got.Closed? {
          break;
        }
        if conserved && Files(tick) {
          NotTakenYet(ticks, k, before);
          TakenFilesAre(ticks, k);
        }
        OnePass(tick);
        trace := trace + [View()];
        assert ticks[..k + 1] == ticks[..k] + [tick];
        k := k + 1;
      }
      TakenFilesAre(ticks, k);
    }

    /** One pass of the loop. */
    method OnePass(tick: Tick)
      requires Valid()
      modifies this
      ensures Valid() && Passes == old(Passes) + [tick] && Pass(old(View()), View(), settings, tick)
      ensures Tries.Keys == old(Tries.Keys) + if Files(tick) then {tick.got.src} else {}
      ensures old(Conserved(View(), settings)) && (Files(tick) ==> tick.got.src !in old(Tries)) ==>
                Conserved(View(), settings)
    {
      hide Conserved, Covered, Swept, FirstTried, Recorded;
      ghost var conserved := Conserved(View(), settings);
      Begin(tick);
      if Files(tick) {
        var src := tick.got.src;
        var flag := tick.post(src, 0);
        FirstCovers(View(), settings, src, tick.now, flag);
        FirstRecorded(View(), settings, tick);
        if conserved {
          FirstKeeps(View(), settings, src, tick.now, flag);
        }
        FirstCounts(View(), settings, src, tick.now, flag);
        First(src, tick.now, flag);
      }
      ghost var tried := View();
      Sweep(tick);
      SweptFiles(tried, View(), settings, tick);
    }

    /** A pass begins. */
    ghost method Begin(tick: Tick)
      requires Valid()
      modifies this`Passes
      ensures Valid() && View() == Begun(old(View()), tick)
      ensures Conserved(old(View()), settings) ==> Conserved(View(), settings)
    {
      BegunKeeps(View(), settings, tick);
      Passes := Passes + [tick];
    }
  }

  function Begun(b: Books, tick: Tick): (b': Books)
    ensures b'.passes != [] && b'.passes[|b'.passes| - 1] == tick
  {
    b.(passes := b.passes + [tick])
  }

  /** One pass of the worker's loop: the file it got, if any, is tried, and the map is swept. */
  ghost predicate Pass(b: Books, b': Books, s: Settings, tick: Tick) {
    Sensible(s) &&
    var b0 := Begun(b, tick);
    Swept(if Files(tick) then FirstTried(b0, s, tick.got.src, tick.now, tick.post(tick.got.src, 0)) else b0,
          b', s, tick, {})
  }

  lemma FirstCounts(b: Books, s: Settings, src: File, now: int, flag: int)
    requires b.passes != []
    ensures FirstTried(b, s, src, now, flag).tries.Keys == b.tries.Keys + {src}
    ensures FirstTried(b, s, src, now, flag).passes == b.passes
  {
  }

  lemma VisitPasses(b: Books, s: Settings, f: File, tick: Tick)
    requires Sensible(s) && f in b.retry && b.passes != []
    ensures Visited(b, s, f, tick).passes == b.passes
  {
  }

  lemma SweepStarts(b: Books, s: Settings, tick: Tick)
    requires Sensible(s) && b.passes != []
    ensures Swept(b, b, s, tick, b.retry.Keys)
  {
    assert b.log[..|b.log|] == b.log;
  }

  lemma SweptFiles(old_: Books, b: Books, s: Settings, tick: Tick)
    requires Sensible(s) && Swept(old_, b, s, tick, {})
    ensures b.tries.Keys == old_.tries.Keys && b.passes == old_.passes
  {
  }

  /** The tick brings a file: its name is not empty. */
  predicate Files(tick: Tick): (b: bool)
    ensures b <==> tick.got.Taken? && |tick.got.src| > 0
  {
    tick.got.Taken? && tick.got.src != ""
  }

  /** The number of ticks before the queue is closed. */
  function Open(ticks: seq<Tick>): (n: nat)
    ensures n <= |ticks|
    ensures forall j :: 0 <= j < n ==> !ticks[j].got.Closed?
    ensures n < |ticks| ==> ticks[n].got.Closed?
  {
    if ticks == [] || ticks[0].got.Closed? then 0 else 1 + Open(ticks[1..])
  }

  lemma OpenStep(ticks: seq<Tick>, k: nat)
    requires k <= Open(ticks) && k < |ticks|
    ensures ticks[k].got.Closed? <==> k == Open(ticks)
  {
  }

  predicate TakenBefore(ticks: seq<Tick>, k: nat, f: File) {
    exists j :: 0 <= j < k && j < |ticks| && Files(ticks[j]) && ticks[j].got.src == f
  }

  /** No file that the queue hands out has been handed out before. */
  predicate AllNew(ticks: seq<Tick>, taken: set<File>) {
    && (forall j :: 0 <= j < |ticks| && Files(ticks[j]) ==> ticks[j].got.src !in taken)
    && (forall i, j :: 0 <= i < j < |ticks| && Files(ticks[i]) && Files(ticks[j]) ==>
          ticks[i].got.src != ticks[j].got.src)
  }

  lemma NotTakenYet(ticks: seq<Tick>, k: nat, taken: set<File>)
    requires k < |ticks| && Files(ticks[k]) && AllNew(ticks, taken)
    ensures !TakenBefore(ticks, k, ticks[k].got.src) && ticks[k].got.src !in taken
  {
  }

  /** The files that the first `k` ticks bring. */
  function TakenFiles(ticks: seq<Tick>, k: nat): set<File>
    requires k <= |ticks|
  {
    if k == 0 then {} else TakenFiles(ticks, k - 1) + if Files(ticks[k - 1]) then {ticks[k - 1].got.src} else {}
  }

  lemma {:induction false} TakenFilesAre(ticks: seq<Tick>, k: nat)
    requires k <= |ticks|
    ensures forall f :: f in TakenFiles(ticks, k) <==> TakenBefore(ticks, k, f)
    decreases k
  {
    if k > 0 {
      TakenFilesAre(ticks, k - 1);
      forall f
        ensures f in TakenFiles(ticks, k) <==> TakenBefore(ticks, k, f)
      {
        if TakenBefore(ticks, k, f) {
          var j :| 0 <= j < k && Files(ticks[j]) && ticks[j].got.src == f;
          assert j < k - 1 ==> TakenBefore(ticks, k - 1, f);
        } else {
          assert !TakenBefore(ticks, k - 1, f);
        }
      }
    }
  }

  lemma ReportStays(trace: seq<Books>, ticks: seq<Tick>, s: Settings, f: File)
    requires IsTrace(trace, ticks, s) && |ticks| > 0
    requires forall k :: 0 <= k < |ticks| ==> TakesOther(ticks[k], f)
    requires f !in trace[0].retry && Reported(trace[0].log, f)
    ensures f !in trace[|ticks|].retry && Reported(trace[|ticks|].log, f)
    decreases |ticks|
  {
    PassKeepsReport(trace[0], trace[1], s, ticks[0], f);
    if |ticks| > 1 {
      TraceRest(trace, ticks, s);
      ReportStays(trace[1..], ticks[1..], s, f);
    }
  }

  lemma PassKeepsReport(b: Books, b': Books, s: Settings, tick: Tick, f: File)
    requires Pass(b, b', s, tick) && TakesOther(tick, f) && f !in b.retry && Reported(b.log, f)
    ensures f !in b'.retry && Reported(b'.log, f)
  {
    hide Visit;
    if Files(tick) {
      ReportedAppend(b.log, Report(tick.got.src, tick.post(tick.got.src, 0)));
    }
  }

  /** What the passes of a run make of the books, one after the other. */
  ghost predicate IsTrace(trace: seq<Books>, ticks: seq<Tick>, s: Settings) {
    |trace| == |ticks| + 1 && forall k :: 0 <= k < |ticks| ==> Pass(trace[k], trace[k + 1], s, ticks[k])
  }

  lemma TraceRest(trace: seq<Books>, ticks: seq<Tick>, s: Settings)
    requires IsTrace(trace, ticks, s) && |ticks| > 0
    ensures IsTrace(trace[1..], ticks[1..], s)
  {
    hide Pass;
    forall k | 0 <= k < |ticks| - 1
      ensures Pass(trace[1..][k], trace[1..][k + 1], s, ticks[1..][k])
    {
      assert Pass(trace[k + 1], trace[k + 2], s, ticks[k + 1]);
    }
  }

  predicate TakesOther(tick: Tick, f: File) {
    Files(tick) ==> tick.got.src != f
  }

  /** In every pass the file, if it still waits, is due. */
  ghost predicate AlwaysDue(trace: seq<Books>, ticks: seq<Tick>, s: Settings, f: File)
    requires |trace| == |ticks| + 1
  {
    forall k :: 0 <= k < |ticks| ==> f in trace[k].retry ==> Due(trace[k].retry[f], ticks[k].end, s.interval)
  }

  /** What one pass makes of a due file: it is reported, or waits with one more attempt that asked for
      another, and the latter not when its attempts are used up. */
  lemma DuePass(b: Books, b': Books, s: Settings, tick: Tick, f: File)
    requires Sensible(s) && Pass(b, b', s, tick) && TakesOther(tick, f)
    requires f in b.retry && Due(b.retry[f], tick.end, s.interval)
    ensures if f in b'.retry then b'.retry[f].n == b.retry[f].n + 1 && b.retry[f].n <= ToInt(s.failRetry)
            else Reported(b'.log, f)
  {
  }

  /** What one pass makes of any waiting file: used up, it is reported so; due, it is tried, and waits again
      or is reported with the result; otherwise it stays as it is. */
  lemma PassOfWaiting(b: Books, b': Books, s: Settings, tick: Tick, f: File)
    requires Sensible(s) && Pass(b, b', s, tick) && TakesOther(tick, f) && f in b.retry && f in b.tries
    ensures f in b'.tries
    ensures var r, more := b.retry[f], b'.tries[f];
            if r.n > ToInt(s.failRetry) then
              f !in b'.retry && more == b.tries[f] && Report(f, SMTP_NRETRY) in b'.log
            else if tick.end - r.t > s.interval then
              var flag := tick.post(f, r.n);
              && more == b.tries[f] + [Try(|b.passes|, r.n, tick.end, flag)]
              && if flag == SMTP_RETRY then f in b'.retry && b'.retry[f] == Retries(r.n + 1, tick.end)
                 else f !in b'.retry && Report(f, flag) in b'.log
            else f in b'.retry && b'.retry[f] == r && more == b.tries[f]
  {
    var b0 := Begun(b, tick);
    var b1 := if Files(tick) then FirstTried(b0, s, tick.got.src, tick.now, tick.post(tick.got.src, 0)) else b0;
    assert f in b1.retry && b1.retry[f] == b.retry[f] && f in b1.tries && b1.tries[f] == b.tries[f];
    assert |b1.passes| == |b.passes| + 1;
    hide *;
    SweepOfWaiting(b1, b', s, tick, f);
  }

  lemma SweepOfWaiting(b: Books, b': Books, s: Settings, tick: Tick, f: File)
    requires Sensible(s) && b.passes != [] && f in b.retry && f in b.tries
    requires Swept(b, b', s, tick, {})
    ensures f in b'.tries
    ensures var r, more := b.retry[f], b'.tries[f];
            if r.n > ToInt(s.failRetry) then
              f !in b'.retry && more == b.tries[f] && Report(f, SMTP_NRETRY) in b'.log
            else if tick.end - r.t > s.interval then
              var flag := tick.post(f, r.n);
              && more == b.tries[f] + [Try(|b.passes| - 1, r.n, tick.end, flag)]
              && if flag == SMTP_RETRY then f in b'.retry && b'.retry[f] == Retries(r.n + 1, tick.end)
                 else f !in b'.retry && Report(f, flag) in b'.log
            else f in b'.retry && b'.retry[f] == r && more == b.tries[f]
  {
    hide Reported, Explained;
  }

  /** What one pass makes of a new file: it is tried at once, and reported with the result unless that asks
      for another attempt; then it is dropped if retries are off, and waits unless it is due at once. */
  lemma PassOfTaken(b: Books, b': Books, s: Settings, tick: Tick)
    requires Sensible(s) && Pass(b, b', s, tick) && Covered(b, s) && Files(tick) && tick.got.src !in b.tries
    ensures var f, flag := tick.got.src, tick.post(tick.got.src, 0);
            var t := Try(|b.passes|, 0, tick.now, flag);
            && f in b'.tries && t in b'.tries[f]
            && (flag != SMTP_RETRY ==> f !in b'.retry && b'.tries[f] == [t] && Report(f, flag) in b'.log)
            && (flag == SMTP_RETRY && s.failRetry == 0 ==> f !in b'.retry && b'.tries[f] == [t] && f in b'.lost)
            && (flag == SMTP_RETRY && 1 <= ToInt(s.failRetry) && tick.end - tick.now <= s.interval ==>
                  f in b'.retry && b'.retry[f] == Retries(1, tick.now) && b'.tries[f] == [t])
  {
    var f, flag := tick.got.src, tick.post(tick.got.src, 0);
    NewIsNowhere(b, s, f);
    var b1 := FirstTried(Begun(b, tick), s, f, tick.now, flag);
    assert b1.tries[f] == [Try(|b.passes|, 0, tick.now, flag)];
    assert flag != SMTP_RETRY ==> b1.log[|b.log|] == Report(f, flag) && b'.log[|b.log|] == Report(f, flag) by {
      assert b'.log[..|b1.log|] == b1.log;
    }
    hide Reported, Explained;
  }

  /** What one pass makes of any other file: nothing. */
  lemma PassOfOthers(b: Books, b': Books, s: Settings, tick: Tick, f: File)
    requires Sensible(s) && Pass(b, b', s, tick) && TakesOther(tick, f) && f !in b.retry
    ensures f !in b'.retry && (f in b'.tries <==> f in b.tries) && (f in b.tries ==> b'.tries[f] == b.tries[f])
    ensures (Reported(b'.log, f) <==> Reported(b.log, f)) && (f in b'.lost <==> f in b.lost)
  {
    if Files(tick) {
      ReportedAppend(b.log, Report(tick.got.src, tick.post(tick.got.src, 0)));
    }
    hide Reported, Explained, Visit;
  }

  /** However sending goes, a file that is due in every pass is reported within the passes that its
      remaining attempts and one more take. */
  lemma {:induction false} DueFileIsReported(trace: seq<Books>, ticks: seq<Tick>, s: Settings, f: File)
    requires Sensible(s) && IsTrace(trace, ticks, s) && |ticks| > 0
    requires (forall k :: 0 <= k < |ticks| ==> TakesOther(ticks[k], f)) && AlwaysDue(trace, ticks, s, f)
    requires f in trace[0].retry && trace[0].retry[f].n + |ticks| >= ToInt(s.failRetry) + 2
    ensures f !in trace[|ticks|].retry && Reported(trace[|ticks|].log, f)
    decreases |ticks|
  {
    hide Pass, Due;
    DuePass(trace[0], trace[1], s, ticks[0], f);
    if |ticks| > 1 {
      TraceRest(trace, ticks, s);
      if f in trace[1].retry {
        DueFileIsReported(trace[1..], ticks[1..], s, f);
      } else {
        ReportStays(trace[1..], ticks[1..], s, f);
      }
    }
  }

  /** The worker from its start: every file taken is waiting, reported or lost; none is lost with retries
      enabled; a waiting file has been tried at most once more than the setting. Each file is only one of
      these, and reported once, when the queue hands out no name twice. */
  method Serve(settings: Settings, ticks: seq<Tick>)
    returns (retry: map<File, Retries>, log: seq<Report>, ghost tries: map<File, seq<Try>>, ghost lost: set<File>)
    requires Sensible(settings)
    ensures forall f :: TakenBefore(ticks, Open(ticks), f) <==> f in retry || Reported(log, f) || f in lost
    ensures forall f :: f in retry ==> 1 <= retry[f].n <= settings.failRetry + 1
    ensures settings.failRetry > 0 ==> lost == {}
    ensures Recorded(Books(retry, log, tries, lost, ticks[..Open(ticks)]), settings)
    ensures AllNew(ticks, {}) ==>
              && Once(log) && (forall f :: f in retry ==> !Reported(log, f))
              && (forall f :: f in lost ==> f !in retry && !Reported(log, f))
  {
    var w := new Worker(settings);
    hide Recorded, Pass, AllNew;
    ghost var trace := w.PostEmailQueue(ticks);
    assert [] + ticks[..Open(ticks)] == ticks[..Open(ticks)];
    retry, log, tries, lost := w.retry, w.log, w.Tries, w.Lost;
  }

  lemma ReportedAppend(log: seq<Report>, r: Report)
    ensures forall f :: Reported(log + [r], f) <==> Reported(log, f) || f == r.file
    ensures Once(log) && !Reported(log, r.file) ==> Once(log + [r])
  {
    var more := log + [r];
    forall f
      ensures Reported(more, f) <==> Reported(log, f) || f == r.file
    {
      if Reported(log, f) {
        var k :| 0 <= k < |log| && log[k].file == f;
        assert more[k].file == f;
      }
      assert more[|log|] == r;
      if Reported(more, f) {
        var k :| 0 <= k < |more| && more[k].file == f;
        assert k < |log| ==> log[k].file == f;
      }
    }
  }
}
