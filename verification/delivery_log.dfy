/** The merge of delivery reports in service/scanlog_maillist/findyouallovertheworld.c: a map from
    listed mailboxes to the record kept for each. */
module DeliveryLog {
  type Mailbox = string

  datatype Date = Date(year: int, month: int, day: int)

  /** A report entry: the status is 's' for success, 'd' or 'f'. The detail is the text behind '('. */
  datatype Entry = Entry(mailbox: Mailbox, status: char, time: string, detail: Detail)

  datatype Detail = NoDetail | Detail(text: string)

  /** The 250 bytes stored for a mailbox, or nothing yet. */
  datatype Record = Nothing | Record(day: Date, time: string, status: char, detail: string)

  type Database = map<Mailbox, Record>

  /** The fifth field is written with snprintf into 200 bytes, terminator included. */
  function Stored(d: Detail): (r: string)
    ensures d.NoDetail? ==> r == ""
    ensures d.Detail? ==> |r| >= 1 && r[0] == '(' && r[1..] <= d.text && (|r| == |d.text| + 1 || |r| == 199)
    ensures |r| <= 199
  {
    match d
    case NoDetail => ""
    case Detail(text) => var s := "(" + text; if |s| <= 199 then s else s[..199]
  }

  function RecordOf(day: Date, e: Entry): (r: Record)
    ensures r.Record? && r.status == e.status && r.time == e.time && r.day == day
  {
    Record(day, e.time, e.status, Stored(e.detail))
  }

  /** One report entry: success is kept, anything else is overwritten, strangers are passed over. */
  function Merge(db: Database, day: Date, e: Entry): Database {
    if e.mailbox !in db || (db[e.mailbox].Record? && db[e.mailbox].status == 's') then db
    else db[e.mailbox := RecordOf(day, e)]
  }

  /** A report entry with the day of the log it stands in. */
  datatype Dated = Dated(day: Date, entry: Entry)

  function MergeAll(db: Database, reports: seq<Dated>): Database {
    if reports == [] then db
    else var last := reports[|reports| - 1];
         Merge(MergeAll(db, reports[..|reports| - 1]), last.day, last.entry)
  }

  // ---- What the merge amounts to ----

  predicate Names(d: Dated, m: Mailbox) {
    d.entry.mailbox == m
  }

  predicate Succeeds(d: Dated, m: Mailbox) {
    d.entry.mailbox == m && d.entry.status == 's'
  }

  /** The position of the first success of `m`, or -1. */
  function FirstSuccess(reports: seq<Dated>, m: Mailbox): (k: int)
    ensures -1 <= k < |reports|
    ensures k >= 0 ==> Succeeds(reports[k], m)
    ensures forall j :: 0 <= j < (if k >= 0 then k else |reports|) ==> !Succeeds(reports[j], m)
  {
    if reports == [] then -1
    else
      var n := |reports| - 1;
      var k := FirstSuccess(reports[..n], m);
      assert forall j :: 0 <= j < n ==> reports[..n][j] == reports[j];
      if k >= 0 then k else if Succeeds(reports[n], m) then n else -1
  }

  /** The position of the last entry of `m`, or -1. */
  function LastEntry(reports: seq<Dated>, m: Mailbox): (k: int)
    ensures -1 <= k < |reports|
    ensures k >= 0 ==> Names(reports[k], m)
    ensures forall j :: k < j < |reports| ==> !Names(reports[j], m)
  {
    if reports == [] then -1
    else
      var n := |reports| - 1;
      if Names(reports[n], m) then n
      else
        var k := LastEntry(reports[..n], m);
        assert forall j :: 0 <= j < n ==> reports[..n][j] == reports[j];
        k
  }

  /** The record of a mailbox that had none: its first success if there is one, otherwise its last
      entry if there is one, otherwise none. */
  function Final(reports: seq<Dated>, m: Mailbox): Record {
    var s, l := FirstSuccess(reports, m), LastEntry(reports, m);
    if s >= 0 then RecordOf(reports[s].day, reports[s].entry)
    else if l >= 0 then RecordOf(reports[l].day, reports[l].entry)
    else Nothing
  }

  /** The final record of each listed mailbox; no mailbox is ever added. */
  lemma {:induction false} MergedRecord(db: Database, reports: seq<Dated>, m: Mailbox)
    requires m in db && db[m] == Nothing
    ensures MergeAll(db, reports).Keys == db.Keys
    ensures MergeAll(db, reports)[m] == Final(reports, m)
    decreases |reports|
  {
    if reports != [] {
      hide RecordOf;
      var n := |reports| - 1;
      var init := reports[..n];
      MergedRecord(db, init, m);
      StatusKept(reports[n].day, reports[n].entry);
      var s, l := FirstSuccess(init, m), LastEntry(init, m);
      if s >= 0 {
        StatusKept(init[s].day, init[s].entry);
      } else if l >= 0 {
        StatusKept(init[l].day, init[l].entry);
      }
    }
  }

  lemma StatusKept(day: Date, e: Entry)
    ensures RecordOf(day, e).Record? && RecordOf(day, e).status == e.status
  {
  }

  /** Success is absorbing: a successful record stays as it is, whatever follows. */
  lemma {:induction false} SuccessStays(db: Database, reports: seq<Dated>, m: Mailbox)
    requires m in db && db[m].Record? && db[m].status == 's'
    ensures m in MergeAll(db, reports) && MergeAll(db, reports)[m] == db[m]
    decreases |reports|
  {
    if reports != [] {
      SuccessStays(db, reports[..|reports| - 1], m);
    }
  }

  // ---- The days, files and lines of a log ----

  /** A line of a log file: the removal of this mailing, a report with its entries, or anything else. */
  datatype Line = Deleted | Report(entries: seq<Entry>) | Other

  /** The log files of each day, in the order of their numbers. */
  type Logs = map<Date, seq<seq<Line>>>

  const FILE_LIMIT := 10000

  function FilesOf(logs: Logs, day: Date): (r: seq<seq<Line>>)
    ensures if day in logs then r <= logs[day] && (|r| == |logs[day]| || |r| == 10000) else r == []
    ensures |r| <= 10000
  {
    if day !in logs then []
    else if |logs[day]| > FILE_LIMIT then logs[day][..FILE_LIMIT] else logs[day]
  }

  /** What is read of a stretch of log: its report entries up to the removal of the mailing, if any. */
  datatype Reading = Reading(reports: seq<Dated>, finished: bool)

  function Then(a: Reading, b: Reading): Reading {
    if a.finished then a else Reading(a.reports + b.reports, b.finished)
  }

  function ReadEntries(day: Date, es: seq<Entry>): (r: seq<Dated>)
    ensures |r| == |es| && forall i :: 0 <= i < |es| ==> r[i] == Dated(day, es[i])
  {
    seq(|es|, i requires 0 <= i < |es| => Dated(day, es[i]))
  }

  function ReadLine(day: Date, line: Line): Reading {
    match line
    case Deleted => Reading([], true)
    case Report(es) => Reading(ReadEntries(day, es), false)
    case Other => Reading([], false)
  }

  function ReadFile(day: Date, lines: seq<Line>): Reading {
    if lines == [] then Reading([], false)
    else Then(ReadFile(day, lines[..|lines| - 1]), ReadLine(day, lines[|lines| - 1]))
  }

  function ReadDay(day: Date, files: seq<seq<Line>>): Reading {
    if files == [] then Reading([], false)
    else Then(ReadDay(day, files[..|files| - 1]), ReadFile(day, files[|files| - 1]))
  }

  /** The next day of the loop, of any date: every month is given 31 days. */
  function NextDay(d: Date): Date {
    var next := if d.day < 31 then d.(day := d.day + 1) else Date(d.year, d.month + 1, 1);
    if next.month > 12 then Date(next.year + 1, 1, next.day) else next
  }

  predicate Calendar(d: Date) {
    1 <= d.month <= 12 && 1 <= d.day <= 31
  }

  /** The loop's place in its calendar of 31-day months. */
  function Number(d: Date): int {
    (d.year * 12 + d.month - 1) * 31 + d.day - 1
  }

  predicate NotAfter(d: Date, end: Date) {
    d.year < end.year
    || (d.year == end.year && (d.month < end.month || (d.month == end.month && d.day <= end.day)))
  }

  lemma DaysAreNumbered(d: Date, end: Date)
    requires Calendar(d) && Calendar(end)
    ensures Calendar(NextDay(d)) && Number(NextDay(d)) == Number(d) + 1
    ensures NotAfter(d, end) <==> Number(d) <= Number(end)
  {
  }

  /** No day or month above those of the calendar, as after the first step from any date. */
  predicate Settled(d: Date) {
    d.month <= 12 && d.day <= 31
  }

  function Unsettled(d: Date): nat {
    if Settled(d) then 0 else 1
  }

  /** The days left until the year of `end` is over. */
  function DaysLeft(d: Date, end: Date): int {
    Number(Date(end.year, 12, 31)) - Number(d)
  }

  /** Whatever the dates, the loop goes on to a settled date, and from one to the next. */
  lemma DaysRunOut(d: Date, end: Date)
    ensures Settled(NextDay(d))
    ensures Settled(d) ==> DaysLeft(NextDay(d), end) == DaysLeft(d, end) - 1
    ensures Settled(d) && NotAfter(d, end) ==> DaysLeft(d, end) >= 0
  {
    if Settled(d) && NotAfter(d, end) {
      assert (end.year - d.year) * 372 >= 0;
    }
  }

  /** What is read from day `d` to day `end`, in order, up to the removal of the mailing. */
  function ReadDays(logs: Logs, d: Date, end: Date): Reading
    decreases Unsettled(d), DaysLeft(d, end)
  {
    DaysRunOut(d, end);
    if !NotAfter(d, end) then Reading([], false)
    else Then(ReadDay(d, FilesOf(logs, d)), ReadDays(logs, NextDay(d), end))
  }

  lemma ReadOneDay(logs: Logs, d: Date, end: Date)
    ensures ReadDays(logs, d, end) ==
            if NotAfter(d, end) then Then(ReadDay(d, FilesOf(logs, d)), ReadDays(logs, NextDay(d), end))
            else Reading([], false)
  {
  }

  // ---- What is read, line by line ----

  /** A line of the log with its day. */
  datatype DayLine = DayLine(day: Date, line: Line)

  function FileLines(day: Date, lines: seq<Line>): (r: seq<DayLine>)
    ensures |r| == |lines| && forall i :: 0 <= i < |r| ==> r[i] == DayLine(day, lines[i])
  {
    seq(|lines|, i requires 0 <= i < |lines| => DayLine(day, lines[i]))
  }

  function DayLines(day: Date, files: seq<seq<Line>>): seq<DayLine> {
    if files == [] then [] else DayLines(day, files[..|files| - 1]) + FileLines(day, files[|files| - 1])
  }

  /** All lines of the files of each day, from day `d` to day `end`. */
  function AllLines(logs: Logs, d: Date, end: Date): seq<DayLine>
    decreases Unsettled(d), DaysLeft(d, end)
  {
    DaysRunOut(d, end);
    if !NotAfter(d, end) then [] else DayLines(d, FilesOf(logs, d)) + AllLines(logs, NextDay(d), end)
  }

  /** The entries of the report lines, in order. */
  function EntriesOf(ls: seq<DayLine>): seq<Dated> {
    if ls == [] then []
    else
      var last := ls[|ls| - 1];
      EntriesOf(ls[..|ls| - 1]) + if last.line.Report? then ReadEntries(last.day, last.line.entries) else []
  }

  /** The position of the first removal of the mailing, or the number of lines. */
  function Removal(ls: seq<DayLine>): (k: nat)
    ensures k <= |ls| && (k < |ls| ==> ls[k].line.Deleted?)
    ensures forall j :: 0 <= j < k ==> !ls[j].line.Deleted?
  {
    if ls == [] || ls[0].line.Deleted? then 0 else Removal(ls[1..]) + 1
  }

  /** The reading of some lines: the entries of the reports up to the removal of the mailing. */
  predicate ReadingOf(r: Reading, ls: seq<DayLine>) {
    r == Reading(EntriesOf(ls[..Removal(ls)]), Removal(ls) < |ls|)
  }

  lemma {:induction false} EntriesConcat(a: seq<DayLine>, b: seq<DayLine>)
    ensures EntriesOf(a + b) == EntriesOf(a) + EntriesOf(b)
    decreases |b|
  {
    if b == [] {
      assert a + b == a;
    } else {
      assert (a + b)[..|a + b| - 1] == a + b[..|b| - 1];
      EntriesConcat(a, b[..|b| - 1]);
    }
  }

  lemma RemovalIs(ls: seq<DayLine>, k: nat)
    requires k <= |ls| && (k < |ls| ==> ls[k].line.Deleted?) && forall j :: 0 <= j < k ==> !ls[j].line.Deleted?
    ensures Removal(ls) == k
  {
    hide Removal;
  }

  lemma ThenReads(a: Reading, x: seq<DayLine>, b: Reading, y: seq<DayLine>)
    requires ReadingOf(a, x) && ReadingOf(b, y)
    ensures ReadingOf(Then(a, b), x + y)
  {
    hide Removal, EntriesOf;
    if a.finished {
      RemovalIs(x + y, Removal(x));
      assert (x + y)[..Removal(x)] == x[..Removal(x)];
    } else {
      RemovalIs(x + y, |x| + Removal(y));
      assert (x + y)[..|x| + Removal(y)] == x + y[..Removal(y)];
      assert x[..|x|] == x;
      EntriesConcat(x, y[..Removal(y)]);
    }
  }

  lemma LineReads(day: Date, line: Line)
    ensures ReadingOf(ReadLine(day, line), [DayLine(day, line)])
  {
    var ls := [DayLine(day, line)];
    if line.Deleted? {
      RemovalIs(ls, 0);
    } else {
      RemovalIs(ls, 1);
      assert ls[..1] == ls && ls[..0] == [];
    }
  }

  lemma NothingReads()
    ensures ReadingOf(Reading([], false), [])
  {
  }

  lemma {:induction false} FileReads(day: Date, lines: seq<Line>)
    ensures ReadingOf(ReadFile(day, lines), FileLines(day, lines))
    decreases |lines|
  {
    hide ReadLine, ReadingOf;
    if lines == [] {
      NothingReads();
    } else {
      var n := |lines| - 1;
      FileReads(day, lines[..n]);
      LineReads(day, lines[n]);
      ThenReads(ReadFile(day, lines[..n]), FileLines(day, lines[..n]),
                ReadLine(day, lines[n]), [DayLine(day, lines[n])]);
      assert FileLines(day, lines) == FileLines(day, lines[..n]) + [DayLine(day, lines[n])];
    }
  }

  lemma {:induction false} DayReads(day: Date, files: seq<seq<Line>>)
    ensures ReadingOf(ReadDay(day, files), DayLines(day, files))
    decreases |files|
  {
    hide ReadFile, ReadingOf;
    if files == [] {
      NothingReads();
    } else {
      var n := |files| - 1;
      DayReads(day, files[..n]);
      FileReads(day, files[n]);
      ThenReads(ReadDay(day, files[..n]), DayLines(day, files[..n]), ReadFile(day, files[n]), FileLines(day, files[n]));
    }
  }

  /** What is read of a log is the entries of all its report lines, in the order of days, files and lines, up
      to the first removal of the mailing. */
  lemma {:induction false} DaysRead(logs: Logs, d: Date, end: Date)
    ensures ReadingOf(ReadDays(logs, d, end), AllLines(logs, d, end))
    decreases Unsettled(d), DaysLeft(d, end)
  {
    hide ReadDay, DayLines, FilesOf, ReadingOf;
    DaysRunOut(d, end);
    if NotAfter(d, end) {
      DayReads(d, FilesOf(logs, d));
      DaysRead(logs, NextDay(d), end);
      ThenReads(ReadDay(d, FilesOf(logs, d)), DayLines(d, FilesOf(logs, d)),
                ReadDays(logs, NextDay(d), end), AllLines(logs, NextDay(d), end));
    } else {
      NothingReads();
    }
  }

  lemma {:induction false} MergeAllConcat(db: Database, a: seq<Dated>, b: seq<Dated>)
    ensures MergeAll(db, a + b) == MergeAll(MergeAll(db, a), b)
    decreases |b|
  {
    hide Merge;
    if b == [] {
      assert a + b == a;
    } else {
      assert (a + b)[..|a + b| - 1] == a + b[..|b| - 1];
      MergeAllConcat(db, a, b[..|b| - 1]);
    }
  }

  lemma {:induction false} FileFinished(day: Date, lines: seq<Line>, k: nat)
    requires k <= |lines| && ReadFile(day, lines[..k]).finished
    ensures ReadFile(day, lines) == ReadFile(day, lines[..k])
    decreases |lines| - k
  {
    if k < |lines| {
      assert lines[..k + 1][..k] == lines[..k];
      FileFinished(day, lines, k + 1);
    } else {
      assert lines[..k] == lines;
    }
  }

  lemma {:induction false} DayFinished(day: Date, files: seq<seq<Line>>, k: nat)
    requires k <= |files| && ReadDay(day, files[..k]).finished
    ensures ReadDay(day, files) == ReadDay(day, files[..k])
    decreases |files| - k
  {
    if k < |files| {
      assert files[..k + 1][..k] == files[..k];
      DayFinished(day, files, k + 1);
    } else {
      assert files[..k] == files;
    }
  }

  class MailboxTable {
    var db: Database

    constructor ()
      ensures db == map[]
    {
      db := map[];
    }

    /** ReadMailBox: every listed mailbox is a key without a record. */
    method ReadMailBox(list: seq<Mailbox>)
      modifies this
      ensures forall m :: m in db <==> m in old(db) || m in list
      ensures forall m :: m in db ==> db[m] == if m in old(db) then old(db)[m] else Nothing
    {
      for k := 0 to |list|
        invariant forall m :: m in db <==> m in old(db) || m in list[..k]
        invariant forall m :: m in db ==> db[m] == if m in old(db) then old(db)[m] else Nothing
      {
        if list[k] !in db {
          db := db[list[k] := Nothing];
        }
        assert list[..k + 1] == list[..k] + [list[k]];
      }
      assert list[..|list|] == list;
    }

    /** The cursor's look-up and overwrite for one report entry. */
    method MergeEntry(day: Date, e: Entry)
      modifies this
      ensures db == Merge(old(db), day, e)
    {
      if e.mailbox in db {
        var data := db[e.mailbox];
        if data.Record? {
          if data.status != 's' {
            db := db[e.mailbox := RecordOf(day, e)];
          }
        } else {
          db := db[e.mailbox := RecordOf(day, e)];
        }
      }
    }

    method ScanReport(day: Date, entries: seq<Entry>)
      modifies this
      ensures db == MergeAll(old(db), ReadEntries(day, entries))
    {
      hide Merge;
      ghost var all := ReadEntries(day, entries);
      for k := 0 to |entries|
        invariant db == MergeAll(old(db), all[..k])
      {
        MergeEntry(day, entries[k]);
        assert all[..k + 1][..k] == all[..k];
      }
      assert all[..|entries|] == all;
    }

    method ScanFile(day: Date, lines: seq<Line>) returns (finished: bool)
      modifies this
      ensures var r := ReadFile(day, lines); db == MergeAll(old(db), r.reports) && finished == r.finished
    {
      hide MergeAll, ReadEntries;
      finished := false;
      assert MergeAll(db, []) == db by { MergeNothing(db); }
      var k := 0;
      while k < |lines| && !finished
        invariant 0 <= k <= |lines|
        invariant db == MergeAll(old(db), ReadFile(day, lines[..k]).reports)
        invariant finished == ReadFile(day, lines[..k]).finished
        decreases |lines| - k
      {
        assert lines[..k + 1][..k] == lines[..k];
        ghost var before := ReadFile(day, lines[..k]).reports;
        MergeNothing(db);
        assert before + [] == before;
        match lines[k] {
          case Deleted =>
            finished := true;
          case Report(entries) =>
            ScanReport(day, entries);
            MergeAllConcat(old(db), before, ReadEntries(day, entries));
          case Other =>
        }
        k := k + 1;
      }
      assert finished ==> ReadFile(day, lines) == ReadFile(day, lines[..k]) by {
        if finished {
          FileFinished(day, lines, k);
        }
      }
      assert !finished ==> lines[..k] == lines;
    }

    method ScanDay(day: Date, files: seq<seq<Line>>) returns (finished: bool)
      modifies this
      ensures var r := ReadDay(day, files); db == MergeAll(old(db), r.reports) && finished == r.finished
    {
      hide MergeAll, ReadFile;
      finished := false;
      MergeNothing(db);
      var n := 0;
      while n < |files| && !finished
        invariant 0 <= n <= |files|
        invariant db == MergeAll(old(db), ReadDay(day, files[..n]).reports)
        invariant finished == ReadDay(day, files[..n]).finished
        decreases |files| - n
      {
        assert files[..n + 1][..n] == files[..n];
        finished := ScanFile(day, files[n]);
        MergeAllConcat(old(db), ReadDay(day, files[..n]).reports, ReadFile(day, files[n]).reports);
        n := n + 1;
      }
      if finished {
        DayFinished(day, files, n);
      } else {
        assert files[..n] == files;
      }
    }

    /** ScanDeliverLog: merges the reports from day `start` to day `end`, up to the removal of the mailing. */
    method ScanDeliverLog(logs: Logs, start: Date, end: Date)
      modifies this
      ensures db == MergeAll(old(db), ReadDays(logs, start, end).reports)
    {
      hide MergeAll, ReadDay, ReadDays, DaysLeft, Settled, NextDay, NotAfter, FilesOf;
      var finished, d := false, start;
      ghost var done: seq<Dated> := [];
      MergeNothing(db);
      while !finished && NotAfter(d, end)
        invariant db == MergeAll(old(db), done)
        invariant if finished then ReadDays(logs, start, end).reports == done
                  else ReadDays(logs, start, end).reports == done + ReadDays(logs, d, end).reports
        decreases !finished, Unsettled(d), DaysLeft(d, end)
      {
        DaysRunOut(d, end);
        ReadOneDay(logs, d, end);
        ghost var today := ReadDay(d, FilesOf(logs, d));
        finished := ScanDay(d, FilesOf(logs, d));
        MergeAllConcat(old(db), done, today.reports);
        ghost var rest := ReadDays(logs, NextDay(d), end).reports;
        assert done + (today.reports + rest) == done + today.reports + rest;
        done := done + today.reports;
        d := NextDay(d);
      }
      ReadOneDay(logs, d, end);
      assert done + [] == done;
    }
  }

  lemma MergeNothing(db: Database)
    ensures MergeAll(db, []) == db
  {
  }

  /** The table of a list of mailboxes after the scan: each listed mailbox with its first success, or
      else its last report, or else nothing, and no other mailbox. */
  method Scan(list: seq<Mailbox>, logs: Logs, start: Date, end: Date) returns (db: Database)
    ensures forall m :: m in db <==> m in list
    ensures forall m :: m in db ==> db[m] == Final(ReadDays(logs, start, end).reports, m)
  {
    hide Final, ReadDays, MergeAll;
    var t := new MailboxTable();
    t.ReadMailBox(list);
    ghost var before := t.db;
    t.ScanDeliverLog(logs, start, end);
    db := t.db;
    forall m: Mailbox
      ensures m in db <==> m in list
      ensures m in db ==> db[m] == Final(ReadDays(logs, start, end).reports, m)
    {
      if m in before {
        MergedRecord(before, ReadDays(logs, start, end).reports, m);
      } else {
        NeverAdded(before, ReadDays(logs, start, end).reports);
      }
    }
  }

  lemma {:induction false} NeverAdded(db: Database, reports: seq<Dated>)
    ensures MergeAll(db, reports).Keys == db.Keys
    decreases |reports|
  {
    if reports != [] {
      NeverAdded(db, reports[..|reports| - 1]);
    }
  }
}
