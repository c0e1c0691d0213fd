/** The IP-area index of service/scanlog_cachedb/iparea.c: ranges as keys of an ordered store whose
    comparison makes overlapping ranges equal. */
module IpArea {
  import opened Bytes

  /** Four bytes of an address, most significant first. */
  type Address = a: seq<byte> | |a| == 4 witness [0, 0, 0, 0]

  function Value(a: Address): uint32 {
    FromBigEndian32(a)
  }

  /** memcmp: the sign of the first difference of two byte strings of one length. */
  function Memcmp(a: seq<byte>, b: seq<byte>): int
    requires |a| == |b|
  {
    if a == [] then 0
    else if a[0] < b[0] then -1
    else if a[0] > b[0] then 1
    else Memcmp(a[1..], b[1..])
  }

  /** On addresses memcmp is the comparison of their values. */
  lemma MemcmpIsNumeric(a: Address, b: Address)
    ensures Memcmp(a, b) < 0 <==> Value(a) < Value(b)
    ensures Memcmp(a, b) > 0 <==> Value(a) > Value(b)
  {
    MemcmpFrom(a, b, 3);
    MemcmpFrom(a, b, 2);
    MemcmpFrom(a, b, 1);
    MemcmpFrom(a, b, 0);
    assert a[4..] == [] && b[4..] == [] && a[0..] == a && b[0..] == b;
  }

  lemma MemcmpFrom(a: seq<byte>, b: seq<byte>, k: nat)
    requires |a| == |b| && k < |a|
    ensures Memcmp(a[k..], b[k..]) ==
            if a[k] < b[k] then -1 else if a[k] > b[k] then 1 else Memcmp(a[k + 1..], b[k + 1..])
  {
    assert a[k..][1..] == a[k + 1..] && b[k..][1..] == b[k + 1..];
  }

  /** The eight key bytes: the first and the last address of a range. */
  datatype Range = Range(first: Address, last: Address)

  function Compare(x: Range, y: Range): (c: int)
    ensures c == -1 || c == 0 || c == 1
  {
    if Memcmp(x.first, y.last) > 0 then 1
    else if Memcmp(x.last, y.first) < 0 then -1
    else 0
  }

  predicate Contains(x: Range, a: Address) {
    Value(x.first) <= Value(a) <= Value(x.last)
  }

  /** A range whose first address is not after its last. */
  predicate Proper(x: Range) {
    Value(x.first) <= Value(x.last)
  }

  /** The comparison is an order on ranges exactly as far as they are proper: an inverted range is not
      even equal to itself. */
  lemma EqualToItselfIffProper(x: Range)
    ensures Compare(x, x) == 0 <==> Proper(x)
  {
    MemcmpIsNumeric(x.first, x.last);
    MemcmpIsNumeric(x.last, x.first);
  }

  lemma CompareIsNumeric(x: Range, y: Range)
    ensures Compare(x, y) == 1 <==> Value(x.first) > Value(y.last)
    ensures Compare(x, y) == -1 <==> Value(x.first) <= Value(y.last) && Value(x.last) < Value(y.first)
    ensures Compare(x, y) == 0 <==> Value(x.first) <= Value(y.last) && Value(y.first) <= Value(x.last)
  {
    MemcmpIsNumeric(x.first, y.last);
    MemcmpIsNumeric(x.last, y.first);
  }

  /** Ranges share an address if and only if they are proper and compare equal. */
  lemma EqualIffOverlapping(x: Range, y: Range)
    ensures (exists a: Address :: Contains(x, a) && Contains(y, a)) <==> Compare(x, y) == 0 && Proper(x) && Proper(y)
  {
    CompareIsNumeric(x, y);
    if Compare(x, y) == 0 && Proper(x) && Proper(y) {
      var a := if Value(x.first) >= Value(y.first) then x.first else y.first;
      assert Contains(x, a) && Contains(y, a);
    }
  }

  // ---- The store ----

  datatype Entry = Entry(range: Range, area: string)

  /** Proper ranges, each wholly before the next ones. */
  predicate Ordered(es: seq<Entry>) {
    && (forall i :: 0 <= i < |es| ==> Proper(es[i].range))
    && (forall i, j :: 0 <= i < j < |es| ==> Value(es[i].range.last) < Value(es[j].range.first))
  }

  /** No address is in two of the ranges. */
  ghost predicate Disjoint(es: seq<Entry>) {
    forall i, j, a: Address :: 0 <= i < j < |es| ==> !(Contains(es[i].range, a) && Contains(es[j].range, a))
  }

  /** Where the key stands among ordered entries: an equal one if there is any, and otherwise between
      the smaller and the greater ones. A key may well equal several entries. */
  predicate StandsAt(es: seq<Entry>, key: Range, found: bool, at: nat) {
    && at <= |es|
    && (found ==> at < |es| && Compare(key, es[at].range) == 0)
    && (!found ==>
          && (forall i :: 0 <= i < at ==> Compare(key, es[i].range) == 1)
          && (forall i :: at <= i < |es| ==> Compare(key, es[i].range) == -1))
  }

  /** The linear scan for the entry that contains an address. */
  function Scan(es: seq<Entry>, a: Address): Lookup {
    if es == [] then Missing
    else if Contains(es[0].range, a) then Found(es[0].area)
    else Scan(es[1..], a)
  }

  datatype Lookup = Missing | Found(area: string)

  /** An entry is added by DB_NOOVERWRITE unless its range equals one already there. */
  predicate Acceptable(es: seq<Entry>, e: Entry) {
    forall i :: 0 <= i < |es| ==> Compare(e.range, es[i].range) != 0
  }

  /** The lines of a file that differ from all those accepted before them, in the order of the file. They
      are what a store that compared each line with every entry would hold; a tree compares with some. */
  function Accepted(lines: seq<Entry>): seq<Entry> {
    if lines == [] then []
    else
      var before, e := Accepted(lines[..|lines| - 1]), lines[|lines| - 1];
      if Acceptable(before, e) then before + [e] else before
  }

  lemma ScanFinds(es: seq<Entry>, a: Address, k: nat)
    requires k < |es| && Contains(es[k].range, a)
    requires forall i :: 0 <= i < k ==> !Contains(es[i].range, a)
    ensures Scan(es, a) == Found(es[k].area)
  {
    if k > 0 {
      ScanFinds(es[1..], a, k - 1);
    }
  }

  lemma {:induction false} ScanMisses(es: seq<Entry>, a: Address)
    requires forall i :: 0 <= i < |es| ==> !Contains(es[i].range, a)
    ensures Scan(es, a) == Missing
  {
    if es != [] {
      ScanMisses(es[1..], a);
    }
  }

  /** A scan does not depend on the order in which disjoint entries are listed. */
  lemma ScanIgnoresOrder(es: seq<Entry>, fs: seq<Entry>, a: Address)
    requires Disjoint(es) && Disjoint(fs) && multiset(es) == multiset(fs)
    ensures Scan(es, a) == Scan(fs, a)
  {
    if k :| 0 <= k < |es| && Contains(es[k].range, a) {
      assert es[k] in multiset(fs);
      var m :| 0 <= m < |fs| && fs[m] == es[k];
      ScanFinds(es, a, k);
      ScanFinds(fs, a, m);
    } else {
      forall m | 0 <= m < |fs|
        ensures !Contains(fs[m].range, a)
      {
        assert fs[m] in multiset(es);
        var k :| 0 <= k < |es| && es[k] == fs[m];
      }
      ScanMisses(es, a);
      ScanMisses(fs, a);
    }
  }

  function Point(a: Address): Range {
    Range(a, a)
  }

  /** Every range, proper or not, equals exactly the points it contains. */
  lemma OnePoint(x: Range, a: Address)
    ensures Compare(Point(a), x) == 0 <==> Contains(x, a)
    ensures Compare(Point(a), x) == 1 <==> Value(a) > Value(x.last)
    ensures Compare(Point(a), x) == -1 <==> Value(a) <= Value(x.last) && Value(a) < Value(x.first)
  {
    CompareIsNumeric(Point(a), x);
  }

  function Insert(es: seq<Entry>, e: Entry, at: nat): seq<Entry>
    requires at <= |es|
  {
    es[..at] + [e] + es[at..]
  }

  lemma InsertKeepsAll(es: seq<Entry>, e: Entry, at: nat)
    requires at <= |es|
    ensures multiset(Insert(es, e, at)) == multiset(es + [e])
  {
    assert es == es[..at] + es[at..];
  }

  lemma InsertAt(es: seq<Entry>, e: Entry, at: nat, i: nat)
    requires at <= |es| && i <= |es|
    ensures Insert(es, e, at)[i] == if i < at then es[i] else if i == at then e else es[i - 1]
  {
  }

  /** Where a range stands among ordered ones, numerically. */
  lemma StandsBetween(es: seq<Entry>, key: Range, at: nat, i: nat)
    requires StandsAt(es, key, false, at) && i < |es|
    ensures i < at ==> Value(es[i].range.last) < Value(key.first)
    ensures i >= at ==> Value(key.last) < Value(es[i].range.first)
  {
    hide Compare;
    CompareIsNumeric(key, es[i].range);
  }

  lemma InsertedPair(es: seq<Entry>, e: Entry, at: nat, i: nat, j: nat)
    requires Ordered(es) && StandsAt(es, e.range, false, at) && i < j <= |es|
    ensures var r := Insert(es, e, at); Value(r[i].range.last) < Value(r[j].range.first)
  {
    InsertLength(es, e, at);
    InsertAt(es, e, at, i);
    InsertAt(es, e, at, j);
    hide Insert, StandsAt, Value;
    if i == at {
      StandsBetween(es, e.range, at, j - 1);
    } else if j == at {
      StandsBetween(es, e.range, at, i);
    }
  }

  /** Inserting an entry where it stands keeps the order if and only if its range is proper. */
  lemma InsertKeepsOrder(es: seq<Entry>, e: Entry, at: nat)
    requires Ordered(es) && StandsAt(es, e.range, false, at)
    ensures Ordered(Insert(es, e, at)) <==> Proper(e.range)
  {
    InsertLength(es, e, at);
    hide Insert, StandsAt, Proper, Value;
    var r := Insert(es, e, at);
    InsertAt(es, e, at, at);
    forall i | 0 <= i < |r|
      ensures i != at ==> Proper(r[i].range)
    {
      InsertAt(es, e, at, i);
    }
    forall i, j | 0 <= i < j < |r|
      ensures Value(r[i].range.last) < Value(r[j].range.first)
    {
      InsertedPair(es, e, at, i, j);
    }
  }

  lemma InsertLength(es: seq<Entry>, e: Entry, at: nat)
    requires StandsAt(es, e.range, false, at)
    ensures at <= |es| && |Insert(es, e, at)| == |es| + 1
  {
  }

  // ---- Searching, whatever the order of the entries and the pages of the tree ----

  /** A search between `lo` and `hi` can end so: each comparison is with some entry in between, and goes
      on below or above it. Which entry that is depends on the pages of the tree. */
  ghost predicate MayEnd(es: seq<Entry>, key: Range, lo: nat, hi: nat, found: bool, at: nat)
    requires lo <= hi <= |es|
    decreases hi - lo
  {
    if lo == hi then !found && at == lo
    else exists mid: nat | lo <= mid < hi :: GoesOn(es, key, lo, hi, mid, found, at)
  }

  ghost predicate GoesOn(es: seq<Entry>, key: Range, lo: nat, hi: nat, mid: nat, found: bool, at: nat)
    requires lo <= mid < hi <= |es|
    decreases hi - lo, 0
  {
    var c := Compare(key, es[mid].range);
    if c == 0 then found && at == mid
    else if c < 0 then MayEnd(es, key, lo, mid, found, at)
    else MayEnd(es, key, mid + 1, hi, found, at)
  }

  lemma {:induction false} EndIsInside(es: seq<Entry>, key: Range, lo: nat, hi: nat, found: bool, at: nat)
    requires lo <= hi <= |es| && MayEnd(es, key, lo, hi, found, at)
    ensures lo <= at <= hi && (found ==> at < hi && Compare(key, es[at].range) == 0)
    decreases hi - lo
  {
    hide Compare;
    if lo < hi {
      var mid: nat :| lo <= mid < hi && GoesOn(es, key, lo, hi, mid, found, at);
      if Compare(key, es[mid].range) < 0 {
        EndIsInside(es, key, lo, mid, found, at);
      } else if Compare(key, es[mid].range) > 0 {
        EndIsInside(es, key, mid + 1, hi, found, at);
      }
    }
  }

  lemma {:induction false} SomeEnd(es: seq<Entry>, key: Range, lo: nat, hi: nat) returns (found: bool, at: nat)
    requires lo <= hi <= |es|
    ensures MayEnd(es, key, lo, hi, found, at)
    decreases hi - lo
  {
    hide Compare;
    if lo == hi {
      return false, lo;
    }
    var c := Compare(key, es[lo].range);
    if c == 0 {
      found, at := true, lo;
    } else if c < 0 {
      found, at := SomeEnd(es, key, lo, lo);
    } else {
      found, at := SomeEnd(es, key, lo + 1, hi);
    }
    assert GoesOn(es, key, lo, hi, lo, found, at);
  }

  /** Among ordered entries a search ends where the key stands, on every tree. */
  lemma {:induction false} OrderedEnd(es: seq<Entry>, key: Range, lo: nat, hi: nat, found: bool, at: nat)
    requires lo <= hi <= |es| && MayEnd(es, key, lo, hi, found, at)
    requires Ordered(es) && Proper(key)
    requires forall i :: 0 <= i < lo ==> Compare(key, es[i].range) == 1
    requires forall i :: hi <= i < |es| ==> Compare(key, es[i].range) == -1
    ensures StandsAt(es, key, found, at)
    decreases hi - lo
  {
    hide Compare, Ordered;
    if lo < hi {
      var mid: nat :| lo <= mid < hi && GoesOn(es, key, lo, hi, mid, found, at);
      Sides(es, key, mid);
      if Compare(key, es[mid].range) < 0 {
        OrderedEnd(es, key, lo, mid, found, at);
      } else if Compare(key, es[mid].range) > 0 {
        OrderedEnd(es, key, mid + 1, hi, found, at);
      }
    }
  }

  lemma Sides(es: seq<Entry>, key: Range, mid: nat)
    requires Ordered(es) && Proper(key) && mid < |es|
    ensures Compare(key, es[mid].range) == 1 ==> forall i :: 0 <= i < mid ==> Compare(key, es[i].range) == 1
    ensures Compare(key, es[mid].range) == -1 ==> forall i :: mid < i < |es| ==> Compare(key, es[i].range) == -1
  {
    hide Compare, Value;
    CompareIsNumeric(key, es[mid].range);
    forall i | 0 <= i < |es|
      ensures i < mid && Compare(key, es[mid].range) == 1 ==> Compare(key, es[i].range) == 1
      ensures i > mid && Compare(key, es[mid].range) == -1 ==> Compare(key, es[i].range) == -1
    {
      CompareIsNumeric(key, es[i].range);
    }
  }

  /** A search of the whole store can end without an entry at `at`: behind one that is smaller than the
      key, if any, and ahead of one that is greater, if any. */
  predicate Gap(es: seq<Entry>, key: Range, at: nat) {
    && at <= |es|
    && (at > 0 ==> Compare(key, es[at - 1].range) == 1)
    && (at < |es| ==> Compare(key, es[at].range) == -1)
  }

  /** Where a search can end: on some tree at each equal entry and in each gap, on no tree elsewhere. */
  lemma EndsExactly(es: seq<Entry>, key: Range, found: bool, at: nat)
    ensures MayEnd(es, key, 0, |es|, found, at) <==>
            if found then at < |es| && Compare(key, es[at].range) == 0 else Gap(es, key, at)
  {
    hide Compare;
    if MayEnd(es, key, 0, |es|, found, at) {
      EndIsInside(es, key, 0, |es|, found, at);
      EndIsGap(es, key, 0, |es|, found, at);
    } else if found {
      assert at < |es| && Compare(key, es[at].range) == 0 ==> GoesOn(es, key, 0, |es|, at, true, at);
    } else if Gap(es, key, at) {
      GapIsReached(es, key, at);
    }
  }

  lemma {:induction false} EndIsGap(es: seq<Entry>, key: Range, lo: nat, hi: nat, found: bool, at: nat)
    requires lo <= hi <= |es| && MayEnd(es, key, lo, hi, found, at)
    requires lo > 0 ==> Compare(key, es[lo - 1].range) == 1
    requires hi < |es| ==> Compare(key, es[hi].range) == -1
    ensures !found ==> Gap(es, key, at)
    decreases hi - lo
  {
    hide Compare;
    if lo < hi {
      CompareIsSign(key, es, lo, hi);
      var mid: nat :| lo <= mid < hi && GoesOn(es, key, lo, hi, mid, found, at);
      if Compare(key, es[mid].range) < 0 {
        EndIsGap(es, key, lo, mid, found, at);
      } else if Compare(key, es[mid].range) > 0 {
        EndIsGap(es, key, mid + 1, hi, found, at);
      }
    }
  }

  lemma CompareIsSign(key: Range, es: seq<Entry>, lo: nat, hi: nat)
    requires lo <= hi <= |es|
    ensures forall i :: lo <= i < hi ==> Compare(key, es[i].range) in {-1, 0, 1}
  {
  }

  lemma GapIsReached(es: seq<Entry>, key: Range, at: nat)
    requires Gap(es, key, at)
    ensures MayEnd(es, key, 0, |es|, false, at)
  {
    hide Compare;
    assert MayEnd(es, key, at, at, false, at);
    if at < |es| {
      assert GoesOn(es, key, at, |es|, at, false, at);
    }
    assert MayEnd(es, key, at, |es|, false, at);
    if at > 0 {
      assert GoesOn(es, key, 0, |es|, at - 1, false, at);
    }
  }

  // ---- When a store answers every address right ----

  /** Every address of a stored range sorts behind the entries before it and ahead of those after it.
      An inverted range parts the addresses at its last one, wherever that lies. */
  predicate RightlyPlaced(es: seq<Entry>) {
    forall i, j :: 0 <= i < j < |es| ==> PlacedPair(es[i].range, es[j].range)
  }

  predicate PlacedPair(x: Range, y: Range) {
    && (Proper(y) ==> Value(x.last) < Value(y.first))
    && (Proper(x) ==> Value(x.last) <= Value(y.last) && Value(x.last) < Value(y.first))
  }

  lemma PlacedIsDisjoint(es: seq<Entry>)
    requires RightlyPlaced(es)
    ensures Disjoint(es)
  {
    hide Value, RightlyPlaced;
    forall i, j, a: Address | 0 <= i < j < |es|
      ensures !(Contains(es[i].range, a) && Contains(es[j].range, a))
    {
      assert PlacedPair(es[i].range, es[j].range) by { PairOf(es, i, j); }
    }
  }

  lemma PairOf(es: seq<Entry>, i: nat, j: nat)
    requires RightlyPlaced(es) && i < j < |es|
    ensures PlacedPair(es[i].range, es[j].range)
  {
  }

  lemma OrderedIsPlaced(es: seq<Entry>)
    requires Ordered(es)
    ensures RightlyPlaced(es) && Disjoint(es)
  {
    hide Value;
  }

  /** The first entry that contains an address, or the number of entries: what a linear scan stops at. */
  function ScanAt(es: seq<Entry>, a: Address): (k: nat)
    ensures k <= |es| && (k < |es| ==> Contains(es[k].range, a))
    ensures forall i :: 0 <= i < k ==> !Contains(es[i].range, a)
    ensures Scan(es, a) == if k < |es| then Found(es[k].area) else Missing
  {
    if es == [] || Contains(es[0].range, a) then 0 else ScanAt(es[1..], a) + 1
  }

  /** On every tree, the search for every address ends at the very entry at which a linear scan stops. */
  ghost predicate FindsRight(es: seq<Entry>) {
    forall a: Address, found, at: nat :: MayEnd(es, Point(a), 0, |es|, found, at) ==>
                                           ScanAt(es, a) == if found then at else |es|
  }

  function Outcome(es: seq<Entry>, found: bool, at: nat): Lookup {
    if found && at < |es| then Found(es[at].area) else Missing
  }

  /** On every tree, every address is looked up as a linear scan would. */
  ghost predicate SearchesRight(es: seq<Entry>) {
    forall a: Address, found, at: nat ::
      MayEnd(es, Point(a), 0, |es|, found, at) ==> Outcome(es, found, at) == Scan(es, a)
  }

  lemma PlacedSearch(es: seq<Entry>, a: Address, found: bool, at: nat)
    requires RightlyPlaced(es) && MayEnd(es, Point(a), 0, |es|, found, at)
    ensures at <= |es| && (found ==> at < |es|) && ScanAt(es, a) == if found then at else |es|
  {
    PlacedIsDisjoint(es);
    EndsExactly(es, Point(a), found, at);
    hide Compare, RightlyPlaced, MayEnd, Contains, ScanAt, Scan;
    var k := ScanAt(es, a);
    if found {
      OnePoint(es[at].range, a);
    } else if k < |es| {
      NoGapBeside(es, a, k, at);
    }
  }

  /** Among rightly placed entries the search for an address of one of them ends in no gap. */
  lemma NoGapBeside(es: seq<Entry>, a: Address, k: nat, at: nat)
    requires RightlyPlaced(es) && k < |es| && Contains(es[k].range, a)
    ensures !Gap(es, Point(a), at)
  {
    hide Compare, RightlyPlaced, Value;
    if at <= |es| {
      if k < at {
        OnePoint(es[at - 1].range, a);
        if k < at - 1 {
          PairOf(es, k, at - 1);
        }
      } else {
        OnePoint(es[at].range, a);
        if k > at {
          PairOf(es, at, k);
        }
      }
    }
  }

  /** The search ends right for every address on every tree if and only if the entries are rightly
      placed. Nothing is asked of the store. */
  lemma FindsRightIffPlaced(es: seq<Entry>)
    ensures FindsRight(es) <==> RightlyPlaced(es)
  {
    if RightlyPlaced(es) {
      forall a: Address, found, at: nat | MayEnd(es, Point(a), 0, |es|, found, at)
        ensures ScanAt(es, a) == if found then at else |es|
      {
        PlacedSearch(es, a, found, at);
      }
    } else {
      var i, j := Misplaced(es);
      var a, k, found, at := TwoEnds(es, i, j);
      assert MayEnd(es, Point(a), 0, |es|, true, k);
    }
  }

  /** Of a misplaced pair one contains an address whose search can end there and elsewhere. */
  lemma TwoEnds(es: seq<Entry>, i: nat, j: nat) returns (a: Address, k: nat, found: bool, at: nat)
    requires i < j < |es| && !PlacedPair(es[i].range, es[j].range)
    ensures k < |es| && MayEnd(es, Point(a), 0, |es|, true, k)
    ensures MayEnd(es, Point(a), 0, |es|, found, at) && (found ==> at < |es| && at != k)
  {
    hide Compare, Value, MayEnd;
    var x, y := es[i].range, es[j].range;
    var other;
    if Proper(y) && Value(x.last) >= Value(y.first) {
      a, k, other := y.first, j, i;
    } else {
      a, k, other := x.last, i, j;
    }
    OnePoint(x, a);
    OnePoint(y, a);
    EndsExactly(es, Point(a), true, k);
    found, at := EndBeside(es, Point(a), k, other);
  }

  /** A search that compares with another entry first ends at that one or on its other side. */
  lemma EndBeside(es: seq<Entry>, key: Range, k: nat, other: nat) returns (found: bool, at: nat)
    requires k < |es| && other < |es| && k != other
    requires Compare(key, es[other].range) != if k < other then -1 else 1
    ensures MayEnd(es, key, 0, |es|, found, at) && (found ==> at < |es| && at != k)
  {
    CompareIsSign(key, es, 0, |es|);
    hide Compare;
    if Compare(key, es[other].range) == 0 {
      found, at := true, other;
    } else if k < other {
      found, at := SomeEnd(es, key, other + 1, |es|);
      EndIsInside(es, key, other + 1, |es|, found, at);
    } else {
      found, at := SomeEnd(es, key, 0, other);
      EndIsInside(es, key, 0, other, found, at);
    }
    assert GoesOn(es, key, 0, |es|, other, found, at);
  }

  predicate DifferentAreas(es: seq<Entry>) {
    forall i, j :: 0 <= i < j < |es| ==> es[i].area != es[j].area
  }

  /** Rightly placed entries give every address the area that a linear scan gives; if no two entries
      have the same area, no others do. */
  lemma SearchesRightIffPlaced(es: seq<Entry>)
    ensures RightlyPlaced(es) ==> SearchesRight(es)
    ensures DifferentAreas(es) ==> (SearchesRight(es) <==> RightlyPlaced(es))
  {
    hide DifferentAreas, Scan, MayEnd, RightlyPlaced;
    if RightlyPlaced(es) {
      forall a: Address, found, at: nat | MayEnd(es, Point(a), 0, |es|, found, at)
        ensures Outcome(es, found, at) == Scan(es, a)
      {
        PlacedSearch(es, a, found, at);
      }
    } else if DifferentAreas(es) {
      var i, j := Misplaced(es);
      var a, k, found, at := TwoEnds(es, i, j);
      TwoOutcomes(es, k, found, at);
    }
  }

  lemma Misplaced(es: seq<Entry>) returns (i: nat, j: nat)
    requires !RightlyPlaced(es)
    ensures i < j < |es| && !PlacedPair(es[i].range, es[j].range)
  {
    i, j :| 0 <= i < j < |es| && !PlacedPair(es[i].range, es[j].range);
  }

  lemma TwoOutcomes(es: seq<Entry>, k: nat, found: bool, at: nat)
    requires DifferentAreas(es) && k < |es| && (found ==> at < |es| && at != k)
    ensures Outcome(es, true, k) != Outcome(es, found, at)
  {
  }

  // ---- When insertion keeps ranges disjoint ----

  /** The store after an insertion whose search ended so. */
  function Stored(es: seq<Entry>, e: Entry, found: bool, at: nat): seq<Entry> {
    if found || at > |es| then es else Insert(es, e, at)
  }

  predicate Overlaps(es: seq<Entry>, e: Entry) {
    exists i :: 0 <= i < |es| && Compare(e.range, es[i].range) == 0 && Proper(e.range) && Proper(es[i].range)
  }

  /** Adding an entry anywhere keeps ranges disjoint if and only if it overlaps none of them. */
  lemma InsertIsDisjointIff(es: seq<Entry>, e: Entry, at: nat)
    requires Disjoint(es) && at <= |es|
    ensures Disjoint(Insert(es, e, at)) <==> !Overlaps(es, e)
  {
    hide Insert, Contains, Compare, Proper;
    InsertSize(es, e, at);
    var r := Insert(es, e, at);
    InsertAt(es, e, at, at);
    if Overlaps(es, e) {
      var i :| 0 <= i < |es| && Compare(e.range, es[i].range) == 0 && Proper(e.range) && Proper(es[i].range);
      EqualIffOverlapping(e.range, es[i].range);
      var a: Address :| Contains(e.range, a) && Contains(es[i].range, a);
      InsertAt(es, e, at, if i < at then i else i + 1);
    } else {
      forall i, j, a: Address | 0 <= i < j < |r|
        ensures !(Contains(r[i].range, a) && Contains(r[j].range, a))
      {
        InsertAt(es, e, at, i);
        InsertAt(es, e, at, j);
        if i == at {
          EqualIffOverlapping(e.range, es[j - 1].range);
        } else if j == at {
          EqualIffOverlapping(e.range, es[i].range);
        }
      }
    }
  }

  lemma InsertSize(es: seq<Entry>, e: Entry, at: nat)
    requires at <= |es|
    ensures |Insert(es, e, at)| == |es| + 1
  {
  }

  /** On every tree the store is disjoint after the insertion. */
  ghost predicate StaysDisjoint(es: seq<Entry>, e: Entry) {
    forall found, at: nat :: MayEnd(es, e.range, 0, |es|, found, at) ==> Disjoint(Stored(es, e, found, at))
  }

  /** Insertion without overwrite keeps a store disjoint on every tree if and only if the new range
      overlaps none of the old ones or there is no gap for its search to end in. */
  lemma StaysDisjointIff(es: seq<Entry>, e: Entry)
    requires Disjoint(es)
    ensures StaysDisjoint(es, e) <==> !Overlaps(es, e) || forall at: nat :: !Gap(es, e.range, at)
  {
    hide Disjoint, MayEnd, Overlaps, Gap;
    forall found, at: nat
      ensures MayEnd(es, e.range, 0, |es|, found, at) && !found <==> !found && Gap(es, e.range, at)
      ensures at <= |es| ==> (Disjoint(Insert(es, e, at)) <==> !Overlaps(es, e))
    {
      EndsExactly(es, e.range, found, at);
      if at <= |es| {
        InsertIsDisjointIff(es, e, at);
      }
    }
    forall at: nat | Gap(es, e.range, at)
      ensures at <= |es| && MayEnd(es, e.range, 0, |es|, false, at)
    {
      EndsExactly(es, e.range, false, at);
      GapIsInside(es, e.range, at);
    }
    if !StaysDisjoint(es, e) {
    } else if at: nat :| Gap(es, e.range, at) {
      assert MayEnd(es, e.range, 0, |es|, false, at);
      assert Disjoint(Stored(es, e, false, at));
    }
  }

  lemma GapIsInside(es: seq<Entry>, key: Range, at: nat)
    requires Gap(es, key, at)
    ensures at <= |es|
  {
  }

  /** 0.0.0.10 to 0.0.0.5, which is inverted, and 0.0.0.3 to 0.0.0.8. */
  const INVERTED := Entry(Range([0, 0, 0, 10], [0, 0, 0, 5]), "a")
  const LINE := Entry(Range([0, 0, 0, 3], [0, 0, 0, 8]), "b")

  lemma LineComparesBelow()
    ensures Compare(LINE.range, INVERTED.range) == -1
    ensures Compare(Point([0, 0, 0, 7]), INVERTED.range) == 1 && Contains(LINE.range, [0, 0, 0, 7])
  {
    CompareIsNumeric(LINE.range, INVERTED.range);
    OnePoint(INVERTED.range, [0, 0, 0, 7]);
  }

  /** A file of these two lines: both are accepted, on any tree the second goes ahead of the first, and
      on a tree that compares with the inverted one first the address 0.0.0.7 is missed. */
  lemma InvertedLineMisleads()
    ensures Accepted([INVERTED, LINE]) == [INVERTED, LINE]
    ensures forall found, at: nat :: MayEnd([INVERTED], LINE.range, 0, 1, found, at) ==> !found && at == 0
    ensures Insert([INVERTED], LINE, 0) == [LINE, INVERTED]
    ensures MayEnd([LINE, INVERTED], Point([0, 0, 0, 7]), 0, 2, false, 2)
    ensures Scan([LINE, INVERTED], [0, 0, 0, 7]) == Found("b")
  {
    LineComparesBelow();
    hide Compare, Contains;
    assert [INVERTED, LINE][..1] == [INVERTED] && [INVERTED][..0] == [];
    assert Accepted([]) == [] && Accepted([INVERTED]) == [INVERTED];
    forall found, at: nat | MayEnd([INVERTED], LINE.range, 0, 1, found, at)
      ensures !found && at == 0
    {
      var mid: nat :| 0 <= mid < 1 && GoesOn([INVERTED], LINE.range, 0, 1, mid, found, at);
    }
    ScanFinds([LINE, INVERTED], [0, 0, 0, 7], 0);
    assert GoesOn([LINE, INVERTED], Point([0, 0, 0, 7]), 0, 2, 1, false, 2);
  }

  /** The one address 0.0.0.7, which lies in LINE. */
  const POINT := Entry(Range([0, 0, 0, 7], [0, 0, 0, 7]), "c")

  /** With this third line the store can hold ranges that overlap: the line is not accepted against all
      others, but on a tree that compares with the inverted one first its search ends in a gap. */
  lemma MissedLineOverlaps()
    ensures Accepted([INVERTED, LINE, POINT]) == [INVERTED, LINE]
    ensures MayEnd([LINE, INVERTED], POINT.range, 0, 2, false, 2)
    ensures Disjoint([LINE, INVERTED]) && !Disjoint(Insert([LINE, INVERTED], POINT, 2))
  {
    InvertedLineMisleads();
    LineComparesBelow();
    OnePoint(LINE.range, [0, 0, 0, 7]);
    OnePoint(POINT.range, [0, 0, 0, 7]);
    EqualIffOverlapping(LINE.range, INVERTED.range);
    hide Compare, Value;
    assert [INVERTED, LINE, POINT][..2] == [INVERTED, LINE];
    assert !Acceptable([INVERTED, LINE], POINT);
    assert !Proper(INVERTED.range) by { InvertedIsNotProper(); }
    assert Insert([LINE, INVERTED], POINT, 2) == [LINE, INVERTED, POINT];
    var a: Address := [0, 0, 0, 7];
    var r := [LINE, INVERTED, POINT];
    assert Contains(r[0].range, a) && Contains(r[2].range, a);
  }

  lemma InvertedIsNotProper()
    ensures !Proper(INVERTED.range) && forall a: Address :: !Contains(INVERTED.range, a)
  {
  }

  /** The second of two lines is put on the wrong side of the first: a proper one ends, or an inverted one
      parts the addresses, between the other's addresses. */
  predicate Misleads(first: Range, second: Range) {
    var q, p := Value(first.last), Value(first.first);
    || (!Proper(first) && Proper(second) && Value(second.first) <= q < Value(second.last) < p)
    || (Proper(first) && !Proper(second) && Value(second.last) < q < Value(second.first))
  }

  /** Of any two lines, loaded into an empty store, every address is found right on every tree if and only
      if the second does not mislead. */
  lemma TwoLinesIff(e: Entry, f: Entry)
    ensures (forall found, at: nat ::
               MayEnd([e], f.range, 0, 1, found, at) ==> FindsRight(Stored([e], f, found, at))) <==>
            !Misleads(e.range, f.range)
  {
    CompareIsNumeric(f.range, e.range);
    hide Compare, FindsRight, MayEnd, Value;
    forall found, at: nat
      ensures FindsRight(Stored([e], f, found, at)) <==> RightlyPlaced(Stored([e], f, found, at))
      ensures MayEnd([e], f.range, 0, 1, found, at) <==>
              if found then at == 0 && Compare(f.range, e.range) == 0
              else (at == 0 && Compare(f.range, e.range) == -1) || (at == 1 && Compare(f.range, e.range) == 1)
    {
      FindsRightIffPlaced(Stored([e], f, found, at));
      EndsExactly([e], f.range, found, at);
    }
    assert Stored([e], f, false, 0) == [f, e] && Stored([e], f, false, 1) == [e, f];
    TwoArePlaced(e, f);
    TwoArePlaced(f, e);
    if Compare(f.range, e.range) == 1 {
      assert MayEnd([e], f.range, 0, 1, false, 1);
    } else if Compare(f.range, e.range) == -1 {
      assert MayEnd([e], f.range, 0, 1, false, 0);
    }
  }

  lemma TwoArePlaced(e: Entry, f: Entry)
    ensures RightlyPlaced([e, f]) <==> PlacedPair(e.range, f.range)
    ensures RightlyPlaced([e])
  {
    hide PlacedPair;
    assert [e, f][0] == e && [e, f][1] == f;
  }

  class AreaStore {
    var entries: seq<Entry>

    constructor ()
      ensures entries == []
    {
      entries := [];
    }

    /** The search that the comparison drives; the entry it compares with next is up to the tree. */
    method Search(key: Range) returns (found: bool, at: nat)
      ensures MayEnd(entries, key, 0, |entries|, found, at)
    {
      hide Compare;
      var lo, hi := 0, |entries|;
      while lo < hi
        invariant 0 <= lo <= hi <= |entries|
        invariant forall found, at: nat ::
                    MayEnd(entries, key, lo, hi, found, at) ==> MayEnd(entries, key, 0, |entries|, found, at)
      {
        var mid :| lo <= mid < hi;
        var c := Compare(key, entries[mid].range);
        StepEnds(entries, key, lo, hi, mid);
        if c == 0 {
          return true, mid;
        } else if c < 0 {
          hi := mid;
        } else {
          lo := mid + 1;
        }
      }
      return false, lo;
    }

    /** db->put with DB_NOOVERWRITE, of any range. */
    method Put(e: Entry) returns (added: bool)
      modifies this
      ensures multiset(entries) == multiset(if added then old(entries) + [e] else old(entries))
      ensures !added ==> entries == old(entries)
      ensures exists found, at: nat :: MayEnd(old(entries), e.range, 0, |old(entries)|, found, at)
                && added == !found && (added ==> at <= |old(entries)| && entries == Insert(old(entries), e, at))
      ensures old(Ordered(entries)) && Proper(e.range) ==>
                Ordered(entries) && (added <==> Acceptable(old(entries), e))
    {
      hide Compare, Ordered, MayEnd;
      var found, at := Search(e.range);
      EndIsInside(entries, e.range, 0, |entries|, found, at);
      if Ordered(entries) && Proper(e.range) {
        OrderedEnd(entries, e.range, 0, |entries|, found, at);
      }
      if found {
        return false;
      }
      if Ordered(entries) && Proper(e.range) {
        InsertKeepsOrder(entries, e, at);
      }
      InsertKeepsAll(entries, e, at);
      entries := entries[..at] + [e] + entries[at..];
      return true;
    }

    /** The insertion loop of ReadIpArea, on the lines that could be parsed. Of any file, the store holds
        lines of it; of a file of proper ranges, exactly the accepted ones, in order. */
    method ReadIpArea(lines: seq<Entry>)
      requires entries == []
      modifies this
      ensures forall e :: e in entries ==> e in lines
      ensures AllProper(lines) ==> Ordered(entries) && multiset(entries) == multiset(Accepted(lines))
    {
      hide Ordered, MayEnd, Acceptable, Insert;
      assert lines[..0] == [];
      assert Ordered(entries) by { NoneIsOrdered(); }
      for k := 0 to |lines|
        invariant forall e :: e in entries ==> e in lines
        invariant AllProper(lines) ==> Ordered(entries) && multiset(entries) == multiset(Accepted(lines[..k]))
      {
        assert lines[..k + 1][..k] == lines[..k];
        ghost var before := entries;
        var added := Put(lines[k]);
        SameMembers(entries, if added then before + [lines[k]] else before);
        if AllProper(lines) {
          SameAcceptance(before, Accepted(lines[..k]), lines[k]);
        }
      }
      assert lines[..|lines|] == lines;
    }

    /** Finding the area of an address: the key is the one-point range. Whatever is stored, a found area
        is that of a range that contains the address. */
    method Find(a: Address) returns (r: Lookup)
      ensures r.Found? ==> exists e :: e in entries && e.area == r.area && Contains(e.range, a)
      ensures RightlyPlaced(entries) ==> r == Scan(entries, a)
    {
      hide Compare, Contains, MayEnd, RightlyPlaced, Disjoint;
      var found, at := Search(Point(a));
      EndIsInside(entries, Point(a), 0, |entries|, found, at);
      if RightlyPlaced(entries) {
        PlacedSearch(entries, a, found, at);
      }
      if found {
        OnePoint(entries[at].range, a);
        assert entries[at] in entries;
        return Found(entries[at].area);
      }
      return Missing;
    }
  }

  lemma StepEnds(es: seq<Entry>, key: Range, lo: nat, hi: nat, mid: nat)
    requires lo <= mid < hi <= |es|
    ensures forall found, at: nat :: GoesOn(es, key, lo, hi, mid, found, at) ==> MayEnd(es, key, lo, hi, found, at)
  {
  }

  predicate AllProper(lines: seq<Entry>) {
    forall k :: 0 <= k < |lines| ==> Proper(lines[k].range)
  }

  lemma NoneIsOrdered()
    ensures Ordered([])
  {
  }

  lemma SameMembers(es: seq<Entry>, fs: seq<Entry>)
    requires multiset(es) == multiset(fs)
    ensures forall x :: x in es <==> x in fs
  {
    forall x
      ensures x in es <==> x in fs
    {
      assert x in multiset(es) <==> x in multiset(fs);
    }
  }

  lemma SameAcceptance(es: seq<Entry>, fs: seq<Entry>, e: Entry)
    requires multiset(es) == multiset(fs)
    ensures Acceptable(es, e) <==> Acceptable(fs, e)
  {
    SameMembers(es, fs);
    if Acceptable(es, e) {
      forall i | 0 <= i < |fs|
        ensures Compare(e.range, fs[i].range) != 0
      {
        assert fs[i] in es;
      }
    }
    if Acceptable(fs, e) {
      forall i | 0 <= i < |es|
        ensures Compare(e.range, es[i].range) != 0
      {
        assert es[i] in fs;
      }
    }
  }

  /** Loading a file and searching an address: of any file, a found area is that of a line whose range
      contains the address; of a file of proper ranges, it is what a scan of the accepted lines gives. */
  method LoadAndFind(lines: seq<Entry>, a: Address) returns (r: Lookup)
    ensures r.Found? ==> exists e :: e in lines && e.area == r.area && Contains(e.range, a)
    ensures AllProper(lines) ==> r == Scan(Accepted(lines), a)
  {
    hide Contains, Ordered, Disjoint, RightlyPlaced;
    var store := new AreaStore();
    store.ReadIpArea(lines);
    if AllProper(lines) {
      OrderedIsPlaced(store.entries);
      AcceptedIsDisjoint(lines);
      ScanIgnoresOrder(store.entries, Accepted(lines), a);
    }
    r := store.Find(a);
  }

  /** Lines that differ from all those accepted before them are disjoint. Of a file with an inverted line
      the store can hold others: see MissedLineOverlaps. */
  lemma {:induction false} AcceptedIsDisjoint(lines: seq<Entry>)
    ensures Disjoint(Accepted(lines))
    decreases |lines|
  {
    hide Compare, Value;
    if lines != [] {
      var before, e := Accepted(lines[..|lines| - 1]), lines[|lines| - 1];
      AcceptedIsDisjoint(lines[..|lines| - 1]);
      forall i, a: Address | 0 <= i < |before| && Acceptable(before, e)
        ensures !(Contains(before[i].range, a) && Contains(e.range, a))
      {
        CompareIsNumeric(e.range, before[i].range);
      }
    }
  }
}
