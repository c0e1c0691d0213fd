/** The Boyer-Moore-Horspool search of service/cpplib/mimepp/src/boyermor.cpp. */
module BoyerMoore {
  import opened Bytes

  /** The distance from the last position before the end at which `pat` holds `c` to the end, counting
      positions below `n`; the whole length where there is none. */
  function Skip(pat: seq<byte>, n: nat, c: byte): (k: nat)
    requires n < |pat|
    ensures 1 <= k <= |pat|
    ensures k < |pat| ==> pat[|pat| - 1 - k] == c
    ensures forall j :: |pat| - k <= j < n ==> pat[j] != c
  {
    if n == 0 then |pat|
    else if pat[n - 1] == c then |pat| - n
    else Skip(pat, n - 1, c)
  }

  /** No skip jumps over a match: where the text shows `c` under the end of the pattern, the next
      match can end no earlier than the skip of `c` further on. */
  lemma SkipIsSafe(text: seq<byte>, pat: seq<byte>, end: nat, at: nat)
    requires pat != [] && end < |text| && OccursAt(text, pat, at)
    requires end < at + |pat| - 1
    ensures at + |pat| - 1 >= end + Skip(pat, |pat| - 1, text[end])
  {
    var j := end - at;
    if j >= 0 {
      assert text[at..at + |pat|][j] == text[end];
      assert pat[j] == text[end];
    }
  }

  lemma NoneSkipped(text: seq<byte>, pat: seq<byte>, end: nat)
    requires pat != [] && |pat| - 1 <= end < |text|
    ensures forall at: nat :: end - |pat| + 1 < at < end - |pat| + 1 + Skip(pat, |pat| - 1, text[end]) ==>
                                !OccursAt(text, pat, at)
  {
    forall at: nat | end - |pat| + 1 < at < end - |pat| + 1 + Skip(pat, |pat| - 1, text[end])
      ensures !OccursAt(text, pat, at)
    {
      if OccursAt(text, pat, at) {
        SkipIsSafe(text, pat, end, at);
      }
    }
  }

  /** The pattern and the text at `at` agree from position `j` of the pattern on. */
  predicate MatchesFrom(text: seq<byte>, pat: seq<byte>, at: nat, j: nat) {
    at + |pat| <= |text| && j <= |pat| && text[at + j..at + |pat|] == pat[j..]
  }

  lemma MatchesMore(text: seq<byte>, pat: seq<byte>, at: nat, j: nat)
    requires MatchesFrom(text, pat, at, j + 1) && text[at + j] == pat[j]
    ensures MatchesFrom(text, pat, at, j)
  {
    assert text[at + j..at + |pat|] == [text[at + j]] + text[at + j + 1..at + |pat|];
    assert pat[j..] == [pat[j]] + pat[j + 1..];
  }

  lemma MatchesAll(text: seq<byte>, pat: seq<byte>, at: nat)
    requires MatchesFrom(text, pat, at, 0)
    ensures OccursAt(text, pat, at)
  {
  }

  lemma Mismatch(text: seq<byte>, pat: seq<byte>, at: nat, j: nat)
    requires at + |pat| <= |text| && j < |pat| && text[at + j] != pat[j]
    ensures !OccursAt(text, pat, at)
  {
    assert text[at..at + |pat|][j] == text[at + j];
  }

  /** What strncpy leaves of a pattern: it stops at a zero byte and fills up with zeros. */
  function Copied(p: seq<byte>): (r: seq<byte>)
    ensures |r| == |p|
  {
    seq(|p|, k requires 0 <= k < |p| => if 0 in p[..k] then 0 else p[k])
  }

  /** The copy is the pattern if and only if nothing but zeros stands behind a zero. */
  lemma CopiedIsSameIff(p: seq<byte>)
    ensures Copied(p) == p <==> forall j, k :: 0 <= j < k < |p| && p[j] == 0 ==> p[k] == 0
  {
    if forall j, k :: 0 <= j < k < |p| && p[j] == 0 ==> p[k] == 0 {
      assert forall k :: 0 <= k < |p| ==> Copied(p)[k] == p[k];
    } else {
      var j, k :| 0 <= j < k < |p| && p[j] == 0 && p[k] != 0;
      assert p[..k][j] == 0;
      assert Copied(p)[k] == 0;
    }
  }

  /** `(unsigned)` of a character of the pattern: characters are signed, so from 128 on it is far outside
      the table. */
  function TableIndex(c: byte): nat {
    if c < 128 then c else c - 256 + TWO32
  }

  /** The patterns whose table can be built: the loop indexes it with all characters but the last. */
  predicate Assignable(p: seq<byte>) {
    p != [] && forall i :: 0 <= i < |p| - 1 ==> TableIndex(Copied(p)[i]) < 256
  }

  /** The skip amount of a character as the table holds it, in an unsigned char. */
  function Stored(pat: seq<byte>, c: byte): byte
    requires pat != []
  {
    Skip(pat, |pat| - 1, c) % 256
  }

  predicate Table(skips: seq<byte>, pat: seq<byte>)
    requires |skips| == 256 && pat != []
  {
    forall c: byte :: skips[c] == Stored(pat, c)
  }

  lemma TableEntry(skips: seq<byte>, pat: seq<byte>, c: byte)
    requires |skips| == 256 && pat != [] && Table(skips, pat)
    ensures skips[c] == Stored(pat, c) <= Skip(pat, |pat| - 1, c)
  {
  }

  // ---- Long patterns ----

  /** No skip amount is stored as zero. */
  predicate Usable(pat: seq<byte>)
    requires pat != []
  {
    forall c: byte :: Stored(pat, c) != 0
  }

  /** A pattern of up to 255 bytes is usable. */
  lemma ShortIsUsable(pat: seq<byte>)
    requires 1 <= |pat| < 256
    ensures Usable(pat)
  {
  }

  /** The outer loop of FindIn, with the pattern under `at`, has ended after at most `fuel` passes. */
  predicate EndsWithin(buf: seq<byte>, pat: seq<byte>, at: nat, fuel: nat)
    requires pat != []
    decreases fuel
  {
    var i := at + |pat| - 1;
    || i >= |buf|
    || OccursAt(buf, pat, at)
    || (fuel > 0 && EndsWithin(buf, pat, at + Stored(pat, buf[i]), fuel - 1))
  }

  ghost predicate Ends(buf: seq<byte>, pat: seq<byte>)
    requires pat != []
  {
    exists fuel: nat :: EndsWithin(buf, pat, 0, fuel)
  }

  lemma {:induction false} UsableEnds(buf: seq<byte>, pat: seq<byte>, at: nat, fuel: nat)
    requires pat != [] && Usable(pat) && at + fuel >= |buf|
    ensures EndsWithin(buf, pat, at, fuel)
    decreases fuel
  {
    hide OccursAt, Stored;
    var i := at + |pat| - 1;
    if i < |buf| {
      assert Stored(pat, buf[i]) >= 1;
      UsableEnds(buf, pat, at + Stored(pat, buf[i]), fuel - 1);
    }
  }

  lemma {:induction false} StaysForever(buf: seq<byte>, pat: seq<byte>, at: nat, fuel: nat)
    requires pat != [] && at + |pat| <= |buf| && Stored(pat, buf[at + |pat| - 1]) == 0 && !OccursAt(buf, pat, at)
    ensures !EndsWithin(buf, pat, at, fuel)
    decreases fuel
  {
    hide OccursAt, Stored;
    if fuel > 0 {
      StaysForever(buf, pat, at, fuel - 1);
    }
  }

  /** A text of the pattern's length that ends in `c` and is not the pattern. */
  lemma OtherText(pat: seq<byte>, c: byte) returns (buf: seq<byte>)
    requires |pat| >= 2
    ensures |buf| == |pat| && buf[|pat| - 1] == c && !OccursAt(buf, pat, 0)
  {
    var x: byte := if pat[0] == 0 then 1 else 0;
    buf := pat[0 := x][|pat| - 1 := c];
    assert buf[0..|pat|][0] != pat[0];
  }

  /** The search ends on every text if and only if the pattern is usable. */
  lemma EndsAlwaysIffUsable(pat: seq<byte>)
    requires pat != []
    ensures (forall buf: seq<byte> :: Ends(buf, pat)) <==> Usable(pat)
  {
    hide EndsWithin, OccursAt;
    if Usable(pat) {
      forall buf: seq<byte>
        ensures Ends(buf, pat)
      {
        UsableEnds(buf, pat, 0, |buf|);
      }
    } else {
      var c: byte :| Stored(pat, c) == 0;
      assert Skip(pat, |pat| - 1, c) >= 256;
      var buf := OtherText(pat, c);
      forall fuel: nat
        ensures !EndsWithin(buf, pat, 0, fuel)
      {
        StaysForever(buf, pat, 0, fuel);
      }
      assert !Ends(buf, pat);
    }
  }

  lemma FuelOf(buf: seq<byte>, pat: seq<byte>) returns (fuel: nat)
    requires pat != [] && Ends(buf, pat)
    ensures EndsWithin(buf, pat, 0, fuel)
  {
    hide EndsWithin;
    fuel :| EndsWithin(buf, pat, 0, fuel);
  }

  lemma GoesOn(buf: seq<byte>, pat: seq<byte>, at: nat, fuel: nat) returns (less: nat)
    requires pat != [] && EndsWithin(buf, pat, at, fuel)
    requires at + |pat| <= |buf| && !OccursAt(buf, pat, at)
    ensures less < fuel && EndsWithin(buf, pat, at + Stored(pat, buf[at + |pat| - 1]), less)
  {
    hide OccursAt, Stored;
    less := fuel - 1;
  }

  lemma InRest(text: seq<byte>, pat: seq<byte>, from: nat, at: nat)
    requires from <= |text|
    ensures OccursAt(text[from..], pat, at) <==> OccursAt(text, pat, from + at)
  {
    if from + at + |pat| <= |text| {
      assert text[from..][at..at + |pat|] == text[from + at..from + at + |pat|];
    }
  }

  lemma NoneBeyond(text: seq<byte>, pat: seq<byte>)
    ensures forall at: nat :: at + |pat| > |text| ==> !OccursAt(text, pat, at)
  {
  }

  class Searcher {
    var patLen: nat
    var pat: array<byte>
    const skipAmt: array<byte>

    ghost predicate Valid()
      reads this, pat, skipAmt
    {
      && skipAmt.Length == 256
      && (patLen > 0 ==> pat.Length == patLen + 1 && Table(skipAmt[..], pat[..patLen]))
    }

    ghost function Pattern(): seq<byte>
      requires Valid()
      reads this, pat, skipAmt
    {
      if patLen == 0 then [] else pat[..patLen]
    }

    constructor (p: seq<byte>)
      requires Assignable(p)
      ensures Valid() && Pattern() == Copied(p) && fresh(pat) && fresh(skipAmt)
    {
      patLen := 0;
      pat := new byte[1](_ => 0);
      skipAmt := new byte[256](_ => 0);
      new;
      Assign(p);
    }

    /** strncpy into the pattern. */
    method CopyPattern(p: seq<byte>)
      requires pat.Length == |p| + 1
      modifies pat
      ensures pat[..|p|] == Copied(p)
    {
      var ended := false;
      for k := 0 to |p|
        invariant ended <==> 0 in p[..k]
        invariant pat[..k] == Copied(p)[..k]
      {
        pat[k] := if ended then 0 else p[k];
        ended := ended || p[k] == 0;
        assert p[..k + 1] == p[..k] + [p[k]];
      }
      assert Copied(p)[..|p|] == Copied(p);
    }

    /** _Assign: copies the pattern and builds the table. */
    method Assign(p: seq<byte>)
      requires skipAmt.Length == 256 && Assignable(p)
      modifies this`patLen, this`pat, skipAmt
      ensures Valid() && Pattern() == Copied(p) && fresh(pat)
    {
      hide Copied, Table;
      pat := new byte[|p| + 1](_ => 0);
      patLen := |p|;
      CopyPattern(p);
      BuildTable(Copied(p));
    }

    /** The two loops of _Assign that fill the skip table. */
    method BuildTable(ghost q: seq<byte>)
      requires skipAmt.Length == 256 && skipAmt != pat && patLen == |q| > 0 && patLen < pat.Length && pat[..patLen] == q
      requires forall i :: 0 <= i < |q| - 1 ==> TableIndex(q[i]) < 256
      modifies skipAmt
      ensures Table(skipAmt[..], q)
    {
      for i := 0 to 256
        invariant forall c: byte :: c < i ==> skipAmt[c] == patLen % 256
      {
        skipAmt[i] := patLen % 256;
      }
      for i := 0 to patLen - 1
        invariant forall c: byte :: skipAmt[c] == Skip(q, i, c) % 256
      {
        assert pat[i] == q[i];
        skipAmt[TableIndex(pat[i])] := (patLen - i - 1) % 256;
      }
    }

    /** The inner loop of FindIn: compares backwards from `end`; -1 when all of the pattern matched. */
    method CompareBackwards(text: seq<byte>, end: nat) returns (iBuf: int, iPat: int)
      requires Valid() && patLen > 0 && patLen - 1 <= end < |text|
      ensures -1 <= iPat < patLen && iBuf == end - (patLen - 1 - iPat)
      ensures iPat == -1 <==> OccursAt(text, Pattern(), end + 1 - patLen)
    {
      hide Table, Skip, OccursAt;
      ghost var p, here := pat[..patLen], end + 1 - patLen;
      iBuf := end;
      iPat := patLen - 1;
      assert MatchesFrom(text, p, here, patLen);
      while iPat >= 0 && text[iBuf] == pat[iPat]
        invariant -1 <= iPat < patLen && iBuf == here + iPat
        invariant MatchesFrom(text, p, here, iPat + 1)
      {
        MatchesMore(text, p, here, iPat);
        iBuf := iBuf - 1;
        iPat := iPat - 1;
      }
      if iPat == -1 {
        MatchesAll(text, p, here);
      } else {
        Mismatch(text, p, here, iPat);
      }
    }

    /** FindIn: the first occurrence at or after `aPos`, or -1 if there is none, on every text on which
        the loop of the source ends. An unassigned pattern is found at 0 in any text that goes beyond
        `aPos`. */
    method FindIn(text: seq<byte>, aPos: nat) returns (r: int)
      requires Valid() && (patLen > 0 && aPos < |text| ==> Ends(text[aPos..], Pattern()))
      ensures patLen == 0 ==> r == if |text| <= aPos then -1 else 0
      ensures patLen > 0 && r == -1 ==> forall at: nat :: at >= aPos ==> !OccursAt(text, Pattern(), at)
      ensures patLen > 0 && r != -1 ==>
                r >= aPos && OccursAt(text, Pattern(), r) &&
                forall at: nat :: aPos <= at < r ==> !OccursAt(text, Pattern(), at)
    {
      hide OccursAt, Skip, Table, Stored, EndsWithin;
      ghost var p := Pattern();
      NoneBeyond(text, p);
      if |text| <= aPos {
        return -1;
      }
      if patLen == 0 {
        return 0;
      }
      ghost var rest := text[aPos..];
      ghost var fuel := FuelOf(rest, p);
      var bufLen := |text| - aPos;
      var i := patLen - 1;
      while i < bufLen
        invariant patLen - 1 <= i && EndsWithin(rest, p, i + 1 - patLen, fuel)
        invariant forall at: nat :: aPos <= at < aPos + i + 1 - patLen ==> !OccursAt(text, p, at)
        decreases fuel
      {
        var iBuf, iPat := CompareBackwards(text, aPos + i);
        if iPat == -1 {
          return iBuf + 1;
        }
        InRest(text, p, aPos, i + 1 - patLen);
        fuel := GoesOn(rest, p, i + 1 - patLen, fuel);
        NoneSkipped(text, p, aPos + i);
        TableEntry(skipAmt[..], p, text[aPos + i]);
        i := i + skipAmt[text[aPos + i]];
      }
      return -1;
    }
  }
}
