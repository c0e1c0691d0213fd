/** dw_line_wrap and dw_replace of service/faceside/src/dwstring.cpp, and what wrapping means for
    Base64 bodies. */
module DwString {
  import opened Bytes
  import opened Base64Text
  import opened Streams
  import NgxBase64
  import D = Base64Decoder
  import Base64RoundTrip

  /** Parts with a separator between them. */
  function Join(parts: seq<seq<byte>>, sep: seq<byte>): seq<byte> {
    if parts == [] then []
    else if |parts| == 1 then parts[0]
    else parts[0] + sep + Join(parts[1..], sep)
  }

  // ---- Wrapping ----

  /** The lines of a text: full ones and, unless the text is empty, a last one of at least one character. */
  function Lines(text: seq<byte>, pos: nat): seq<seq<byte>>
    requires pos > 0
    decreases |text|
  {
    if |text| <= pos then [text] else [text[..pos]] + Lines(text[pos..], pos)
  }

  /** Every line is full except the last, which is not longer, and not empty unless the text is; the
      lines are the text. */
  lemma {:induction false} LinesAreFull(text: seq<byte>, pos: nat)
    requires pos > 0
    ensures var ls := Lines(text, pos);
            && |ls| >= 1 && Flatten(ls) == text
            && (forall k :: 0 <= k < |ls| - 1 ==> |ls[k]| == pos)
            && |ls[|ls| - 1]| <= pos && (text != [] ==> |ls[|ls| - 1]| >= 1)
    decreases |text|
  {
    if |text| <= pos {
      assert Flatten([text]) == text + Flatten([]);
    } else {
      LinesAreFull(text[pos..], pos);
      var rest := Lines(text[pos..], pos);
      var ls := [text[..pos]] + rest;
      assert ls[1..] == rest;
      assert text[..pos] + text[pos..] == text;
    }
  }

  /** dw_line_wrap's result: nothing happens without a separator or a positive width. */
  function Wrapped(text: seq<byte>, pos: int, sep: seq<byte>): seq<byte> {
    if sep == [] || pos < 1 then text else Join(Lines(text, pos), sep)
  }

  /** Taking the separators out where they were put. */
  function Unwrapped(text: seq<byte>, pos: nat, sepLen: nat): seq<byte>
    requires pos > 0
    decreases |text|
  {
    if |text| < pos + sepLen then text else text[..pos] + Unwrapped(text[pos + sepLen..], pos, sepLen)
  }

  lemma WrapStep(text: seq<byte>, pos: nat, sep: seq<byte>)
    requires pos > 0
    ensures Join(Lines(text, pos), sep) ==
            if |text| <= pos then text else text[..pos] + sep + Join(Lines(text[pos..], pos), sep)
  {
    if |text| > pos {
      var rest := Lines(text[pos..], pos);
      assert ([text[..pos]] + rest)[1..] == rest;
    }
  }

  lemma UnwrapLine(line: seq<byte>, sep: seq<byte>, rest: seq<byte>)
    requires line != []
    ensures Unwrapped(line + sep + rest, |line|, |sep|) == line + Unwrapped(rest, |line|, |sep|)
  {
    var w := line + sep + rest;
    assert w[..|line|] == line && w[|line| + |sep|..] == rest;
  }

  /** Removing the inserted separators restores the text, whatever the separator. */
  lemma {:induction false} UnwrapUndoesWrap(text: seq<byte>, pos: nat, sep: seq<byte>)
    requires pos > 0 && sep != []
    ensures Unwrapped(Wrapped(text, pos, sep), pos, |sep|) == text
    decreases |text|
  {
    WrappedStep(text, pos, sep);
    hide Wrapped;
    if |text| > pos {
      hide Unwrapped;
      UnwrapUndoesWrap(text[pos..], pos, sep);
      UnwrapLine(text[..pos], sep, Wrapped(text[pos..], pos, sep));
      assert text[..pos] + text[pos..] == text;
    }
  }

  lemma WrappedStep(text: seq<byte>, pos: nat, sep: seq<byte>)
    requires pos > 0 && sep != []
    ensures Wrapped(text, pos, sep) ==
            if |text| <= pos then text else text[..pos] + sep + Wrapped(text[pos..], pos, sep)
  {
    hide Lines, Join;
    WrapStep(text, pos, sep);
  }

  lemma InsertAfter<T>(done: seq<T>, line: seq<T>, after: seq<T>, sep: seq<T>)
    ensures var r, at := done + (line + after), |done| + |line|;
            r[..at] + sep + r[at..] == done + line + sep + after
  {
    var r, at := done + (line + after), |done| + |line|;
    assert r[..at] == done + line && r[at..] == after;
  }

  lemma Grouped<T>(a: seq<T>, b: seq<T>, c: seq<T>, d: seq<T>)
    ensures a + b + c + d == a + (b + c + d)
  {
  }

  /** dw_line_wrap. */
  method LineWrap(text: seq<byte>, pos: int, sep: seq<byte>) returns (r: seq<byte>)
    ensures r == Wrapped(text, pos, sep)
  {
    hide Lines, Join;
    r := text;
    if sep == [] || pos < 1 {
      return;
    }
    var offset := 0;
    ghost var done: seq<byte>, rest := [], text;
    while offset + pos < |r|
      invariant offset == |done| && r == done + rest
      invariant Wrapped(text, pos, sep) == done + Join(Lines(rest, pos), sep)
      decreases |rest|
    {
      WrapStep(rest, pos, sep);
      ghost var line, after := rest[..pos], rest[pos..];
      assert rest == line + after;
      InsertAfter(done, line, after, sep);
      r := r[..offset + pos] + sep + r[offset + pos..];
      Grouped(done, line, sep, Join(Lines(after, pos), sep));
      done := done + line + sep;
      rest := after;
      offset := offset + pos + |sep|;
    }
    WrapStep(rest, pos, sep);
  }

  // ---- Wrapped Base64 bodies ----

  const CRLF: seq<byte> := [CR, LF]

  lemma StripLine(line: seq<byte>, rest: seq<byte>)
    requires forall i :: 0 <= i < |line| ==> line[i] != LF && line[i] != CR
    ensures Strip(line + CRLF + rest) == line + Strip(rest)
  {
    hide Strip;
    StripNothing(line);
    StripCrLf();
    StripConcat(line, CRLF);
    StripConcat(line + CRLF, rest);
    assert line + [] == line;
  }

  lemma {:induction false} StripWrapped(text: seq<byte>, pos: nat)
    requires pos > 0 && forall i :: 0 <= i < |text| ==> text[i] != LF && text[i] != CR
    ensures Strip(Wrapped(text, pos, CRLF)) == text
    decreases |text|
  {
    hide Lines, Join, Strip, Wrapped;
    WrappedStep(text, pos, CRLF);
    if |text| <= pos {
      StripNothing(text);
    } else {
      StripWrapped(text[pos..], pos);
      StripLine(text[..pos], Wrapped(text[pos..], pos, CRLF));
      assert text[..pos] + text[pos..] == text;
    }
  }

  lemma StripCrLf()
    ensures Strip(CRLF) == []
  {
    StripConcat([CR], [LF]);
    assert [CR] + [LF] == CRLF;
    assert [CR][1..] == [] && [LF][1..] == [];
  }

  lemma EncodedHasNoEol(x: seq<byte>)
    ensures forall i :: 0 <= i < |Encoded(x)| ==> Encoded(x)[i] != LF && Encoded(x)[i] != CR
  {
    CharsAreNotEol(x);
    hide Chars, Padding;
    forall i | 0 <= i < |Encoded(x)|
      ensures Encoded(x)[i] != LF && Encoded(x)[i] != CR
    {
      PaddingIsPads(|x|);
      if i >= |Chars(x)| {
        assert Encoded(x)[i] == Padding(|x|)[i - |Chars(x)|];
      }
    }
  }

  lemma PaddingIsPads(n: nat)
    ensures forall i :: 0 <= i < |Padding(n)| ==> Padding(n)[i] == PAD
  {
  }

  /** A body that is encoded and wrapped with CRLF comes back by either decoder: by the whole-buffer
      one once the line ends are removed, and by the streaming one as it is, in any calls. */
  lemma WrappedBodyDecodes(x: seq<byte>, pos: nat, calls: seq<Call>)
    requires pos > 0
    ensures var body := Wrapped(Encoded(x), pos, CRLF);
            && NgxBase64.Decode(Strip(body)) == NgxBase64.Ok(x)
            && var d := Session(D.DECODER, D.START, body, 0, calls);
               (d.pos == |body| || d.state.state.Done? ==> d.out == x && !d.state.error)
  {
    hide Encoded, Wrapped, Strip, Session, NgxBase64.Decode;
    EncodedHasNoEol(x);
    StripWrapped(Encoded(x), pos);
    NgxBase64.RoundTrip(x);
    Base64RoundTrip.DecodesInAnyCalls(x, Wrapped(Encoded(x), pos, CRLF), calls);
  }

  // ---- Replacing ----

  /** std::string::find from the start: the first occurrence of `pat`, or -1. */
  function FirstIn(text: seq<byte>, pat: seq<byte>): (k: int)
    ensures -1 <= k && (k >= 0 ==> k + |pat| <= |text| && text[k..k + |pat|] == pat)
    decreases |text|
  {
    if |text| < |pat| then -1
    else if text[..|pat|] == pat then 0
    else
      var k := FirstIn(text[1..], pat);
      if k < 0 then -1 else assert text[1..][k..k + |pat|] == text[k + 1..k + 1 + |pat|]; k + 1
  }

  /** No occurrence comes before the one found, and none exists if none is found. */
  lemma {:induction false} FirstInIsFirst(text: seq<byte>, pat: seq<byte>, j: nat)
    requires OccursAt(text, pat, j)
    ensures 0 <= FirstIn(text, pat) <= j
    decreases |text|
  {
    if text[..|pat|] != pat {
      assert j > 0;
      assert text[1..][j - 1..j - 1 + |pat|] == text[j..j + |pat|];
      FirstInIsFirst(text[1..], pat, j - 1);
    }
  }

  /** The parts of a text between the occurrences of `pat`, taken from the left and not overlapping. */
  function Parts(text: seq<byte>, pat: seq<byte>): (ps: seq<seq<byte>>)
    requires pat != []
    ensures |ps| >= 1
    decreases |text|
  {
    var k := FirstIn(text, pat);
    if k < 0 then [text] else [text[..k]] + Parts(text[k + |pat|..], pat)
  }

  lemma JoinStep(p: seq<byte>, ps: seq<seq<byte>>, sep: seq<byte>)
    requires ps != []
    ensures Join([p] + ps, sep) == p + sep + Join(ps, sep)
  {
    assert ([p] + ps)[1..] == ps;
  }

  /** The parts with `pat` between them are the text. */
  lemma {:induction false} PartsAreText(text: seq<byte>, pat: seq<byte>)
    requires pat != []
    ensures Join(Parts(text, pat), pat) == text
    decreases |text|
  {
    var k := FirstIn(text, pat);
    if k >= 0 {
      PartsAreText(text[k + |pat|..], pat);
      JoinStep(text[..k], Parts(text[k + |pat|..], pat), pat);
      assert text == text[..k] + text[k..k + |pat|] + text[k + |pat|..];
    }
  }

  /** And the pattern occurs in none of them. */
  lemma {:induction false} PartsLackPattern(text: seq<byte>, pat: seq<byte>, i: nat, at: nat)
    requires pat != [] && i < |Parts(text, pat)|
    ensures !OccursAt(Parts(text, pat)[i], pat, at)
    decreases |text|
  {
    var k := FirstIn(text, pat);
    if k < 0 {
      if OccursAt(text, pat, at) {
        FirstInIsFirst(text, pat, at);
      }
    } else if i > 0 {
      PartsLackPattern(text[k + |pat|..], pat, i - 1, at);
    } else if OccursAt(text[..k], pat, at) {
      assert text[..k][at..at + |pat|] == text[at..at + |pat|];
      FirstInIsFirst(text, pat, at);
    }
  }

  // ---- The loop of dw_replace, for every pattern ----

  datatype Replacing = Running | Replaced(num: nat, text: seq<byte>)

  /** The loop from `offset` on, for at most `fuel` passes. */
  function ReplaceLoop(text: seq<byte>, pat: seq<byte>, by_: seq<byte>, offset: nat, num: nat, fuel: nat): Replacing
    requires offset <= |text|
    decreases fuel
  {
    if offset == |text| then Replaced(num, text)
    else
      var k := FirstIn(text[offset..], pat);
      if k < 0 then Replaced(num, text)
      else if fuel == 0 then Running
      else
        var at := offset + k;
        ReplaceLoop(text[..at] + by_ + text[at + |pat|..], pat, by_, at + |by_|, num + 1, fuel - 1)
  }

  ghost predicate ReplaceEnds(text: seq<byte>, pat: seq<byte>, by_: seq<byte>) {
    exists fuel: nat :: ReplaceLoop(text, pat, by_, 0, 0, fuel).Replaced?
  }

  /** One pass of the loop, over what is done and the rest. */
  lemma LoopStep(done: seq<byte>, rest: seq<byte>, pat: seq<byte>, by_: seq<byte>, num: nat, fuel: nat)
    ensures var k := FirstIn(rest, pat);
            ReplaceLoop(done + rest, pat, by_, |done|, num, fuel) ==
            if rest == [] || k < 0 then Replaced(num, done + rest)
            else if fuel == 0 then Running
            else
              var next := done + rest[..k] + by_;
              ReplaceLoop(next + rest[k + |pat|..], pat, by_, |next|, num + 1, fuel - 1)
  {
    hide FirstIn;
    var k := FirstIn(rest, pat);
    assert (done + rest)[|done|..] == rest;
    if k >= 0 {
      CutAt(done, rest, k, |pat|);
    }
  }

  /** With a pattern the loop ends, with the rest replaced part by part. */
  lemma {:induction false} LoopReplaces(done: seq<byte>, rest: seq<byte>, pat: seq<byte>, by_: seq<byte>, num: nat,
                                        fuel: nat)
    requires pat != []
    ensures var r := ReplaceLoop(done + rest, pat, by_, |done|, num, fuel);
            && (fuel >= |rest| ==> r.Replaced?)
            && (r.Replaced? ==> r == Replaced(num + |Parts(rest, pat)| - 1, done + Join(Parts(rest, pat), by_)))
    decreases fuel
  {
    hide FirstIn, Parts, Join, ReplaceLoop;
    LoopStep(done, rest, pat, by_, num, fuel);
    NextPart(rest, pat, by_);
    NothingInEmpty(pat);
    var k := FirstIn(rest, pat);
    if k >= 0 && fuel > 0 {
      var next, after := done + rest[..k] + by_, rest[k + |pat|..];
      LoopReplaces(next, after, pat, by_, num + 1, fuel - 1);
      Grouped(done, rest[..k], by_, Join(Parts(after, pat), by_));
    }
  }

  /** An empty pattern is found at once wherever the loop is, and what is left of the text stays. */
  lemma {:induction false} EmptyPatternRuns(text: seq<byte>, by_: seq<byte>, offset: nat, num: nat, fuel: nat)
    requires offset < |text|
    ensures ReplaceLoop(text, [], by_, offset, num, fuel) == Running
    decreases fuel
  {
    assert text[offset..][..0] == [];
    assert FirstIn(text[offset..], []) == 0;
    if fuel > 0 {
      EmptyPatternRuns(text[..offset] + by_ + text[offset..], by_, offset + |by_|, num + 1, fuel - 1);
    }
  }

  /** dw_replace ends if and only if it has a pattern or no text. */
  lemma ReplaceEndsIff(text: seq<byte>, pat: seq<byte>, by_: seq<byte>)
    ensures ReplaceEnds(text, pat, by_) <==> pat != [] || text == []
  {
    hide FirstIn, Parts, Join;
    if text == [] {
      assert ReplaceLoop(text, pat, by_, 0, 0, 0).Replaced?;
    } else if pat != [] {
      LoopReplaces([], text, pat, by_, 0, |text|);
      assert [] + text == text;
    } else {
      forall fuel: nat
        ensures !ReplaceLoop(text, pat, by_, 0, 0, fuel).Replaced?
      {
        EmptyPatternRuns(text, by_, 0, 0, fuel);
      }
    }
  }

  /** dw_replace: the number of replacements and the text in which every occurrence of `pat`, from the
      left, has given way to `by_`. What is put in is not searched again. ReplaceEndsIff says that the
      loop of the source ends for no other arguments than these. */
  method Replace(text: seq<byte>, pat: seq<byte>, by_: seq<byte>) returns (num: nat, r: seq<byte>)
    requires pat != [] || text == []
    ensures text == [] ==> num == 0 && r == text
    ensures text != [] ==> r == Join(Parts(text, pat), by_) && num == |Parts(text, pat)| - 1
  {
    hide Join, Parts, FirstIn;
    num, r := 0, text;
    if |text| < 1 {
      return;
    }
    var offset := 0;
    ghost var done: seq<byte>, rest := [], text;
    while offset < |r|
      invariant offset == |done| && r == done + rest
      invariant Join(Parts(text, pat), by_) == done + Join(Parts(rest, pat), by_)
      invariant |Parts(text, pat)| == num + |Parts(rest, pat)|
      decreases |rest|
    {
      assert r[offset..] == rest;
      var found := FirstIn(r[offset..], pat);
      NextPart(rest, pat, by_);
      if found < 0 {
        break;
      }
      var idx := offset + found;
      ghost var part, after := rest[..found], rest[found + |pat|..];
      CutAt(done, rest, found, |pat|);
      r := Exchange(r, idx, |pat|, by_);
      Grouped(done, part, by_, Join(Parts(after, pat), by_));
      done := done + part + by_;
      rest := after;
      offset := idx + |by_|;
      num := num + 1;
    }
    if rest == [] {
      assert FirstIn([], pat) < 0 by { NothingInEmpty(pat); }
    }
    NextPart(rest, pat, by_);
  }

  /** string::erase and string::insert at one place. */
  method Exchange(text: seq<byte>, idx: nat, len: nat, by_: seq<byte>) returns (r: seq<byte>)
    requires idx + len <= |text|
    ensures r == text[..idx] + by_ + text[idx + len..]
  {
    r := text[..idx] + text[idx + len..];
    assert r[..idx] == text[..idx] && r[idx..] == text[idx + len..];
    r := r[..idx] + by_ + r[idx..];
  }

  lemma CutAt<T>(done: seq<T>, rest: seq<T>, k: nat, n: nat)
    requires k + n <= |rest|
    ensures (done + rest)[..|done| + k] == done + rest[..k]
    ensures (done + rest)[|done| + k + n..] == rest[k + n..]
  {
  }

  lemma NothingInEmpty(pat: seq<byte>)
    requires pat != []
    ensures FirstIn([], pat) < 0
  {
  }

  lemma NextPart(rest: seq<byte>, pat: seq<byte>, by_: seq<byte>)
    requires pat != []
    ensures var k := FirstIn(rest, pat);
            if k < 0 then Parts(rest, pat) == [rest] && Join(Parts(rest, pat), by_) == rest
            else var after := rest[k + |pat|..];
                 && Join(Parts(rest, pat), by_) == rest[..k] + by_ + Join(Parts(after, pat), by_)
                 && |Parts(rest, pat)| == 1 + |Parts(after, pat)|
  {
    hide FirstIn, Join;
    var k := FirstIn(rest, pat);
    if k >= 0 {
      JoinStep(rest[..k], Parts(rest[k + |pat|..], pat), by_);
    } else {
      JoinOne(rest, by_);
    }
  }

  lemma JoinOne(p: seq<byte>, sep: seq<byte>)
    ensures Join([p], sep) == p
  {
  }
}
