/** DwAppleFile of service/cpplib/mimepp/src/applfile.cpp: the AppleSingle and AppleDouble container of
    RFC 1740, Appendix A. A printer that leaves the entry offsets blank and fills them in later, and
    a parser that checks what it reads. */
module AppleFile {
  import opened Bytes

  datatype Format = AppleSingle | AppleDoubleHeader

  datatype Error = NoError | TooShort | BadMagicNumber | WrongVersion | CorruptData

  datatype Option<T> = None | Some(value: T)

  const DATA_FORK: uint32 := 1
  const RESOURCE_FORK: uint32 := 2
  const REAL_NAME: uint32 := 3
  const FILE_DATES_INFO: uint32 := 8

  /** The bytes of the header; an entry descriptor has 12. */
  const HEADER := 26

  /** Times are signed 32-bit seconds, kept here as their two's complement; this one means "no date". */
  const NO_DATE: uint32 := 0x8000_0000

  datatype Times = Times(created: uint32, modified: uint32, backedUp: uint32, accessed: uint32)

  /** What a container says about a file. */
  datatype File = File(format: Format, name: Option<seq<byte>>, times: Option<Times>,
                       resource: Option<seq<byte>>, data: Option<seq<byte>>)

  // ---- The layout ----

  datatype Entry = Entry(id: uint32, content: seq<byte>)

  /** A length or position as the file stores it, cut to 32 bits. */
  function Word(n: nat): (s: seq<byte>)
    ensures |s| == 4
  {
    BigEndian32(n % TWO32)
  }

  function Magic(format: Format): uint32 {
    if format == AppleSingle then 0x00051600 else 0x00051607
  }

  const VERSION: uint32 := 0x00020000

  function Header(format: Format, count: nat): (s: seq<byte>)
    ensures |s| == HEADER
  {
    BigEndian32(Magic(format)) + BigEndian32(VERSION) + Zeros(16) + [count / 256 % 256, count % 256]
  }

  function Descriptor(e: Entry, offset: nat): (s: seq<byte>)
    ensures |s| == 12
  {
    BigEndian32(e.id) + Word(offset) + Word(|e.content|)
  }

  /** The descriptors of entries whose contents follow each other from `offset`. */
  function Descriptors(es: seq<Entry>, offset: nat): (s: seq<byte>)
    ensures |s| == 12 * |es|
  {
    if es == [] then [] else Descriptor(es[0], offset) + Descriptors(es[1..], offset + |es[0].content|)
  }

  /** The same descriptors before their offsets are known. */
  function Blank(es: seq<Entry>): (s: seq<byte>)
    ensures |s| == 12 * |es|
  {
    if es == [] then [] else Descriptor(es[0], 0) + Blank(es[1..])
  }

  function Contents(es: seq<Entry>): seq<byte> {
    if es == [] then [] else es[0].content + Contents(es[1..])
  }

  /** Where the contents begin. */
  function Start(count: nat): nat {
    HEADER + 12 * count
  }

  function Packed(format: Format, es: seq<Entry>): (s: seq<byte>)
    ensures |s| == Start(|es|) + |Contents(es)|
  {
    Header(format, |es|) + Descriptors(es, Start(|es|)) + Contents(es)
  }

  /** Where the content of entry `k` begins when those before it are laid out from `start`. */
  function OffsetOf(es: seq<Entry>, k: nat, start: nat): (p: nat)
    requires k <= |es|
  {
    if k == 0 then start else OffsetOf(es[1..], k - 1, start + |es[0].content|)
  }

  /** The entries follow each other without gap or overlap, from `start` to the end. */
  lemma {:induction false} OffsetsTile(es: seq<Entry>, start: nat)
    ensures forall k :: 0 <= k < |es| ==> OffsetOf(es, k + 1, start) == OffsetOf(es, k, start) + |es[k].content|
    ensures OffsetOf(es, |es|, start) == start + |Contents(es)|
    ensures forall k :: 0 <= k <= |es| ==> start <= OffsetOf(es, k, start) <= start + |Contents(es)|
    decreases |es|
  {
    if es != [] {
      OffsetsTile(es[1..], start + |es[0].content|);
      forall k | 0 <= k < |es|
        ensures OffsetOf(es, k + 1, start) == OffsetOf(es, k, start) + |es[k].content|
      {
        if k > 0 {
          assert es[k] == es[1..][k - 1];
        }
      }
    }
  }

  /** Descriptor `k` and content `k` sit where they should within their sections. */
  lemma {:induction false} DescriptorInSection(es: seq<Entry>, k: nat, start: nat)
    requires k < |es|
    ensures Descriptors(es, start)[12 * k..12 * k + 12] == Descriptor(es[k], OffsetOf(es, k, start))
    decreases |es|
  {
    hide Descriptor;
    var e, rest := es[0], es[1..];
    if k > 0 {
      DescriptorInSection(rest, k - 1, start + |e.content|);
      assert rest[k - 1] == es[k];
      var i := 12 * (k - 1);
      Shifted(Descriptor(e, start), Descriptors(rest, start + |e.content|), i, i + 12);
    }
  }

  lemma {:induction false} ContentInSection(es: seq<Entry>, k: nat, start: nat)
    requires k < |es|
    ensures var p := OffsetOf(es, k, start) - start;
            0 <= p && p + |es[k].content| <= |Contents(es)| && Contents(es)[p..p + |es[k].content|] == es[k].content
    decreases |es|
  {
    var e, rest := es[0], es[1..];
    if k > 0 {
      ContentInSection(rest, k - 1, start + |e.content|);
      assert rest[k - 1] == es[k];
      var p := OffsetOf(es, k, start) - start - |e.content|;
      Shifted(e.content, Contents(rest), p, p + |es[k].content|);
    }
  }

  lemma Shifted<T>(a: seq<T>, b: seq<T>, lo: nat, hi: nat)
    requires lo <= hi <= |b|
    ensures (a + b)[|a| + lo..|a| + hi] == b[lo..hi]
  {
  }

  // ---- Packing: offsets are filled in afterwards ----

  /** The buffer when the contents of `done` are written and those of `todo` are still to come. */
  function Stage(header: seq<byte>, done: seq<Entry>, todo: seq<Entry>): (s: seq<byte>)
    requires |header| == HEADER
    ensures |s| == Start(|done| + |todo|) + |Contents(done)|
  {
    header + Descriptors(done, Start(|done| + |todo|)) + Blank(todo) + Contents(done)
  }

  lemma {:induction false} DescriptorsGrow(es: seq<Entry>, e: Entry, start: nat)
    ensures Descriptors(es + [e], start) == Descriptors(es, start) + Descriptor(e, start + |Contents(es)|)
    decreases |es|
  {
    hide Descriptor;
    if es == [] {
      assert es + [e] == [e];
      assert Descriptors([e], start) == Descriptor(e, start) + Descriptors([], start + |e.content|);
    } else {
      assert (es + [e])[1..] == es[1..] + [e];
      DescriptorsGrow(es[1..], e, start + |es[0].content|);
    }
  }

  lemma {:induction false} BlankGrows(es: seq<Entry>, e: Entry)
    ensures Blank(es + [e]) == Blank(es) + Descriptor(e, 0)
    decreases |es|
  {
    hide Descriptor;
    if es == [] {
      assert es + [e] == [e];
      assert Blank([e]) == Descriptor(e, 0) + Blank([]);
    } else {
      assert (es + [e])[1..] == es[1..] + [e];
      BlankGrows(es[1..], e);
    }
  }

  lemma {:induction false} ContentsGrow(es: seq<Entry>, e: Entry)
    ensures Contents(es + [e]) == Contents(es) + e.content
    decreases |es|
  {
    if es == [] {
      assert es + [e] == [e];
      assert Contents([e]) == e.content + Contents([]);
    } else {
      assert (es + [e])[1..] == es[1..] + [e];
      ContentsGrow(es[1..], e);
    }
  }

  lemma BlankFirst(e: Entry, rest: seq<Entry>)
    ensures Blank([e] + rest) == Descriptor(e, 0) + Blank(rest)
  {
    hide Descriptor;
    assert ([e] + rest)[1..] == rest;
  }

  /** Filling in the next offset and appending its content completes one more entry. */
  lemma StageStep(header: seq<byte>, done: seq<Entry>, e: Entry, rest: seq<Entry>)
    requires |header| == HEADER
    ensures var s := Stage(header, done, [e] + rest);
            Splice(s, Start(|done|) + 4, Word(|s|)) + e.content == Stage(header, done + [e], rest)
  {
    hide Word, BigEndian32, Descriptors, Contents, Blank, Splice;
    var start := Start(|done| + 1 + |rest|);
    DescriptorsGrow(done, e, start);
    ContentsGrow(done, e);
    BlankFirst(e, rest);
    var ds, cs, bs := Descriptors(done, start), Contents(done), Blank(rest);
    PatchLayout(header, ds, BigEndian32(e.id), Word(0), Word(|e.content|), bs, cs, Word(start + |cs|), e.content);
  }

  /** In a header, descriptors, blank descriptors and contents: the first blank is overwritten by
      `word`, its content appended. */
  lemma PatchLayout<T>(header: seq<T>, ds: seq<T>, id: seq<T>, blank: seq<T>, length: seq<T>, bs: seq<T>,
                       cs: seq<T>, word: seq<T>, content: seq<T>)
    requires |blank| == |word|
    ensures Splice(header + ds + (id + blank + length + bs) + cs, |header| + |ds| + |id|, word) + content
         == header + (ds + (id + word + length)) + bs + (cs + content)
  {
    hide Splice;
    var before, after := header + ds + id, length + bs + cs;
    assert header + ds + (id + blank + length + bs) + cs == before + blank + after;
    SpliceMiddle(before, blank, after, word);
    assert before + word + after + content == header + (ds + (id + word + length)) + bs + (cs + content);
  }

  lemma SpliceMiddle<T>(a: seq<T>, b: seq<T>, c: seq<T>, t: seq<T>)
    requires |b| == |t|
    ensures Splice(a + b + c, |a|, t) == a + t + c
  {
  }

  lemma StageBegins(header: seq<byte>, es: seq<Entry>)
    requires |header| == HEADER
    ensures Stage(header, [], es) == header + Blank(es)
  {
    assert Descriptors([], Start(|es|)) == [] && Contents([]) == [];
    hide Descriptors, Blank, Contents;
  }

  lemma StageEnds(format: Format, es: seq<Entry>)
    ensures Stage(Header(format, |es|), es, []) == Packed(format, es)
  {
    assert Blank([]) == [];
    hide Header, Descriptors, Blank, Contents;
  }

  // ---- Reading ----

  /** DwString's const operator[]: positions past the end read as zero. */
  function At(s: seq<byte>, i: nat): byte {
    if i < |s| then s[i] else 0
  }

  /** Four bytes from `i`, most significant first; the positions wrap at 32 bits. */
  function Read32(s: seq<byte>, i: nat): uint32 {
    FromBigEndian32([At(s, i % TWO32), At(s, (i + 1) % TWO32), At(s, (i + 2) % TWO32), At(s, (i + 3) % TWO32)])
  }

  /** DwString::substr, which cuts what is asked for to what there is. */
  function Substr(s: seq<byte>, pos: nat, len: nat): (r: seq<byte>)
    ensures pos >= |s| ==> r == []
    ensures pos < |s| ==> r <= s[pos..] && (|r| == len || (|r| < len && pos + |r| == |s|))
  {
    var from := if pos < |s| then pos else |s|;
    s[from..from + if len < |s| - from then len else |s| - from]
  }

  datatype Located = Located(id: uint32, offset: uint32, length: uint32)

  function DescriptorAt(s: seq<byte>, k: nat): Located {
    Located(Read32(s, Start(k)), Read32(s, Start(k) + 4), Read32(s, Start(k) + 8))
  }

  function Count(s: seq<byte>): (n: nat)
    requires |s| >= HEADER
    ensures n < 0x10000
  {
    s[24] as int * 256 + s[25] as int
  }

  /** The parser's test of one descriptor. The sum is taken in 32 bits, so it can wrap. */
  predicate Fits(s: seq<byte>, count: nat, d: Located) {
    Start(count) <= d.offset && (d.offset + d.length) % TWO32 <= |s|
  }

  /** The first descriptor from `k` on that does not fit, or `count`. */
  function FirstBad(s: seq<byte>, k: nat, count: nat): (r: nat)
    requires k <= count
    ensures k <= r <= count && (r < count ==> !Fits(s, count, DescriptorAt(s, r)))
    ensures forall j :: k <= j < r ==> Fits(s, count, DescriptorAt(s, j))
    decreases count - k
  {
    if k == count || !Fits(s, count, DescriptorAt(s, k)) then k else FirstBad(s, k + 1, count)
  }

  /** The first descriptor from `k` on with this entry id, or `count`. */
  function FirstWith(s: seq<byte>, id: uint32, k: nat, count: nat): (r: nat)
    requires k <= count
    ensures k <= r <= count && (r < count ==> DescriptorAt(s, r).id == id)
    ensures forall j :: k <= j < r ==> DescriptorAt(s, j).id != id
    decreases count - k
  {
    if k == count || DescriptorAt(s, k).id == id then k else FirstWith(s, id, k + 1, count)
  }

  predicate KnownMagic(s: seq<byte>) {
    Read32(s, 0) == Magic(AppleSingle) || Read32(s, 0) == Magic(AppleDoubleHeader)
  }

  function FormatOf(s: seq<byte>): Format {
    if Read32(s, 0) == Magic(AppleSingle) then AppleSingle else AppleDoubleHeader
  }

  /** The header is whole, and names a format and the version this code knows. */
  predicate GoodHeader(s: seq<byte>) {
    |s| >= HEADER && KnownMagic(s) && Read32(s, 4) == VERSION
  }

  /** How many descriptors the parser accepts before it stops. */
  function Accepted(s: seq<byte>): nat {
    if GoodHeader(s) && |s| >= Start(Count(s)) then FirstBad(s, 0, Count(s)) else 0
  }

  /** What IsValid says of a container. */
  function Validity(s: seq<byte>): Error {
    if |s| < HEADER then TooShort
    else if !KnownMagic(s) then BadMagicNumber
    else if !GoodHeader(s) then WrongVersion
    else if |s| < Start(Count(s)) || Accepted(s) < Count(s) then CorruptData
    else NoError
  }

  function ContentAt(s: seq<byte>, d: Located): seq<byte> {
    Substr(s, d.offset, d.length)
  }

  /** The content of the first entry with this id. */
  function ContentOf(s: seq<byte>, id: uint32): Option<seq<byte>>
    requires |s| >= HEADER
  {
    var k := FirstWith(s, id, 0, Count(s));
    if k < Count(s) then Some(ContentAt(s, DescriptorAt(s, k))) else None
  }

  function TimesAt(s: seq<byte>, offset: nat): Times {
    Times(Read32(s, offset), Read32(s, offset + 4), Read32(s, offset + 8), Read32(s, offset + 12))
  }

  function TimesOf(s: seq<byte>): Option<Times>
    requires |s| >= HEADER
  {
    var k := FirstWith(s, FILE_DATES_INFO, 0, Count(s));
    if k < Count(s) then Some(TimesAt(s, DescriptorAt(s, k).offset)) else None
  }

  /** The file a container describes. */
  function FileOf(s: seq<byte>): File
    requires |s| >= HEADER
  {
    File(FormatOf(s), ContentOf(s, REAL_NAME), TimesOf(s), ContentOf(s, RESOURCE_FORK), ContentOf(s, DATA_FORK))
  }

  // ---- What is printed is read back ----

  lemma ReadWord(s: seq<byte>, i: nat, n: uint32)
    requires i + 4 <= |s| && i + 4 <= TWO32 && s[i..i + 4] == BigEndian32(n)
    ensures Read32(s, i) == n
  {
    BigEndian32RoundTrip(n);
    hide FromBigEndian32, BigEndian32;
    assert [At(s, i % TWO32), At(s, (i + 1) % TWO32), At(s, (i + 2) % TWO32), At(s, (i + 3) % TWO32)] == s[i..i + 4];
  }

  lemma HeaderReads(format: Format, count: nat, tail: seq<byte>)
    requires count < 0x10000
    ensures var s := Header(format, count) + tail;
            GoodHeader(s) && FormatOf(s) == format && Count(s) == count
  {
    var s := Header(format, count) + tail;
    hide BigEndian32;
    assert s[0..4] == BigEndian32(Magic(format)) && s[4..8] == BigEndian32(VERSION);
    assert s[24] == count / 256 % 256 && s[25] == count % 256;
    ReadWord(s, 0, Magic(format));
    ReadWord(s, 4, VERSION);
    hide Read32;
  }

  lemma DescriptorReads(s: seq<byte>, k: nat, e: Entry, offset: nat)
    requires Start(k) + 12 <= |s| < TWO32 && |e.content| < TWO32 && offset < TWO32
    requires s[Start(k)..Start(k) + 12] == Descriptor(e, offset)
    ensures DescriptorAt(s, k) == Located(e.id, offset, |e.content|)
  {
    hide BigEndian32, Read32;
    var i := Start(k);
    var d := s[i..i + 12];
    SliceOfSlice(s, i, 12, 0, 4);
    SliceOfSlice(s, i, 12, 4, 8);
    SliceOfSlice(s, i, 12, 8, 12);
    assert d[0..4] == BigEndian32(e.id);
    assert d[4..8] == Word(offset) == BigEndian32(offset);
    assert d[8..12] == Word(|e.content|) == BigEndian32(|e.content|);
    ReadWord(s, i, e.id);
    ReadWord(s, i + 4, offset);
    ReadWord(s, i + 8, |e.content|);
  }

  lemma DescriptorSits(format: Format, es: seq<Entry>, k: nat)
    requires k < |es|
    ensures Packed(format, es)[Start(k)..Start(k) + 12] == Descriptor(es[k], OffsetOf(es, k, Start(|es|)))
  {
    hide Header, Descriptors, Contents, Descriptor, OffsetOf;
    var start, i := Start(|es|), 12 * k;
    DescriptorInSection(es, k, start);
    var h, ds, cs := Header(format, |es|), Descriptors(es, start), Contents(es);
    SliceOfSecond(h, ds, cs, i, i + 12);
    assert Start(k) == |h| + i;
  }

  lemma ContentSits(format: Format, es: seq<Entry>, k: nat)
    requires k < |es|
    ensures var s, p := Packed(format, es), OffsetOf(es, k, Start(|es|));
            && Start(|es|) <= p && p + |es[k].content| <= |s| && s[p..p + |es[k].content|] == es[k].content
  {
    hide Header, Descriptors, Contents, Descriptor, OffsetOf;
    var start := Start(|es|);
    ContentInSection(es, k, start);
    var p := OffsetOf(es, k, start) - start;
    Shifted(Header(format, |es|) + Descriptors(es, start), Contents(es), p, p + |es[k].content|);
  }

  lemma SliceOfSecond<T>(a: seq<T>, b: seq<T>, c: seq<T>, lo: nat, hi: nat)
    requires lo <= hi <= |b|
    ensures (a + b + c)[|a| + lo..|a| + hi] == b[lo..hi]
  {
  }

  /** Every descriptor of a printed container denotes exactly its own entry. */
  lemma DescriptorDenotesEntry(format: Format, es: seq<Entry>, k: nat)
    requires k < |es| && |Packed(format, es)| < TWO32
    ensures var s, p := Packed(format, es), OffsetOf(es, k, Start(|es|));
            && Start(|es|) <= p && p + |es[k].content| <= |s|
            && DescriptorAt(s, k) == Located(es[k].id, p, |es[k].content|)
            && s[p..p + |es[k].content|] == es[k].content
  {
    hide Packed, Descriptor, DescriptorAt, OffsetOf, Contents;
    var p := OffsetOf(es, k, Start(|es|));
    DescriptorSits(format, es, k);
    ContentSits(format, es, k);
    DescriptorReads(Packed(format, es), k, es[k], p);
  }

  lemma AcceptedWhenAllFit(s: seq<byte>)
    requires GoodHeader(s) && |s| >= Start(Count(s))
    requires forall k :: 0 <= k < Count(s) ==> Fits(s, Count(s), DescriptorAt(s, k))
    ensures Accepted(s) == Count(s) && Validity(s) == NoError
  {
    hide Fits, DescriptorAt, Count, Read32;
  }

  lemma PackedHeader(format: Format, es: seq<Entry>)
    requires |es| < 0x10000
    ensures var s := Packed(format, es);
            GoodHeader(s) && FormatOf(s) == format && Count(s) == |es|
  {
    var h, ds, cs := Header(format, |es|), Descriptors(es, Start(|es|)), Contents(es);
    HeaderReads(format, |es|, ds + cs);
    hide Header, Descriptors, Contents, GoodHeader, FormatOf, Count;
    assert h + ds + cs == h + (ds + cs);
  }

  /** A printed container is accepted, whatever its entries. */
  lemma PackedIsAccepted(format: Format, es: seq<Entry>)
    requires |es| < 0x10000 && |Packed(format, es)| < TWO32
    ensures var s := Packed(format, es);
            Validity(s) == NoError && FormatOf(s) == format && Count(s) == |es|
  {
    var s := Packed(format, es);
    hide Packed, GoodHeader, DescriptorAt, Count, FormatOf, OffsetOf, Validity, Accepted, Contents;
    PackedHeader(format, es);
    forall k | 0 <= k < |es|
      ensures Fits(s, |es|, DescriptorAt(s, k))
    {
      DescriptorDenotesEntry(format, es, k);
    }
    AcceptedWhenAllFit(s);
  }

  lemma SubstrInside(s: seq<byte>, pos: nat, len: nat)
    requires pos + len <= |s|
    ensures Substr(s, pos, len) == s[pos..pos + len]
  {
  }

  lemma DescriptorNames(format: Format, es: seq<Entry>, k: nat)
    requires k < |es| && |Packed(format, es)| < TWO32
    ensures DescriptorAt(Packed(format, es), k).id == es[k].id
    ensures ContentAt(Packed(format, es), DescriptorAt(Packed(format, es), k)) == es[k].content
  {
    DescriptorDenotesEntry(format, es, k);
    hide Packed, OffsetOf, DescriptorAt, Contents, Substr;
    var p := OffsetOf(es, k, Start(|es|));
    SubstrInside(Packed(format, es), p, |es[k].content|);
  }

  /** The first entry with an id is the one that is read for it. */
  lemma EntryReads(format: Format, es: seq<Entry>, k: nat)
    requires k < |es| < 0x10000 && |Packed(format, es)| < TWO32
    requires forall j :: 0 <= j < k ==> es[j].id != es[k].id
    ensures var s := Packed(format, es);
            && ContentOf(s, es[k].id) == Some(es[k].content)
            && FirstWith(s, es[k].id, 0, Count(s)) == k < Count(s)
  {
    var s := Packed(format, es);
    hide Packed, DescriptorAt, Count, FirstWith, Contents, GoodHeader, ContentAt;
    PackedHeader(format, es);
    forall j | 0 <= j <= k
      ensures DescriptorAt(s, j).id == es[j].id
    {
      DescriptorNames(format, es, j);
    }
    DescriptorNames(format, es, k);
  }

  /** An id that no entry has reads as absent. */
  lemma NoEntryReads(format: Format, es: seq<Entry>, id: uint32)
    requires |es| < 0x10000 && |Packed(format, es)| < TWO32
    requires forall j :: 0 <= j < |es| ==> es[j].id != id
    ensures var s := Packed(format, es);
            ContentOf(s, id) == None && FirstWith(s, id, 0, Count(s)) == Count(s)
  {
    var s := Packed(format, es);
    hide Packed, DescriptorAt, Count, FirstWith, Contents, GoodHeader, ContentAt;
    PackedHeader(format, es);
    forall j | 0 <= j < |es|
      ensures DescriptorAt(s, j).id == es[j].id
    {
      DescriptorNames(format, es, j);
    }
  }

  // ---- The entries of a file ----

  function Part(id: uint32, content: Option<seq<byte>>): (es: seq<Entry>)
    ensures |es| <= 1
  {
    if content.Some? then [Entry(id, content.value)] else []
  }

  function TimesBytes(t: Times): (s: seq<byte>)
    ensures |s| == 16
  {
    BigEndian32(t.created) + BigEndian32(t.modified) + BigEndian32(t.backedUp) + BigEndian32(t.accessed)
  }

  function DatesContent(t: Option<Times>): Option<seq<byte>> {
    if t.Some? then Some(TimesBytes(t.value)) else None
  }

  /** What a container holds of a file: all of it, but an AppleDouble header has no data fork. */
  function Carried(f: File): File {
    if f.format == AppleSingle then f else f.(data := None)
  }

  /** In the order in which Pack writes them. */
  function Entries(f: File): (es: seq<Entry>)
    ensures |es| <= 4
  {
    Part(REAL_NAME, f.name) + Part(FILE_DATES_INFO, DatesContent(f.times)) + Part(RESOURCE_FORK, f.resource)
    + Part(DATA_FORK, Carried(f).data)
  }

  predicate Lacks(es: seq<Entry>, id: uint32) {
    forall j :: 0 <= j < |es| ==> es[j].id != id
  }

  lemma PartReads(format: Format, before: seq<Entry>, id: uint32, content: Option<seq<byte>>, after: seq<Entry>)
    requires |before| + |after| < 0xFFFF && Lacks(before, id) && Lacks(after, id)
    requires |Packed(format, before + Part(id, content) + after)| < TWO32
    ensures var s := Packed(format, before + Part(id, content) + after);
            && ContentOf(s, id) == content
            && (FirstWith(s, id, 0, Count(s)) < Count(s) <==> content.Some?)
  {
    var es := before + Part(id, content) + after;
    hide Packed, ContentOf, FirstWith, Count;
    if content.Some? {
      assert es[|before|] == Entry(id, content.value);
      forall j | 0 <= j < |before|
        ensures es[j].id != id
      {
        assert es[j] == before[j];
      }
      EntryReads(format, es, |before|);
    } else {
      assert es == before + after;
      NoEntryReads(format, es, id);
    }
  }

  lemma SliceOfSlice<T>(s: seq<T>, p: nat, n: nat, lo: nat, hi: nat)
    requires lo <= hi <= n && p + n <= |s|
    ensures s[p..p + n][lo..hi] == s[p + lo..p + hi]
  {
    var a, b := s[p..p + n][lo..hi], s[p + lo..p + hi];
    assert |a| == |b| && forall k :: 0 <= k < |a| ==> a[k] == b[k];
  }

  lemma TimesPieces(t: Times)
    ensures var b := TimesBytes(t);
            && b[0..4] == BigEndian32(t.created) && b[4..8] == BigEndian32(t.modified)
            && b[8..12] == BigEndian32(t.backedUp) && b[12..16] == BigEndian32(t.accessed)
  {
    hide BigEndian32;
  }

  lemma TimesRead(s: seq<byte>, p: nat, t: Times)
    requires p + 16 <= |s| < TWO32 && s[p..p + 16] == TimesBytes(t)
    ensures TimesAt(s, p) == t
  {
    hide BigEndian32, Read32, TimesBytes;
    TimesPieces(t);
    SliceOfSlice(s, p, 16, 0, 4);
    SliceOfSlice(s, p, 16, 4, 8);
    SliceOfSlice(s, p, 16, 8, 12);
    SliceOfSlice(s, p, 16, 12, 16);
    ReadWord(s, p, t.created);
    ReadWord(s, p + 4, t.modified);
    ReadWord(s, p + 8, t.backedUp);
    ReadWord(s, p + 12, t.accessed);
  }

  lemma DatesRead(format: Format, before: seq<Entry>, t: Option<Times>, after: seq<Entry>)
    requires |before| + |after| < 0xFFFF && Lacks(before, FILE_DATES_INFO) && Lacks(after, FILE_DATES_INFO)
    requires |Packed(format, before + Part(FILE_DATES_INFO, DatesContent(t)) + after)| < TWO32
    ensures TimesOf(Packed(format, before + Part(FILE_DATES_INFO, DatesContent(t)) + after)) == t
  {
    var es := before + Part(FILE_DATES_INFO, DatesContent(t)) + after;
    var s := Packed(format, es);
    hide Packed, ContentOf, FirstWith, Count, TimesAt, TimesBytes, OffsetOf, DescriptorAt;
    PartReads(format, before, FILE_DATES_INFO, DatesContent(t), after);
    if t.Some? {
      var k := |before|;
      assert es[k] == Entry(FILE_DATES_INFO, TimesBytes(t.value));
      forall j | 0 <= j < k
        ensures es[j].id != FILE_DATES_INFO
      {
        assert es[j] == before[j];
      }
      EntryReads(format, es, k);
      DescriptorDenotesEntry(format, es, k);
      TimesRead(s, OffsetOf(es, k, Start(|es|)), t.value);
    }
  }

  /** Packing and unpacking restores everything the container carries, for every choice of entries
      and all contents, as long as the container stays below the 32-bit limit. */
  lemma PackThenUnpack(f: File)
    requires |Packed(f.format, Entries(f))| < TWO32
    ensures var s := Packed(f.format, Entries(f));
            Validity(s) == NoError && FileOf(s) == Carried(f)
  {
    hide Packed, Validity, FormatOf, ContentOf, TimesOf, DatesContent, Contents, Count, GoodHeader, FirstWith;
    var n, t := Part(REAL_NAME, f.name), Part(FILE_DATES_INFO, DatesContent(f.times));
    var r, d := Part(RESOURCE_FORK, f.resource), Part(DATA_FORK, Carried(f).data);
    FourParts(n, t, r, d);
    LackOthers(n, t, r, d);
    hide Part, Lacks;
    PackedIsAccepted(f.format, Entries(f));
    PartReads(f.format, [], REAL_NAME, f.name, t + r + d);
    DatesRead(f.format, n, f.times, r + d);
    PartReads(f.format, n + t, RESOURCE_FORK, f.resource, d);
    PartReads(f.format, n + t + r, DATA_FORK, Carried(f).data, []);
  }

  lemma FourParts<T>(n: seq<T>, t: seq<T>, r: seq<T>, d: seq<T>)
    ensures [] + n + (t + r + d) == n + t + r + d
    ensures n + t + (r + d) == n + t + r + d
    ensures n + t + r + d + [] == n + t + r + d
  {
  }

  lemma LackOthers(n: seq<Entry>, t: seq<Entry>, r: seq<Entry>, d: seq<Entry>)
    requires |n| <= 1 && |t| <= 1 && |r| <= 1 && |d| <= 1
    requires (n == [] || n[0].id == REAL_NAME) && (t == [] || t[0].id == FILE_DATES_INFO)
    requires (r == [] || r[0].id == RESOURCE_FORK) && (d == [] || d[0].id == DATA_FORK)
    ensures Lacks([], REAL_NAME) && Lacks(t + r + d, REAL_NAME)
    ensures Lacks(n, FILE_DATES_INFO) && Lacks(r + d, FILE_DATES_INFO)
    ensures Lacks(n + t, RESOURCE_FORK) && Lacks(d, RESOURCE_FORK)
    ensures Lacks(n + t + r, DATA_FORK) && Lacks([], DATA_FORK)
  {
  }

  // ---- The bytes of the format ----

  /** RFC 1740, Appendix A: the magic number of AppleSingle or of AppleDouble, version 2, a filler and the
      number of entries. */
  lemma HeaderBytes(format: Format, count: nat)
    requires count < 0x10000
    ensures var h := Header(format, count);
            && h[..8] == [0x00, 0x05, 0x16, if format == AppleSingle then 0x00 else 0x07, 0x00, 0x02, 0x00, 0x00]
            && h[8..24] == Zeros(16) && h[24] as int * 256 + h[25] as int == count
  {
    MagicBytes(format);
    hide BigEndian32;
    var h := Header(format, count);
    assert h[..8] == BigEndian32(Magic(format)) + BigEndian32(VERSION);
  }

  lemma MagicBytes(format: Format)
    ensures BigEndian32(Magic(format)) == [0x00, 0x05, 0x16, if format == AppleSingle then 0x00 else 0x07]
    ensures BigEndian32(VERSION) == [0x00, 0x02, 0x00, 0x00] && BigEndian32(NO_DATE) == [0x80, 0x00, 0x00, 0x00]
  {
  }

  /** The entry ids of RFC 1740, Appendix A: 3 the real name, 8 the dates, 2 the resource fork, 1 the data
      fork, which only AppleSingle holds; written in this order. */
  lemma IdsOfEntries(f: File)
    ensures Entries(f) ==
            (if f.name.Some? then [Entry(3, f.name.value)] else []) +
            (if f.times.Some? then [Entry(8, TimesBytes(f.times.value))] else []) +
            (if f.resource.Some? then [Entry(2, f.resource.value)] else []) +
            (if f.data.Some? && f.format == AppleSingle then [Entry(1, f.data.value)] else [])
  {
    hide TimesBytes;
  }

  /** Behind the end of the file zeros are read. */
  lemma ReadsZeros(s: seq<byte>, i: nat)
    requires |s| <= i && i + 4 <= 0x1_0000_0000
    ensures Read32(s, i) == 0
  {
  }

  /** Four bytes from `i`, most significant first. */
  function Weight(s: seq<byte>, i: nat): nat
    requires i + 4 <= |s|
  {
    ((s[i] as int * 256 + s[i + 1]) * 256 + s[i + 2]) * 256 + s[i + 3]
  }

  lemma ReadIsWeight(s: seq<byte>, i: nat)
    requires i + 4 <= |s| && i + 4 <= 0x1_0000_0000
    ensures Read32(s, i) == Weight(s, i)
  {
  }

  predicate MagicAt(s: seq<byte>)
    requires |s| >= 26
  {
    s[..4] == [0x00, 0x05, 0x16, 0x00] || s[..4] == [0x00, 0x05, 0x16, 0x07]
  }

  /** The descriptors are whole, and each entry begins behind them and, as far as 32 bits tell, ends in the
      file. */
  ghost predicate EntriesFit(s: seq<byte>, n: nat)
  {
    && |s| >= 26 + 12 * n
    && forall k :: 0 <= k < n ==> EntryFits(s, n, k)
  }

  predicate EntryFits(s: seq<byte>, n: nat, k: nat)
    requires k < n && |s| >= 26 + 12 * n
  {
    var offset, length := Weight(s, 30 + 12 * k), Weight(s, 34 + 12 * k);
    26 + 12 * n <= offset && (offset + length) % 0x1_0000_0000 <= |s|
  }

  /** What IsValid says of any bytes. */
  lemma ValidityByBytes(s: seq<byte>)
    ensures Validity(s) == TooShort <==> |s| < 26
    ensures Validity(s) == BadMagicNumber <==> |s| >= 26 && !MagicAt(s)
    ensures Validity(s) == WrongVersion <==> |s| >= 26 && MagicAt(s) && s[4..8] != [0x00, 0x02, 0x00, 0x00]
    ensures Validity(s) == NoError <==>
            && |s| >= 26 && MagicAt(s) && s[4..8] == [0x00, 0x02, 0x00, 0x00]
            && EntriesFit(s, s[24] as int * 256 + s[25] as int)
  {
    hide Read32;
    if |s| >= 26 {
      WordIs(s, 0, Magic(AppleSingle), [0x00, 0x05, 0x16, 0x00]);
      WordIs(s, 0, Magic(AppleDoubleHeader), [0x00, 0x05, 0x16, 0x07]);
      WordIs(s, 4, VERSION, [0x00, 0x02, 0x00, 0x00]);
      assert s[..4] == s[0..4];
      EntriesFitIs(s);
      hide DescriptorAt, EntriesFit;
    }
  }

  lemma WordIs(s: seq<byte>, i: nat, n: uint32, b: seq<byte>)
    requires i + 4 <= |s| && i + 4 <= 0x1_0000_0000 && |b| == 4 && Weight(b, 0) == n
    ensures Read32(s, i) == n <==> s[i..i + 4] == b
  {
    ReadIsWeight(s, i);
    if Weight(s, i) == n {
      FromBigEndian32RoundTrip(s[i..i + 4]);
      FromBigEndian32RoundTrip(b);
    }
  }

  lemma EntriesFitIs(s: seq<byte>)
    requires |s| >= 26
    ensures var n := Count(s);
            EntriesFit(s, n) <==> |s| >= Start(n) && forall k :: 0 <= k < n ==> Fits(s, n, DescriptorAt(s, k))
  {
    hide Read32, Weight;
    var n := Count(s);
    if |s| >= Start(n) {
      forall k | 0 <= k < n
        ensures EntryFits(s, n, k) <==> Fits(s, n, DescriptorAt(s, k))
      {
        ReadIsWeight(s, 30 + 12 * k);
        ReadIsWeight(s, 34 + 12 * k);
      }
    }
  }

  // ---- What acceptance promises about a container from elsewhere ----

  /** Acceptance is meant to say that the file contains every entry. For an accepted container it does
      exactly for the entries whose end does not wrap at 32 bits. */
  lemma AcceptedEntryIsInside(s: seq<byte>, k: nat)
    requires |s| < TWO32 && Validity(s) == NoError && k < Count(s)
    ensures var d := DescriptorAt(s, k);
            && Start(Count(s)) <= d.offset
            && (d.offset + d.length <= |s| <==> d.offset + d.length < TWO32)
            && (d.offset + d.length < TWO32 ==> |ContentAt(s, d)| == d.length)
  {
    hide DescriptorAt;
    assert Fits(s, Count(s), DescriptorAt(s, k));
  }

  lemma SameWord(s: seq<byte>, t: seq<byte>, n: nat, i: nat)
    requires i + 4 <= n <= |s| && n <= |t| && n <= TWO32 && s[..n] == t[..n]
    ensures Read32(s, i) == Read32(t, i)
  {
    hide FromBigEndian32;
    forall j | 0 <= j < n
      ensures s[j] == t[j]
    {
      assert s[..n][j] == t[..n][j];
    }
  }

  lemma OtherWord(s: seq<byte>, t: seq<byte>, i: nat, k: nat)
    requires k < 4 && At(s, (i + k) % TWO32) != At(t, (i + k) % TWO32)
    ensures Read32(s, i) != Read32(t, i)
  {
    var a := [At(s, i % TWO32), At(s, (i + 1) % TWO32), At(s, (i + 2) % TWO32), At(s, (i + 3) % TWO32)];
    var b := [At(t, i % TWO32), At(t, (i + 1) % TWO32), At(t, (i + 2) % TWO32), At(t, (i + 3) % TWO32)];
    FromBigEndian32RoundTrip(a);
    FromBigEndian32RoundTrip(b);
    hide FromBigEndian32, BigEndian32, At;
    assert a[k] != b[k];
  }

  /** The file, up to the end of an entry, says what the times read there are. */
  ghost predicate TimesAreSaid(s: seq<byte>, offset: nat, end: nat)
    requires end <= |s|
  {
    forall t: seq<byte> :: end <= |t| && t[..end] == s[..end] ==> TimesAt(t, offset) == TimesAt(s, offset)
  }

  /** The four times of a dates entry lie in the entry if and only if it has at least 16 bytes. The code
      does not look at the length, and goes on reading behind a shorter one. */
  lemma TimesAreSaidIff(s: seq<byte>, offset: nat, length: nat)
    requires offset + length <= |s| < TWO32
    ensures TimesAreSaid(s, offset, offset + length) <==> length >= 16
  {
    hide Read32;
    var end := offset + length;
    if length >= 16 {
      forall t: seq<byte> | end <= |t| && t[..end] == s[..end]
        ensures TimesAt(t, offset) == TimesAt(s, offset)
      {
        SameWord(s, t, end, offset);
        SameWord(s, t, end, offset + 4);
        SameWord(s, t, end, offset + 8);
        SameWord(s, t, end, offset + 12);
      }
    } else {
      var t := s[..end] + [if At(s, end) == 0 then 1 else 0];
      assert t[..end] == s[..end] && t[end] != At(s, end);
      var w := length / 4;
      assert offset + 4 * w + length % 4 == end;
      OtherWord(s, t, offset + 4 * w, length % 4);
      assert TimesAt(t, offset) != TimesAt(s, offset);
    }
  }

  /** One real-name entry of length 1 at the last 32-bit offset: accepted, and its content is not there. */
  const WRAPPING: seq<byte> :=
    Header(AppleSingle, 1) + BigEndian32(REAL_NAME) + BigEndian32(0xFFFF_FFFF) + BigEndian32(1)

  lemma WrappingIsAccepted()
    ensures Validity(WRAPPING) == NoError && ContentOf(WRAPPING, REAL_NAME) == Some([])
  {
    var tail := BigEndian32(REAL_NAME) + BigEndian32(0xFFFF_FFFF) + BigEndian32(1);
    assert WRAPPING == Header(AppleSingle, 1) + tail;
    HeaderReads(AppleSingle, 1, tail);
    WrappingDescriptor(Header(AppleSingle, 1), tail);
    assert |WRAPPING| == 38;
    OneWrappingEntry(WRAPPING);
  }

  lemma OneWrappingEntry(s: seq<byte>)
    requires GoodHeader(s) && Count(s) == 1 && |s| == 38
    requires DescriptorAt(s, 0) == Located(REAL_NAME, 0xFFFF_FFFF, 1)
    ensures Validity(s) == NoError && ContentOf(s, REAL_NAME) == Some([])
  {
    hide GoodHeader, Read32, DescriptorAt, Count, Validity, Accepted;
    AcceptedWhenAllFit(s);
    assert FirstWith(s, REAL_NAME, 0, 1) == 0;
    assert Substr(s, 0xFFFF_FFFF, 1) == [];
  }

  lemma WrappingDescriptor(header: seq<byte>, tail: seq<byte>)
    requires |header| == HEADER && tail == BigEndian32(REAL_NAME) + BigEndian32(0xFFFF_FFFF) + BigEndian32(1)
    ensures DescriptorAt(header + tail, 0) == Located(REAL_NAME, 0xFFFF_FFFF, 1)
  {
    hide BigEndian32, Read32;
    var s := header + tail;
    Shifted(header, tail, 0, 4);
    Shifted(header, tail, 4, 8);
    Shifted(header, tail, 8, 12);
    assert tail[0..4] == BigEndian32(REAL_NAME) && tail[4..8] == BigEndian32(0xFFFF_FFFF);
    assert tail[8..12] == BigEndian32(1);
    ReadWord(s, 26, REAL_NAME);
    ReadWord(s, 30, 0xFFFF_FFFF);
    ReadWord(s, 34, 1);
  }
}
