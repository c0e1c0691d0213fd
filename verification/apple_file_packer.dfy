/** The class DwAppleFile of service/cpplib/mimepp/src/applfile.cpp: Pack and Unpack as methods over
    the fields, proved against the container of AppleFile. */
module AppleFilePacker {
  import opened Bytes
  import opened AppleFile

  /** Some of the first `count` descriptors has this id. */
  predicate HasId(s: seq<byte>, id: uint32, count: nat) {
    exists k :: 0 <= k < count && DescriptorAt(s, k).id == id
  }

  /** Which entries a container has. */
  datatype Presence = Presence(name: bool, dates: bool, resource: bool, data: bool)

  /** Each flag says whether its entry is among the first `count` descriptors. */
  predicate Flagged(s: seq<byte>, count: nat, flags: Presence) {
    && flags.name == HasId(s, REAL_NAME, count)
    && flags.dates == HasId(s, FILE_DATES_INFO, count)
    && flags.resource == HasId(s, RESOURCE_FORK, count)
    && flags.data == HasId(s, DATA_FORK, count)
  }

  lemma HasIdStep(s: seq<byte>, id: uint32, count: nat)
    ensures HasId(s, id, count + 1) <==> HasId(s, id, count) || DescriptorAt(s, count).id == id
  {
    hide DescriptorAt;
  }

  lemma HasIdIsFound(s: seq<byte>, id: uint32, count: nat)
    ensures HasId(s, id, count) <==> FirstWith(s, id, 0, count) < count
  {
    hide DescriptorAt, FirstWith;
    if FirstWith(s, id, 0, count) < count {
      assert DescriptorAt(s, FirstWith(s, id, 0, count)).id == id;
    }
  }

  lemma BlankMoves(header: seq<byte>, done: seq<Entry>, part: seq<Entry>, before: seq<byte>, after: seq<byte>)
    requires |part| <= 1 && before == header + Blank(done)
    requires after == before + if part == [] then [] else Descriptor(part[0], 0)
    ensures after == header + Blank(done + part)
  {
    hide Blank, Descriptor;
    if part == [] {
      assert done + part == done;
    } else {
      assert part == [part[0]];
      BlankGrows(done, part[0]);
    }
  }

  lemma FourRests<T>(n: seq<T>, t: seq<T>, r: seq<T>, d: seq<T>)
    ensures n + t + r + d == n + (t + (r + d)) && [] + n == n && d + [] == d
  {
  }

  /** The first entry with this id ends outside the file, as far as 32 bits tell. */
  predicate BadEnd(s: seq<byte>, id: uint32)
    requires |s| >= HEADER
  {
    var k := FirstWith(s, id, 0, Count(s));
    k < Count(s) && var d := DescriptorAt(s, k); (d.offset + d.length) % TWO32 > |s|
  }

  /** What the getters return and keep for an entry that is flagged, or not. */
  function FetchError(s: seq<byte>, present: bool, id: uint32): Error
    requires |s| >= HEADER
  {
    if present && BadEnd(s, id) then CorruptData else NoError
  }

  function Fetched(s: seq<byte>, present: bool, id: uint32): (content: seq<byte>)
    requires |s| >= HEADER
    ensures !present ==> content == []
  {
    if present && !BadEnd(s, id) && ContentOf(s, id).Some? then ContentOf(s, id).value else []
  }

  function FetchedTimes(s: seq<byte>, present: bool): (t: Times)
    requires |s| >= HEADER
    ensures !present ==> t == Times(NO_DATE, NO_DATE, NO_DATE, NO_DATE)
  {
    if present && !BadEnd(s, FILE_DATES_INFO) && TimesOf(s).Some? then TimesOf(s).value
    else Times(NO_DATE, NO_DATE, NO_DATE, NO_DATE)
  }

  /** In an accepted container nothing is left for the getters to refuse. */
  lemma AcceptedNeverFails(s: seq<byte>, present: bool, id: uint32)
    requires |s| >= HEADER && Validity(s) == NoError
    ensures FetchError(s, present, id) == NoError
  {
    AcceptedHasNoBadEnd(s, id);
  }

  lemma AcceptedHasNoBadEnd(s: seq<byte>, id: uint32)
    requires Validity(s) == NoError
    ensures |s| >= HEADER && !BadEnd(s, id)
  {
    hide DescriptorAt, Count, Read32;
    var k := FirstWith(s, id, 0, Count(s));
    if k < Count(s) {
      assert Fits(s, Count(s), DescriptorAt(s, k));
    }
  }

  /** For an accepted container, flags set by its entries and contents fetched by the flags make up the
      file it describes. */
  lemma FetchedIsFile(s: seq<byte>, flags: Presence)
    requires Validity(s) == NoError && Flagged(s, Accepted(s), flags)
    ensures |s| >= HEADER
    ensures FileOf(s) == File(FormatOf(s),
                              if flags.name then Some(Fetched(s, true, REAL_NAME)) else None,
                              if flags.dates then Some(FetchedTimes(s, true)) else None,
                              if flags.resource then Some(Fetched(s, true, RESOURCE_FORK)) else None,
                              if flags.data then Some(Fetched(s, true, DATA_FORK)) else None)
  {
    hide HasId, FirstWith, DescriptorAt, Read32, BadEnd;
    HasIdIsFound(s, REAL_NAME, Count(s));
    HasIdIsFound(s, FILE_DATES_INFO, Count(s));
    HasIdIsFound(s, RESOURCE_FORK, Count(s));
    HasIdIsFound(s, DATA_FORK, Count(s));
    AcceptedHasNoBadEnd(s, FILE_DATES_INFO);
    AcceptedHasNoBadEnd(s, REAL_NAME);
    AcceptedHasNoBadEnd(s, RESOURCE_FORK);
    AcceptedHasNoBadEnd(s, DATA_FORK);
  }

  class DwAppleFile {
    var format: Format
    var hasRealName: bool
    var hasFileDatesInfo: bool
    var hasResourceFork: bool
    var hasDataFork: bool
    var numEntries: nat
    var createTime: uint32
    var modifyTime: uint32
    var backupTime: uint32
    var accessTime: uint32
    var realName: seq<byte>
    var resourceFork: seq<byte>
    var dataFork: seq<byte>
    var packaged: seq<byte>

    /** What the object says about its file. */
    function AsFile(): File
      reads `format, `hasRealName, `hasFileDatesInfo, `hasResourceFork, `hasDataFork
      reads `createTime, `modifyTime, `backupTime, `accessTime, `realName, `resourceFork, `dataFork
    {
      File(format,
           if hasRealName then Some(realName) else None,
           if hasFileDatesInfo then Some(Times(createTime, modifyTime, backupTime, accessTime)) else None,
           if hasResourceFork then Some(resourceFork) else None,
           if hasDataFork then Some(dataFork) else None)
    }

    constructor ()
      ensures AsFile() == File(AppleSingle, None, None, None, None)
      ensures createTime == modifyTime == backupTime == accessTime == NO_DATE
      ensures realName == [] && resourceFork == [] && dataFork == [] && packaged == [] && numEntries == 0
    {
      numEntries := 0;
      hasRealName, hasFileDatesInfo, hasResourceFork, hasDataFork := false, false, false, false;
      format := AppleSingle;
      createTime, modifyTime, backupTime, accessTime := NO_DATE, NO_DATE, NO_DATE, NO_DATE;
      realName, resourceFork, dataFork, packaged := [], [], [], [];
    }

    // ---- Pack ----

    /** The part of Pack that writes the header. */
    method PackHeader(count: nat) returns (buffer: seq<byte>)
      requires count < 0x10000
      ensures buffer == Header(format, count)
    {
      if format == AppleSingle {
        buffer := [0x00, 0x05, 0x16, 0x00];
      } else {
        buffer := [0x00, 0x05, 0x16, 0x07];
      }
      buffer := buffer + [0x00, 0x02, 0x00, 0x00];
      assert buffer == BigEndian32(Magic(format)) + BigEndian32(VERSION);
      for i := 0 to 16
        invariant buffer == BigEndian32(Magic(format)) + BigEndian32(VERSION) + Zeros(i)
      {
        buffer := buffer + [0];
      }
      hide BigEndian32, Zeros;
      buffer := buffer + [count / 256 % 256, count % 256];
    }

    /** A descriptor whose offset is still blank; its position is remembered. */
    static method AppendDescriptor(buffer: seq<byte>, id: uint32, length: nat)
      returns (r: seq<byte>, offsetPos: nat)
      ensures r == buffer + (BigEndian32(id) + Word(0) + Word(length)) && offsetPos == |buffer| + 4
    {
      hide BigEndian32;
      r := buffer + BigEndian32(id);
      offsetPos := |r|;
      r := r + BigEndian32(0) + BigEndian32(length % TWO32);
    }

    /** An entry's content goes to the end, and that position into the descriptor. */
    static method AppendEntry(buffer: seq<byte>, offsetPos: nat, content: seq<byte>) returns (r: seq<byte>)
      requires offsetPos + 4 <= |buffer|
      ensures r == Splice(buffer, offsetPos, Word(|buffer|)) + content
    {
      var offset := |buffer| % TWO32;
      var pos := offsetPos;
      r := buffer[pos := offset / 0x100_0000];
      pos := pos + 1;
      r := r[pos := offset / 0x1_0000 % 256];
      pos := pos + 1;
      r := r[pos := offset / 256 % 256];
      pos := pos + 1;
      r := r[pos := offset % 256];
      assert r == Splice(buffer, offsetPos, Word(|buffer|));
      r := r + content;
    }

    /** The parts of the container in the order in which Pack writes them. */
    function Name(): (es: seq<Entry>)
      reads `hasRealName, `realName
      ensures |es| == (if hasRealName then 1 else 0)
    {
      if hasRealName then [Entry(REAL_NAME, realName)] else []
    }

    function Dates(): (es: seq<Entry>)
      reads `hasFileDatesInfo, `createTime, `modifyTime, `backupTime, `accessTime
      ensures |es| == (if hasFileDatesInfo then 1 else 0)
    {
      if hasFileDatesInfo
      then [Entry(FILE_DATES_INFO, TimesBytes(Times(createTime, modifyTime, backupTime, accessTime)))] else []
    }

    function Resource(): (es: seq<Entry>)
      reads `hasResourceFork, `resourceFork
      ensures |es| == (if hasResourceFork then 1 else 0)
    {
      if hasResourceFork then [Entry(RESOURCE_FORK, resourceFork)] else []
    }

    function Data(): (es: seq<Entry>)
      reads `format, `hasDataFork, `dataFork
      ensures |es| == (if hasDataFork && format == AppleSingle then 1 else 0)
    {
      if hasDataFork && format == AppleSingle then [Entry(DATA_FORK, dataFork)] else []
    }

    lemma PartsAreEntries()
      ensures Name() + Dates() + Resource() + Data() == Entries(AsFile())
    {
    }

    /** A descriptor is appended if the entry is present. */
    static method AppendDescriptorIf(buffer: seq<byte>, present: bool, id: uint32, length: nat,
                                     ghost header: seq<byte>, ghost done: seq<Entry>, ghost part: seq<Entry>)
      returns (r: seq<byte>, offsetPos: nat)
      requires |part| == (if present then 1 else 0) && (present ==> part[0].id == id && |part[0].content| == length)
      requires buffer == header + Blank(done)
      ensures r == header + Blank(done + part)
      ensures present ==> offsetPos == |header| + 12 * |done| + 4
    {
      hide Blank, BigEndian32, Word;
      r, offsetPos := buffer, 0;
      if present {
        r, offsetPos := AppendDescriptor(buffer, id, length);
      }
      BlankMoves(header, done, part, buffer, r);
    }

    /** The part of Pack that writes the descriptors. */
    method PackDescriptors(header: seq<byte>)
      returns (buffer: seq<byte>, namePos: nat, datesPos: nat, resourcePos: nat, dataPos: nat)
      ensures buffer == header + Blank(Name() + Dates() + Resource() + Data())
      ensures hasRealName ==> namePos == |header| + 4
      ensures hasFileDatesInfo ==> datesPos == |header| + 12 * |Name()| + 4
      ensures hasResourceFork ==> resourcePos == |header| + 12 * |Name() + Dates()| + 4
      ensures hasDataFork && format == AppleSingle ==> dataPos == |header| + 12 * |Name() + Dates() + Resource()| + 4
    {
      hide TimesBytes;
      ghost var n, t, r, d := Name(), Dates(), Resource(), Data();
      assert Blank([]) == [] && [] + n == n;
      hide Blank;
      buffer, namePos := AppendDescriptorIf(header, hasRealName, REAL_NAME, |realName|, header, [], n);
      buffer, datesPos := AppendDescriptorIf(buffer, hasFileDatesInfo, FILE_DATES_INFO, 16, header, n, t);
      buffer, resourcePos := AppendDescriptorIf(buffer, hasResourceFork, RESOURCE_FORK, |resourceFork|,
                                                header, n + t, r);
      buffer, dataPos := AppendDescriptorIf(buffer, hasDataFork && format == AppleSingle, DATA_FORK, |dataFork|,
                                            header, n + t + r, d);
    }

    /** If the entry is present its offset is filled in and its content appended. */
    static method AppendEntryIf(buffer: seq<byte>, present: bool, offsetPos: nat, content: seq<byte>,
                                ghost header: seq<byte>, ghost done: seq<Entry>, ghost part: seq<Entry>,
                                ghost rest: seq<Entry>)
      returns (r: seq<byte>)
      requires |part| == (if present then 1 else 0) && (present ==> part[0].content == content)
      requires present ==> offsetPos == Start(|done|) + 4
      requires |header| == HEADER && buffer == Stage(header, done, part + rest)
      ensures r == Stage(header, done + part, rest)
    {
      hide Stage, Splice, Word;
      r := buffer;
      if present {
        assert part == [part[0]];
        StageStep(header, done, part[0], rest);
        r := AppendEntry(buffer, offsetPos, content);
      } else {
        assert part + rest == rest && done + part == done;
      }
    }

    /** The part of Pack that fills in the offsets and writes the contents. */
    method PackContents(start: seq<byte>, namePos: nat, datesPos: nat, resourcePos: nat, dataPos: nat,
                        ghost header: seq<byte>)
      returns (buffer: seq<byte>)
      requires |header| == HEADER && start == Stage(header, [], Name() + Dates() + Resource() + Data())
      requires hasRealName ==> namePos == HEADER + 4
      requires hasFileDatesInfo ==> datesPos == HEADER + 12 * |Name()| + 4
      requires hasResourceFork ==> resourcePos == HEADER + 12 * |Name() + Dates()| + 4
      requires hasDataFork && format == AppleSingle ==> dataPos == HEADER + 12 * |Name() + Dates() + Resource()| + 4
      ensures buffer == Stage(header, Name() + Dates() + Resource() + Data(), [])
    {
      hide Stage, BigEndian32;
      var times := BigEndian32(createTime) + BigEndian32(modifyTime)
                   + BigEndian32(backupTime) + BigEndian32(accessTime);
      ghost var n, t, r, d := Name(), Dates(), Resource(), Data();
      FourRests(n, t, r, d);
      buffer := AppendEntryIf(start, hasRealName, namePos, realName, header, [], n, t + (r + d));
      buffer := AppendEntryIf(buffer, hasFileDatesInfo, datesPos, times, header, n, t, r + d);
      buffer := AppendEntryIf(buffer, hasResourceFork, resourcePos, resourceFork, header, n + t, r, d);
      buffer := AppendEntryIf(buffer, hasDataFork && format == AppleSingle, dataPos, dataFork,
                              header, n + t + r, d, []);
    }

    /** Pack: the container of exactly this file's entries; nothing else about the file changes. */
    method Pack()
      modifies `numEntries, `packaged
      ensures packaged == Packed(format, Entries(AsFile()))
      ensures numEntries == |Entries(AsFile())|
    {
      hide *;
      packaged := [];
      numEntries := CountEntries();
      PartsAreEntries();
      ghost var es := Entries(AsFile());
      var header := PackHeader(numEntries);
      var buffer, namePos, datesPos, resourcePos, dataPos := PackDescriptors(header);
      StageBegins(header, es);
      buffer := PackContents(buffer, namePos, datesPos, resourcePos, dataPos, header);
      StageEnds(format, es);
      packaged := buffer;
    }

    /** The part of Pack that counts the entries. */
    method CountEntries() returns (count: nat)
      ensures count == |Name() + Dates() + Resource() + Data()|
    {
      hide TimesBytes;
      count := 0;
      if hasRealName {
        count := count + 1;
      }
      if hasFileDatesInfo {
        count := count + 1;
      }
      if hasResourceFork {
        count := count + 1;
      }
      if hasDataFork && format == AppleSingle {
        count := count + 1;
      }
    }

    // ---- Unpack ----

    function Flags(): Presence
      reads `hasRealName, `hasFileDatesInfo, `hasResourceFork, `hasDataFork
    {
      Presence(hasRealName, hasFileDatesInfo, hasResourceFork, hasDataFork)
    }

    method SetPackagedData(s: seq<byte>)
      modifies `packaged, `hasRealName, `hasFileDatesInfo, `hasResourceFork, `hasDataFork
      ensures packaged == s && !hasRealName && !hasFileDatesInfo && !hasResourceFork && !hasDataFork
    {
      hasFileDatesInfo := false;
      hasRealName := false;
      hasResourceFork := false;
      hasDataFork := false;
      packaged := s;
    }

    /** The parser's check. Only what it accepts before it stops is flagged. */
    method IsValid() returns (errorCode: Error)
      modifies `format, `numEntries, `hasRealName, `hasFileDatesInfo, `hasResourceFork, `hasDataFork
      ensures errorCode == Validity(packaged)
      ensures Flagged(packaged, Accepted(packaged), Flags())
      ensures format == if |packaged| >= HEADER && KnownMagic(packaged) then FormatOf(packaged) else old(format)
      ensures numEntries == if GoodHeader(packaged) then Count(packaged) else old(numEntries)
    {
      hide Read32, DescriptorAt;
      hasFileDatesInfo := false;
      hasRealName := false;
      hasDataFork := false;
      hasResourceFork := false;
      if |packaged| < HEADER {
        return TooShort;
      }
      var magic := Read32(packaged, 0);
      if magic == 0x00051600 {
        format := AppleSingle;
      } else if magic == 0x00051607 {
        format := AppleDoubleHeader;
      } else {
        return BadMagicNumber;
      }
      var version := Read32(packaged, 4);
      if version != VERSION {
        return WrongVersion;
      }
      numEntries := packaged[24] as int * 256 + packaged[25] as int;
      if |packaged| < 26 + 12 * numEntries {
        return CorruptData;
      }
      hide HasId, KnownMagic, GoodHeader, FormatOf, FirstBad, Count;
      errorCode := CheckDescriptors();
    }

    /** The part of IsValid that goes through the descriptors. */
    method CheckDescriptors() returns (errorCode: Error)
      requires Flagged(packaged, 0, Flags())
      modifies `hasRealName, `hasFileDatesInfo, `hasResourceFork, `hasDataFork
      ensures errorCode == if FirstBad(packaged, 0, numEntries) < numEntries then CorruptData else NoError
      ensures Flagged(packaged, FirstBad(packaged, 0, numEntries), Flags())
    {
      hide HasId, DescriptorAt;
      for i := 0 to numEntries
        invariant Flagged(packaged, i, Flags())
        invariant FirstBad(packaged, 0, numEntries) == FirstBad(packaged, i, numEntries)
      {
        var d := DescriptorAt(packaged, i);
        if d.offset < 26 + 12 * numEntries || |packaged| < (d.offset + d.length) % TWO32 {
          return CorruptData;
        }
        HasIdStep(packaged, REAL_NAME, i);
        HasIdStep(packaged, FILE_DATES_INFO, i);
        HasIdStep(packaged, RESOURCE_FORK, i);
        HasIdStep(packaged, DATA_FORK, i);
        if d.id == DATA_FORK {
          hasDataFork := true;
        } else if d.id == RESOURCE_FORK {
          hasResourceFork := true;
        } else if d.id == REAL_NAME {
          hasRealName := true;
        } else if d.id == FILE_DATES_INFO {
          hasFileDatesInfo := true;
        }
      }
      return NoError;
    }

    /** The scan for the first descriptor with an id. */
    method FindEntry(id: uint32) returns (found: bool, d: Located)
      ensures found <==> FirstWith(packaged, id, 0, numEntries) < numEntries
      ensures found ==> d == DescriptorAt(packaged, FirstWith(packaged, id, 0, numEntries))
    {
      hide DescriptorAt;
      found, d := false, Located(0, 0, 0);
      for i := 0 to numEntries
        invariant FirstWith(packaged, id, 0, numEntries) == FirstWith(packaged, id, i, numEntries)
      {
        d := DescriptorAt(packaged, i);
        if d.id == id {
          found := true;
          return;
        }
      }
    }

    /** GetRealName, GetResourceFork and GetDataFork, which differ in the flag, the id and the field
        that receives the content. */
    method GetContent(present: bool, id: uint32) returns (errorCode: Error, content: seq<byte>)
      requires |packaged| >= HEADER && numEntries == Count(packaged)
      ensures errorCode == FetchError(packaged, present, id) && content == Fetched(packaged, present, id)
    {
      hide DescriptorAt, FirstWith, Count;
      errorCode, content := NoError, [];
      if present {
        var found, d := FindEntry(id);
        if !found {
          return;
        }
        if (d.offset + d.length) % TWO32 > |packaged| {
          errorCode := CorruptData;
          return;
        }
        content := Substr(packaged, d.offset, d.length);
      }
    }

    /** The dates of the first dates entry; without one they are all "no date". An entry with a bad end
        leaves them so, and the code that is returned does not tell. The length of the entry is not
        looked at: see TimesAreSaidIff. Behind the end of the file zeros are read. */
    method GetFileDatesInfo() returns (errorCode: Error)
      requires |packaged| >= HEADER && numEntries == Count(packaged)
      modifies `createTime, `modifyTime, `backupTime, `accessTime
      ensures errorCode == NoError
      ensures Times(createTime, modifyTime, backupTime, accessTime) == FetchedTimes(packaged, hasFileDatesInfo)
    {
      hide DescriptorAt, FirstWith, Count, Read32;
      createTime, modifyTime, backupTime, accessTime := NO_DATE, NO_DATE, NO_DATE, NO_DATE;
      errorCode := NoError;
      if hasFileDatesInfo {
        var found, d := FindEntry(FILE_DATES_INFO);
        if !found || (d.offset + d.length) % TWO32 > |packaged| {
          return;
        }
        createTime := Read32(packaged, d.offset);
        modifyTime := Read32(packaged, d.offset + 4);
        backupTime := Read32(packaged, d.offset + 8);
        accessTime := Read32(packaged, d.offset + 12);
      }
    }

    /** Nothing is kept of an entry that is absent. */
    predicate AbsentIsEmpty()
      reads `hasRealName, `hasFileDatesInfo, `hasResourceFork, `hasDataFork
      reads `createTime, `modifyTime, `backupTime, `accessTime, `realName, `resourceFork, `dataFork
    {
      && (!hasRealName ==> realName == []) && (!hasResourceFork ==> resourceFork == [])
      && (!hasDataFork ==> dataFork == [])
      && (!hasFileDatesInfo ==> createTime == modifyTime == backupTime == accessTime == NO_DATE)
    }

    /** Unpack: IsValid alone decides the error, an accepted container is read whole, and a refused one
        leaves the names, times and forks as they were. */
    method Unpack() returns (errorCode: Error)
      modifies this
      ensures packaged == old(packaged) && errorCode == Validity(packaged)
      ensures errorCode == NoError ==> AsFile() == FileOf(packaged) && AbsentIsEmpty() && numEntries == Count(packaged)
      ensures errorCode != NoError ==>
                && realName == old(realName) && resourceFork == old(resourceFork) && dataFork == old(dataFork)
                && Times(createTime, modifyTime, backupTime, accessTime)
                   == old(Times(createTime, modifyTime, backupTime, accessTime))
                && Flagged(packaged, Accepted(packaged), Flags())
    {
      hide Count, FormatOf, ContentOf, TimesOf, HasId, Accepted, FileOf, AbsentIsEmpty;
      errorCode := IsValid();
      if errorCode != NoError {
        return;
      }
      assert |packaged| >= HEADER && numEntries == Count(packaged) && format == FormatOf(packaged);
      hide *;
      errorCode := GetEntries();
      FieldsMakeFile();
    }

    /** The part of Unpack that follows the check. */
    method GetEntries() returns (errorCode: Error)
      requires |packaged| >= HEADER && Validity(packaged) == NoError && numEntries == Count(packaged)
      modifies `createTime, `modifyTime, `backupTime, `accessTime, `realName, `resourceFork, `dataFork
      ensures errorCode == NoError
      ensures Times(createTime, modifyTime, backupTime, accessTime) == FetchedTimes(packaged, hasFileDatesInfo)
      ensures realName == Fetched(packaged, hasRealName, REAL_NAME)
      ensures resourceFork == Fetched(packaged, hasResourceFork, RESOURCE_FORK)
      ensures dataFork == Fetched(packaged, hasDataFork, DATA_FORK)
    {
      hide *;
      AcceptedNeverFails(packaged, hasRealName, REAL_NAME);
      AcceptedNeverFails(packaged, hasResourceFork, RESOURCE_FORK);
      AcceptedNeverFails(packaged, hasDataFork, DATA_FORK);
      errorCode := GetFileDatesInfo();
      if errorCode != NoError {
        return;
      }
      errorCode, realName := GetContent(hasRealName, REAL_NAME);
      if errorCode != NoError {
        return;
      }
      errorCode, resourceFork := GetContent(hasResourceFork, RESOURCE_FORK);
      if errorCode != NoError {
        return;
      }
      errorCode, dataFork := GetContent(hasDataFork, DATA_FORK);
    }

    /** Once every field is what its getter makes of the container, the object describes its file. */
    lemma FieldsMakeFile()
      requires Validity(packaged) == NoError && |packaged| >= HEADER
      requires format == FormatOf(packaged) && Flagged(packaged, Accepted(packaged), Flags())
      requires Times(createTime, modifyTime, backupTime, accessTime) == FetchedTimes(packaged, hasFileDatesInfo)
      requires realName == Fetched(packaged, hasRealName, REAL_NAME)
      requires resourceFork == Fetched(packaged, hasResourceFork, RESOURCE_FORK)
      requires dataFork == Fetched(packaged, hasDataFork, DATA_FORK)
      ensures AsFile() == FileOf(packaged) && AbsentIsEmpty()
    {
      FetchedIsFile(packaged, Flags());
      hide Fetched, FetchedTimes, FileOf, Validity, Accepted, FormatOf, Count, HasId;
    }
  }

  /** The documented use: one object packs, another is given the bytes and unpacks them. The second
      then describes the first one's file, without the data fork in AppleDouble form. */
  method Transfer(from: DwAppleFile, to: DwAppleFile) returns (errorCode: Error)
    requires from != to && |Packed(from.format, Entries(from.AsFile()))| < TWO32
    modifies from, to
    ensures errorCode == NoError
    ensures from.AsFile() == old(from.AsFile()) && to.AsFile() == Carried(old(from.AsFile()))
    ensures to.AbsentIsEmpty()
  {
    hide Packed, Entries, Validity, FileOf, Carried;
    PackThenUnpack(from.AsFile());
    from.Pack();
    to.SetPackagedData(from.packaged);
    errorCode := to.Unpack();
  }
}
