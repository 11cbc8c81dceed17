/** The AIFS directory page: its Python writer, its two C readers, and what they agree on. */
module Filesystem {
  import opened Bytes
  import opened Wrappers
  import opened NameCodec
  import opened Checksum
  import opened Pages

  datatype File = File(name: seq<byte>, addr: nat, len: nat)

  datatype Status = FsOk | NoFs | FsError | NoDisk | Exists | NotExists

  const TABLE_START: nat := 29
  const RECORD: nat := 17

  // ---- The page as the writer lays it out ----

  function FileRecord(f: File): (r: seq<byte>) {
    ['F' as int] + Encode(f.name, 16) + TwoBytes(f.addr) + TwoBytes(f.len)
  }

  function Records(files: seq<File>): (r: seq<byte>) {
    if files == [] then [] else FileRecord(files[0]) + Records(files[1..])
  }

  function FsName(): (r: Text)
    ensures IsName(r) && |r| == 11
  {
    ['S' as int, 'p' as int, 'e' as int, 'e' as int, 'c' as int, 'h' as int,
     'F' as int, 'i' as int, 'l' as int, 'e' as int, 's' as int]
  }

  function Header(): (r: seq<byte>) {
    ['A' as int, 'I' as int, 'F' as int, 'S' as int, 16] + Encode(FsName(), 32)
  }

  function Directory(files: seq<File>): (r: seq<byte>) {
    PadTo(Header() + Records(files) + ['E' as int], PAGE_SIZE)
  }

  function Page(files: seq<File>): (r: seq<byte>) {
    var fs := Directory(files);
    PadTo(fs + [Sum(fs)], 512 * 16)
  }

  /** A file that the format can hold. */
  predicate IsFile(f: File) {
    IsName(f.name) && |f.name| < 16 && f.addr < 0x1_0000 && f.len < 0x1_0000
  }

  // ---- The page as the readers see it ----

  /** What a walk over the file records ends in. */
  datatype Scan =
    | Listed(files: seq<File>)    // all records up to the end mark
    | BadName(files: seq<File>)   // a name without terminator
    | BadTag                      // neither a file nor the end mark
    | Overrun                     // more files than the caller has room for
    | OffPage                     // no end before the end of the memory that was loaded

  function Prepend(f: File, s: Scan): (r: Scan) {
    match s
    case Listed(files) => Listed([f] + files)
    case BadName(files) => BadName([f] + files)
    case other => other
  }

  function ScanFiles(page: seq<byte>, index: nat, room: nat): (r: Scan)
    decreases |page| - index
  {
    if index >= |page| then OffPage
    else if page[index] == 'E' as int then Listed([])
    else if page[index] != 'F' as int then BadTag
    else if index + RECORD > |page| then OffPage
    else
      match Decode(page[index + 1..index + 13])
      case None => BadName([])
      case Some(name) =>
        if room == 0 then Overrun
        else Prepend(File(name, Value16(page, index + 13), Value16(page, index + 15)),
                     ScanFiles(page, index + RECORD, room - 1))
  }

  predicate IsFilesystem(page: seq<byte>)
    requires |page| > PAGE_SIZE
  {
    page[..4] == ['A' as int, 'I' as int, 'F' as int, 'S' as int] && page[4] <= 16
  }

  predicate IsProper(page: seq<byte>)
    requires |page| > PAGE_SIZE
  {
    var name := Decode(page[5..29]);
    name.Some? && FsName() <= name.value
  }

  predicate ChecksumMatches(page: seq<byte>)
    requires |page| > PAGE_SIZE
  {
    Sum(page[..PAGE_SIZE]) == page[PAGE_SIZE]
  }

  /**
   The status that ends a walk of Read_file_system. On a name without terminator the source returns
   DATA_FALSE, which is the number of FILE_SYSTEM_OK.
   */
  function ScanStatus(page: seq<byte>, walk: Scan): (r: Status)
    requires |page| > PAGE_SIZE
  {
    match walk
    case Listed(_) => if ChecksumMatches(page) then FsOk else FsError
    case BadName(_) => FsOk
    case _ => FsError
  }

  /** The status of Read_file_system on a loaded page. */
  function ReadStatus(page: seq<byte>, size: nat): (r: Status)
    requires |page| > PAGE_SIZE
  {
    if !IsFilesystem(page) then NoFs
    else if !IsProper(page) then FsError
    else ScanStatus(page, ScanFiles(page, TABLE_START, size))
  }

  // ---- Round trip ----

  lemma HeaderFacts()
    ensures |Header()| == TABLE_START
    ensures Header()[5..29] == Encode(FsName(), 32) && Decode(Header()[5..29]) == Some(FsName())
  {
    hide Encode, Decode, FsName;
    NameRoundTrip(FsName(), 32);
    assert Header()[5..29] == Encode(FsName(), 32);
  }

  lemma RecordFacts(f: File)
    requires IsFile(f)
    ensures |FileRecord(f)| == RECORD && FileRecord(f)[0] == 'F' as int
    ensures Decode(FileRecord(f)[1..13]) == Some(f.name)
    ensures Value16(FileRecord(f), 13) == f.addr && Value16(FileRecord(f), 15) == f.len
  {
    hide Encode, Decode;
    NameRoundTrip(f.name, 16);
    assert FileRecord(f)[1..13] == Encode(f.name, 16);
  }

  predicate AreFiles(files: seq<File>) {
    forall i :: 0 <= i < |files| ==> IsFile(files[i])
  }

  lemma {:induction false} RecordsLength(files: seq<File>)
    requires AreFiles(files)
    ensures |Records(files)| == RECORD * |files|
  {
    if files != [] {
      RecordFacts(files[0]);
      RecordsLength(files[1..]);
    }
  }

  /** What a walk reads at `index` are the bytes of the record that lies there. */
  lemma RecordAt(page: seq<byte>, index: nat, next: nat, record: seq<byte>)
    requires |record| == RECORD && next == index + RECORD <= |page| && page[index..next] == record
    ensures page[index] == record[0] && page[index + 1..index + 13] == record[1..13]
    ensures Value16(page, index + 13) == Value16(record, 13) && Value16(page, index + 15) == Value16(record, 15)
  {
    var cut := page[index..next];
    PartOfPart(page, index, next, index + 1, index + 13);
    assert page[index + 13] == cut[13] && page[index + 14] == cut[14];
    assert page[index + 15] == cut[15] && page[index + 16] == cut[16];
  }

  /** The first record and the rest of written records. */
  lemma FirstRecord(page: seq<byte>, index: nat, next: nat, end: nat, files: seq<File>)
    requires AreFiles(files) && files != [] && next == index + RECORD && end == index + RECORD * |files| <= |page|
    requires page[index..end] == Records(files)
    ensures |FileRecord(files[0])| == RECORD && page[index..next] == FileRecord(files[0])
    ensures next <= end && page[next..end] == Records(files[1..])
  {
    hide FileRecord;
    RecordFacts(files[0]);
    RecordsLength(files[1..]);
    var block, record, rest := page[index..end], FileRecord(files[0]), Records(files[1..]);
    assert block == record + rest;
    assert page[index..next] == block[..RECORD];
    assert page[next..end] == block[RECORD..];
  }

  /** How a walk over written records ends, by the tag behind them. */
  lemma {:induction false} ScanToTag(page: seq<byte>, index: nat, files: seq<File>, room: nat)
    requires AreFiles(files) && index + RECORD * |files| < |page|
    requires page[index..index + RECORD * |files|] == Records(files)
    requires page[index + RECORD * |files|] != 'F' as int
    ensures ScanFiles(page, index, room)
            == if room < |files| then Overrun
               else if page[index + RECORD * |files|] == 'E' as int then Listed(files) else BadTag
    decreases files
  {
    hide Decode, FileRecord, Records, Value16;
    if files != [] {
      var f, rest, next := files[0], files[1..], index + RECORD;
      RecordFacts(f);
      FirstRecord(page, index, next, index + RECORD * |files|, files);
      RecordAt(page, index, next, FileRecord(f));
      if room > 0 {
        ScanToTag(page, next, rest, room - 1);
      }
    }
  }

  /** A walk over written records finds what was written. */
  lemma {:induction false} ScanWritten(page: seq<byte>, index: nat, files: seq<File>, room: nat)
    requires AreFiles(files) && |files| <= room
    requires index + RECORD * |files| < |page|
    requires page[index..index + RECORD * |files|] == Records(files)
    requires page[index + RECORD * |files|] == 'E' as int
    ensures ScanFiles(page, index, room) == Listed(files)
  {
    hide Records, ScanFiles;
    ScanToTag(page, index, files, room);
  }

  /** The written page: header, records, end mark, and the checksum where the readers look for it. */
  lemma PageFacts(files: seq<File>)
    requires AreFiles(files) && |files| <= 28
    ensures |Directory(files)| == PAGE_SIZE && |Page(files)| == 8192
    ensures Page(files)[..PAGE_SIZE] == Directory(files) && Page(files)[PAGE_SIZE] == Sum(Directory(files))
    ensures Page(files)[..TABLE_START] == Header()
    ensures Page(files)[TABLE_START..TABLE_START + RECORD * |files|] == Records(files)
    ensures Page(files)[TABLE_START + RECORD * |files|] == 'E' as int
  {
    hide Header, Records, Sum;
    HeaderFacts();
    RecordsLength(files);
    var content, n := Header() + Records(files) + ['E' as int], TABLE_START + RECORD * |files|;
    assert content <= Directory(files) <= Page(files);
    assert Header() + Records(files) + [] + ['E' as int] == content;
    Parts(Page(files), Header(), Records(files), [], 'E' as int, n, n);
  }

  /** What every reader checks before it walks the records of a written page. */
  lemma PageIsProper(files: seq<File>)
    requires AreFiles(files) && |files| <= 28
    ensures |Page(files)| > PAGE_SIZE
    ensures IsFilesystem(Page(files)) && IsProper(Page(files)) && ChecksumMatches(Page(files))
  {
    hide Page, Directory, Encode, Decode, Sum, FsName;
    PageFacts(files);
    HeaderFacts();
    var page := Page(files);
    assert page[5..29] == page[..TABLE_START][5..29];
    assert page[..4] == page[..TABLE_START][..4];
  }

  /** Any list of at most 28 files that fits the caller's room is read back exactly, with status OK. */
  lemma DirectoryRoundTrip(files: seq<File>, size: nat)
    requires AreFiles(files) && |files| <= 28 && |files| <= size
    ensures |Page(files)| > PAGE_SIZE
    ensures ScanFiles(Page(files), TABLE_START, size) == Listed(files)
    ensures ReadStatus(Page(files), size) == FsOk
  {
    hide Page, Records, IsFilesystem, IsProper, ChecksumMatches;
    PageFacts(files);
    PageIsProper(files);
    ScanWritten(Page(files), TABLE_START, files, size);
  }

  /** The writer's page has its checksum at the place the readers look for it exactly up to 28 files. */
  lemma DirectoryFitsIff(files: seq<File>)
    requires AreFiles(files)
    ensures |Directory(files)| == PAGE_SIZE <==> |files| <= 28
  {
    hide Header, Records;
    HeaderFacts();
    RecordsLength(files);
  }

  // ---- What damage does to the status ----

  lemma {:induction false} RecordsPrefix(files: seq<File>, k: nat)
    requires AreFiles(files) && k <= |files|
    ensures RECORD * k <= |Records(files)| && Records(files)[..RECORD * k] == Records(files[..k])
  {
    hide FileRecord;
    RecordsLength(files);
    if k > 0 {
      var f, rest := files[0], files[1..];
      RecordFacts(f);
      RecordsPrefix(rest, k - 1);
      assert files[..k][1..] == rest[..k - 1];
      assert Records(files)[..RECORD * k] == FileRecord(f) + Records(rest)[..RECORD * (k - 1)];
    }
  }

  /** A written page with its checksum or a tag overwritten: header and records before the tag are good. */
  lemma Overwritten(files: seq<File>, at: nat, k: nat, v: byte)
    requires AreFiles(files) && |files| <= 28 && k <= |files|
    requires at == PAGE_SIZE || at == TABLE_START + RECORD * k
    ensures |Page(files)| > PAGE_SIZE
    ensures var bad := Page(files)[at := v];
            && IsFilesystem(bad) && IsProper(bad)
            && bad[TABLE_START..TABLE_START + RECORD * k] == Records(files[..k])
  {
    hide Page, Directory, Records, Decode, FsName;
    PageFacts(files);
    PageIsProper(files);
    RecordsPrefix(files, k);
    var page, n := Page(files), TABLE_START + RECORD * k;
    var bad := page[at := v];
    assert bad[..4] == page[..4] && bad[5..29] == page[5..29];
    assert bad[TABLE_START..n] == page[TABLE_START..n];
    assert page[TABLE_START..n] == page[TABLE_START..TABLE_START + RECORD * |files|][..RECORD * k];
  }

  /** More files than the caller has room for, a wrong checksum and a foreign tag are errors of the file system. */
  lemma {:induction false} DamageIsError(files: seq<File>, size: nat, k: nat, v: byte)
    requires AreFiles(files) && |files| <= 28 && k <= |files|
    ensures |Page(files)| > PAGE_SIZE
    ensures size < |files| ==> ReadStatus(Page(files), size) == FsError
    ensures v != Page(files)[PAGE_SIZE] ==> ReadStatus(Page(files)[PAGE_SIZE := v], size) == FsError
    ensures v != 'E' as int && v != 'F' as int ==>
              ReadStatus(Page(files)[TABLE_START + RECORD * k := v], size) == FsError
  {
    hide Page, Directory, Records, IsFilesystem, IsProper, ScanFiles, Sum;
    PageFacts(files);
    PageIsProper(files);
    ScanToTag(Page(files), TABLE_START, files, size);
    if v != Page(files)[PAGE_SIZE] {
      Overwritten(files, PAGE_SIZE, |files|, v);
      assert files[..|files|] == files;
      var bad := Page(files)[PAGE_SIZE := v];
      ScanToTag(bad, TABLE_START, files, size);
      assert bad[..PAGE_SIZE] == Page(files)[..PAGE_SIZE];
    }
    if v != 'E' as int && v != 'F' as int {
      var at := TABLE_START + RECORD * k;
      Overwritten(files, at, k, v);
      ScanToTag(Page(files)[at := v], TABLE_START, files[..k], size);
    }
  }

  /** Of the first five bytes of a written page only the version may be another one: an earlier one. */
  lemma HeaderByteDecides(files: seq<File>, i: nat, v: byte, size: nat)
    requires AreFiles(files) && |files| <= 28 && i < 5
    ensures |Page(files)| > PAGE_SIZE
    ensures IsFilesystem(Page(files)[i := v]) <==> v == Page(files)[i] || (i == 4 && v < Page(files)[4])
    ensures !IsFilesystem(Page(files)[i := v]) ==> ReadStatus(Page(files)[i := v], size) == NoFs
  {
    hide Page;
    PageFacts(files);
    PageIsProper(files);
    var page := Page(files);
    assert page[4] == page[..TABLE_START][4] == Header()[4] == 16;
    if i < 4 {
      assert page[i := v][..4][i] == v && page[..4][i] == page[i];
      assert v == page[i] ==> page[i := v] == page;
    } else {
      assert page[i := v][..4] == page[..4];
    }
  }

  /** A page in which another name stands is good exactly if that name starts like the expected one. */
  lemma NameDecides(page: seq<byte>, name: Text, size: nat)
    requires |page| > PAGE_SIZE && IsFilesystem(page) && IsName(name) && |name| < 32
    requires page[5..29] == Encode(name, 32)
    ensures IsProper(page) <==> FsName() <= name
    ensures !(FsName() <= name) ==> ReadStatus(page, size) == FsError
  {
    hide Encode, Decode, FsName, IsFilesystem;
    NameRoundTrip(name, 32);
  }

  /**
   The tag of a file and the end mark have the same number of set bits: an end mark in place of a tag cuts the
   directory short there, and the checksum does not show it.
   */
  lemma {:induction false} EndMarkCutsShort(files: seq<File>, size: nat, k: nat)
    requires AreFiles(files) && |files| <= 28 && k < |files| && k <= size
    ensures |Page(files)| > PAGE_SIZE
    ensures var bad := Page(files)[TABLE_START + RECORD * k := 'E' as int];
            ReadStatus(bad, size) == FsOk && ScanFiles(bad, TABLE_START, size) == Listed(files[..k])
  {
    hide Page, Directory, Records, IsFilesystem, IsProper, ScanFiles, TotalOnes;
    var at, page := TABLE_START + RECORD * k, Page(files);
    PageFacts(files);
    PageIsProper(files);
    Overwritten(files, at, k, 'E' as int);
    var bad := page[at := 'E' as int];
    ScanToTag(bad, TABLE_START, files[..k], size);
    TagOfRecord(files, k);
    assert page[at] == page[TABLE_START..TABLE_START + RECORD * |files|][RECORD * k];
    TotalOnesUpdate(page[..PAGE_SIZE], at, 'E' as int);
    assert bad[..PAGE_SIZE] == page[..PAGE_SIZE][at := 'E' as int];
    TagsHaveEqualOnes();
  }

  lemma {:induction false} TagOfRecord(files: seq<File>, k: nat)
    requires AreFiles(files) && k < |files|
    ensures RECORD * k < |Records(files)| && Records(files)[RECORD * k] == 'F' as int
  {
    hide FileRecord;
    RecordsLength(files);
    RecordFacts(files[0]);
    assert Records(files) == FileRecord(files[0]) + Records(files[1..]);
    if k > 0 {
      TagOfRecord(files[1..], k - 1);
      assert Records(files)[RECORD * k] == Records(files[1..])[RECORD * (k - 1)];
    }
  }

  lemma TagsHaveEqualOnes()
    ensures Ones('E' as int) == Ones('F' as int) == 3
  {
    assert Ones(1) == 1 && Ones(2) == Ones(1) && Ones(4) == Ones(2) && Ones(8) == Ones(4) && Ones(17) == 1 + Ones(8);
    assert Ones(34) == Ones(17) && Ones(69) == 1 + Ones(34) && Ones(35) == 1 + Ones(17) && Ones(70) == Ones(35);
  }

  // ---- File_exists ----

  datatype Found = Hit(addr: nat, len: nat) | Miss | NameError | TagError | RanOff

  /** The first record whose name starts with the query. */
  function Lookup(page: seq<byte>, index: nat, query: seq<byte>): (r: Found)
    decreases |page| - index
  {
    if index >= |page| then RanOff
    else if page[index] == 'E' as int then Miss
    else if page[index] != 'F' as int then TagError
    else if index + RECORD > |page| then RanOff
    else
      match Decode(page[index + 1..index + 13])
      case None => NameError
      case Some(name) =>
        if query <= name then Hit(Value16(page, index + 13), Value16(page, index + 15))
        else Lookup(page, index + RECORD, query)
  }

  function FoundStatus(page: seq<byte>, found: Found): (r: Status)
    requires |page| > PAGE_SIZE
  {
    match found
    case Hit(_, _) => if ChecksumMatches(page) then Exists else FsError
    case Miss => if ChecksumMatches(page) then NotExists else FsError
    case NameError => FsOk
    case _ => FsError
  }

  /** The status of File_exists on a loaded page. */
  function ExistsStatus(page: seq<byte>, query: seq<byte>): (r: Status)
    requires |page| > PAGE_SIZE
  {
    if !IsFilesystem(page) then NoFs
    else if !IsProper(page) then FsError
    else FoundStatus(page, Lookup(page, TABLE_START, query))
  }

  /** A wrong checksum is an error for File_exists too, whether it finds the name or not. */
  lemma WrongChecksumIsError(files: seq<File>, query: seq<byte>, v: byte)
    requires AreFiles(files) && |files| <= 28
    ensures |Page(files)| > PAGE_SIZE
    ensures v != Page(files)[PAGE_SIZE] ==> ExistsStatus(Page(files)[PAGE_SIZE := v], query) == FsError
  {
    hide Page, Directory, Records, IsFilesystem, IsProper, Lookup, Sum, FirstMatch;
    PageFacts(files);
    if v != Page(files)[PAGE_SIZE] {
      Overwritten(files, PAGE_SIZE, |files|, v);
      assert files[..|files|] == files;
      var bad := Page(files)[PAGE_SIZE := v];
      LookupWritten(bad, TABLE_START, files, query);
      assert bad[..PAGE_SIZE] == Page(files)[..PAGE_SIZE];
    }
  }

  /** The first file that the query is a prefix of. */
  function FirstMatch(files: seq<File>, query: seq<byte>): (r: Option<nat>)
    ensures r.Some? ==> r.value < |files| && query <= files[r.value].name
    ensures forall i :: 0 <= i < |files| && (r.None? || i < r.value) ==> !(query <= files[i].name)
  {
    if files == [] then None
    else if query <= files[0].name then Some(0)
    else
      match FirstMatch(files[1..], query)
      case None => None
      case Some(i) => Some(i + 1)
  }

  lemma {:induction false} LookupWritten(page: seq<byte>, index: nat, files: seq<File>, query: seq<byte>)
    requires AreFiles(files) && index + RECORD * |files| < |page|
    requires page[index..index + RECORD * |files|] == Records(files)
    requires page[index + RECORD * |files|] == 'E' as int
    ensures var m := FirstMatch(files, query);
            Lookup(page, index, query) == if m.None? then Miss else Hit(files[m.value].addr, files[m.value].len)
    decreases files
  {
    hide Decode, FileRecord, Records, Value16;
    if files != [] {
      var f, rest, next := files[0], files[1..], index + RECORD;
      RecordFacts(f);
      FirstRecord(page, index, next, index + RECORD * |files|, files);
      RecordAt(page, index, next, FileRecord(f));
      LookupWritten(page, next, rest, query);
    }
  }

  /** On a written page, File_exists finds the first entry that the query is a prefix of, and no other. */
  lemma LookupRoundTrip(files: seq<File>, query: seq<byte>)
    requires AreFiles(files) && |files| <= 28
    ensures |Page(files)| > PAGE_SIZE
    ensures var m := FirstMatch(files, query);
            && ExistsStatus(Page(files), query) == (if m.None? then NotExists else Exists)
            && (m.Some? ==> Lookup(Page(files), TABLE_START, query) == Hit(files[m.value].addr, files[m.value].len))
  {
    hide Page, Records, IsFilesystem, IsProper, ChecksumMatches, FirstMatch;
    PageFacts(files);
    PageIsProper(files);
    LookupWritten(Page(files), TABLE_START, files, query);
  }
}
