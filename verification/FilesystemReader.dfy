/** The C code that reads the directory page, proved against what the page says. */
module FilesystemReader {
  import opened Bytes
  import opened NameCodec
  import opened Checksum
  import opened CStrings
  import opened Pages
  import opened FieldReader
  import opened Filesystem

  /** Is_filesystem(). */
  method CheckFilesystem(read: seq<byte>) returns (r: bool)
    requires |read| > PAGE_SIZE
    ensures r <==> IsFilesystem(read)
  {
    var header: seq<byte> := ['A' as int, 'I' as int, 'F' as int, 'S' as int];
    r := Compare(header, read, 4);
    CStringIs(header + [0], 4 + 1, header);
    assert CString(header, 4) == header;
    assert header <= read <==> read[..4] == header;
    if r {
      r := read[4] <= 16;
    }
  }

  lemma FsNameHasNoZero()
    ensures forall i :: 0 <= i < |FsName()| ==> 0 < FsName()[i] < 256
  {
  }

  /** isProperFilesystem(). */
  method CheckProper(read: seq<byte>) returns (r: bool)
    requires |read| > PAGE_SIZE
    ensures r <==> IsProper(read)
  {
    hide Decode, FsName;
    FsNameHasNoZero();
    r := FieldStartsWith(read, 5, 24, FsName());
  }

  /** The status that the readers return at the end of a walk over all records. */
  method CheckSum(read: seq<byte>) returns (r: bool)
    requires |read| > PAGE_SIZE
    ensures r <==> ChecksumMatches(read)
  {
    hide Sum;
    var csum := ControlCountSum(read, PAGE_SIZE);
    r := csum == read[PAGE_SIZE];
  }

  /** The caller's list: for every slot an address, a length and sixteen bytes for a name. */
  class FileList {
    const names: array<byte>
    const addrs: array<nat>
    const lens: array<nat>

    ghost predicate Valid()
      reads this
    {
      addrs != lens && addrs.Length == lens.Length && names.Length == 16 * addrs.Length
    }

    constructor (slots: nat)
      ensures Valid() && addrs.Length == slots && fresh(names) && fresh(addrs) && fresh(lens)
    {
      names, addrs, lens := new byte[16 * slots], new nat[slots], new nat[slots];
    }

    /** Slot `i` holds a file. */
    ghost predicate HasFile(i: nat, f: File)
      requires Valid() && i < addrs.Length
      reads this, names, addrs, lens
    {
      Holds(names[..], 16 * i, f.name) && |f.name| < 16 && addrs[i] == f.addr && lens[i] == f.len
    }

    /** The first slots hold exactly these files. */
    ghost predicate HasFiles(files: seq<File>)
      requires Valid()
      reads this, names, addrs, lens
    {
      |files| <= addrs.Length && forall i :: 0 <= i < |files| ==> HasFile(i, files[i])
    }
  }

  /** The name, the address and the length of the record at `index`, written to slot `recv`. */
  method ReadRecord(list: FileList, read: seq<byte>, index: nat, recv: nat, ghost done: seq<File>)
    returns (unterminated: bool)
    requires list.Valid() && recv == |done| < list.addrs.Length && list.HasFiles(done)
    requires index + RECORD <= |read|
    modifies list.names, list.addrs, list.lens
    ensures unterminated <==> Decode(read[index + 1..index + 13]).None?
    ensures !unterminated ==>
              list.HasFiles(done + [File(Decode(read[index + 1..index + 13]).value,
                                         Value16(read, index + 13), Value16(read, index + 15))])
    ensures unterminated ==> list.HasFiles(done)
  {
    hide Decode, Holds, Value16;
    ghost var before := list.names[..];
    unterminated := DecodeField(read, index + 1, 12, list.names, 16 * recv);
    forall i | 0 <= i < recv ensures list.HasFile(i, done[i]) {
      NameStays(list.names[..], before, i, recv, done[i].name);
    }
    if !unterminated {
      list.addrs[recv] := Read16(read, index + 13);
      list.lens[recv] := Read16(read, index + 15);
    }
  }

  function After(done: seq<File>, s: Scan): (r: Scan) {
    match s
    case Listed(files) => Listed(done + files)
    case BadName(files) => BadName(done + files)
    case other => other
  }

  lemma AfterOneMore(done: seq<File>, f: File, s: Scan)
    ensures After(done, Prepend(f, s)) == After(done + [f], s)
    ensures After([], s) == s
  {
    if s.Listed? || s.BadName? {
      assert done + ([f] + s.files) == done + [f] + s.files;
    }
  }

  /** The walk of Read_file_system() over the file records. */
  method WalkRecords(read: seq<byte>, list: FileList, size: nat, recv0: nat) returns (status: Status, recv: nat)
    requires |read| > PAGE_SIZE && list.Valid() && ScanFiles(read, TABLE_START, size) != OffPage
    requires size < list.addrs.Length || (size == list.addrs.Length && ScanFiles(read, TABLE_START, size).Listed?)
    modifies list.names, list.addrs, list.lens
    ensures status == ScanStatus(read, ScanFiles(read, TABLE_START, size))
    ensures match ScanFiles(read, TABLE_START, size)
            case Listed(files) => recv == |files| && list.HasFiles(files)
            case BadName(files) => recv == recv0 && list.HasFiles(files)
            case _ => recv == recv0
  {
    hide Decode, ChecksumMatches, Value16, FileList.HasFile;
    var index, count := TABLE_START, 0;
    ghost var done: seq<File> := [];
    ghost var whole := ScanFiles(read, TABLE_START, size);
    AfterOneMore([], File([], 0, 0), whole);
    while true
      invariant index <= |read| && count == |done| <= size && list.HasFiles(done)
      invariant whole == After(done, ScanFiles(read, index, size - count))
      decreases |read| - index
    {
      if read[index] == 'E' as int {
        assert done + [] == done;
        var matches := CheckSum(read);
        return if matches then FsOk else FsError, count;
      }
      if read[index] != 'F' as int {
        return FsError, recv0;
      }
      var unterminated := ReadRecord(list, read, index, count, done);
      if unterminated {
        assert done + [] == done;
        return FsOk, recv0;
      }
      if count + 1 > size {
        return FsError, recv0;
      }
      ghost var f := File(Decode(read[index + 1..index + 13]).value, Value16(read, index + 13), Value16(read, index + 15));
      AfterOneMore(done, f, ScanFiles(read, index + RECORD, size - count - 1));
      done, count, index := done + [f], count + 1, index + RECORD;
    }
  }

  /**
   Read_file_system(). A list with exactly as many slots as declared is enough for a page that ends in its
   end mark in time; otherwise the source stores one record more before it finds that there are too many.
   The records end in the memory that was loaded.
   */
  method ReadFileSystem(loaded: bool, read: seq<byte>, list: FileList, size: nat, recv0: nat)
    returns (status: Status, recv: nat)
    requires |read| > PAGE_SIZE && list.Valid() && ScanFiles(read, TABLE_START, size) != OffPage
    requires size < list.addrs.Length || (size == list.addrs.Length && ScanFiles(read, TABLE_START, size).Listed?)
    modifies list.names, list.addrs, list.lens
    ensures status == if loaded then ReadStatus(read, size) else NoDisk
    ensures var walk := ScanFiles(read, TABLE_START, size);
            if loaded && IsFilesystem(read) && IsProper(read) && walk.Listed?
            then recv == |walk.files| && list.HasFiles(walk.files)
            else recv == recv0
  {
    hide ScanFiles, IsFilesystem, IsProper, FileList.HasFiles, ScanStatus;
    if !loaded {
      return NoDisk, recv0;
    }
    var formatted := CheckFilesystem(read);
    if !formatted {
      return NoFs, recv0;
    }
    var proper := CheckProper(read);
    if !proper {
      return FsError, recv0;
    }
    status, recv := WalkRecords(read, list, size, recv0);
  }

  /** The walk of File_exists(), which keeps the last record it decoded in the first slot of `list`. */
  method FindRecord(read: seq<byte>, name: seq<byte>, entry0: (nat, nat)) returns (status: Status, entry: (nat, nat))
    requires |read| > PAGE_SIZE && (16 <= |name| || 0 in name)
    requires Lookup(read, TABLE_START, CString(name, 16)) != RanOff
    ensures var found := Lookup(read, TABLE_START, CString(name, 16));
            status == FoundStatus(read, found) && (found.Hit? ==> entry == (found.addr, found.len))
  {
    hide Decode, ChecksumMatches, Value16;
    var index := TABLE_START;
    entry := entry0;
    ghost var query := CString(name, 16);
    CStringFits(name, 16);
    while true
      invariant index <= |read|
      invariant Lookup(read, TABLE_START, query) == Lookup(read, index, query)
      decreases |read| - index
    {
      if read[index] == 'E' as int {
        var matches := CheckSum(read);
        return if matches then NotExists else FsError, entry;
      }
      if read[index] != 'F' as int {
        return FsError, entry;
      }
      var buffer := new byte[16];
      var unterminated := DecodeField(read, index + 1, 12, buffer, 0);
      if unterminated {
        return FsOk, entry;
      }
      var addr := Read16(read, index + 13);
      var len := Read16(read, index + 15);
      entry := (addr, len);
      var same := Compare(name, buffer[..], 16);
      PrefixOfHeld(query, buffer[..], Decode(read[index + 1..index + 13]).value);
      if same {
        var matches := CheckSum(read);
        return if matches then Exists else FsError, entry;
      }
      index := index + RECORD;
    }
  }

  lemma {:induction false} CStringFits(s: seq<byte>, size: nat)
    requires size <= |s| || 0 in s
    ensures size <= |s| || |CString(s, size)| < |s|
  {
    if size != 0 && s[0] != 0 {
      CStringFits(s[1..], size - 1);
    }
  }

  /** File_exists(): the first entry that the query is a prefix of. */
  method FileExists(loaded: bool, read: seq<byte>, name: seq<byte>, entry0: (nat, nat))
    returns (status: Status, entry: (nat, nat))
    requires |read| > PAGE_SIZE && (16 <= |name| || 0 in name)
    requires Lookup(read, TABLE_START, CString(name, 16)) != RanOff
    ensures status == if loaded then ExistsStatus(read, CString(name, 16)) else NoDisk
    ensures var found := Lookup(read, TABLE_START, CString(name, 16));
            status == Exists ==> found == Hit(entry.0, entry.1)
  {
    hide Lookup, IsFilesystem, IsProper, CString, ChecksumMatches;
    if !loaded {
      return NoDisk, entry0;
    }
    var formatted := CheckFilesystem(read);
    if !formatted {
      return NoFs, entry0;
    }
    var proper := CheckProper(read);
    if !proper {
      return FsError, entry0;
    }
    status, entry := FindRecord(read, name, entry0);
  }
}
