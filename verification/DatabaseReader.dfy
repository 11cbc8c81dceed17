/** The C code that reads the database page, proved against what the page says. */
module DatabaseReader {
  import opened Bytes
  import opened Wrappers
  import opened NameCodec
  import opened Checksum
  import opened CStrings
  import opened Pages
  import opened FieldReader
  import opened Database

  /** isDatabase(). */
  method CheckDatabase(read: seq<byte>) returns (r: bool)
    requires |read| > PAGE_SIZE
    ensures r <==> IsDatabase(read)
  {
    var header: seq<byte> := ['A' as int, 'I' as int, 'D' as int, 'B' as int];
    r := Compare(header, read, 4);
    CStringIs(header + [0], 4 + 1, header);
    assert CString(header, 4) == header;
    assert header <= read <==> read[..4] == header;
    if !r || !(read[4] >= 16) || read[6] != 0xAA || read[7] != 0xBB {
      r := false;
    }
  }

  /** isProperDatabase(). */
  method CheckProper(read: seq<byte>) returns (r: bool)
    requires |read| > PAGE_SIZE
    ensures r <==> IsProper(read)
  {
    hide Decode, AppName, VendorName, DatabaseName;
    r := FieldStartsWith(read, 8, 12, AppName());
    if r {
      r := FieldStartsWith(read, 21, 24, VendorName());
    }
    if r {
      r := FieldStartsWith(read, 45, 24, DatabaseName());
    }
  }

  /** The tables that load_list() fills, one entry per base. */
  class BaseTables {
    const crcs: array<nat>
    const bases: array<nat>
    const packetSizes: array<nat>
    const spectSizes: array<nat>
    const spectsInBase: array<nat>
    const compressions: array<nat>

    ghost const Repr: set<object>

    ghost predicate Valid() {
      && crcs.Length == bases.Length == packetSizes.Length == spectSizes.Length == spectsInBase.Length == BASES
      && compressions.Length == BASES
      && crcs !in {bases, packetSizes, spectSizes, spectsInBase, compressions}
      && bases !in {packetSizes, spectSizes, spectsInBase, compressions}
      && packetSizes !in {spectSizes, spectsInBase, compressions}
      && spectSizes !in {spectsInBase, compressions} && spectsInBase != compressions
      && Repr == {crcs, bases, packetSizes, spectSizes, spectsInBase, compressions}
    }

    constructor ()
      ensures Valid() && fresh(Repr)
    {
      crcs, bases, packetSizes := new nat[BASES], new nat[BASES], new nat[BASES];
      spectSizes, spectsInBase, compressions := new nat[BASES], new nat[BASES], new nat[BASES];
      Repr := {crcs, bases, packetSizes, spectSizes, spectsInBase, compressions};
    }

    /** Entry `i` of every table is the field of the base. */
    ghost predicate HasBase(i: nat, b: Base)
      requires Valid() && i < BASES
      reads Repr
    {
      && bases[i] == b.addr && crcs[i] == b.crc && packetSizes[i] == b.packet && spectSizes[i] == b.spect
      && spectsInBase[i] == b.classes && compressions[i] == b.compression
    }

    ghost predicate HasBases(list: seq<Base>)
      requires Valid()
      reads Repr
      ensures HasBases(list) ==> |list| <= BASES
    {
      |list| <= BASES && forall i :: 0 <= i < |list| ==> HasBase(i, list[i])
    }
  }

  /** The record at `p`, without its name, goes to entry `n` of the tables. */
  method StoreBase(read: seq<byte>, p: nat, t: BaseTables, n: nat, ghost done: seq<Base>, ghost name: seq<byte>)
    requires t.Valid() && n == |done| < BASES && t.HasBases(done)
    requires p + BASE_RECORD <= |read| && Decode(read[p + 1..p + 13]) == Some(name)
    modifies t.Repr
    ensures BaseAt(read, p).Some? && t.HasBases(done + [BaseAt(read, p).value])
  {
    hide Decode, Value16, Value32;
    t.bases[n] := Read16(read, p + 13);
    t.crcs[n] := Read32(read, p + 15);
    t.packetSizes[n] := read[p + 19];
    t.spectSizes[n] := read[p + 20];
    t.spectsInBase[n] := read[p + 21];
    t.compressions[n] := read[p + 22];
  }

  function After(done: seq<Base>, w: Walk<Base>): (r: Walk<Base>)
    ensures if w.Walked? then r.Walked? else r == w
  {
    match w
    case Walked(items, end) => Walked(done + items, end)
    case other => other
  }

  lemma AfterOneMore(done: seq<Base>, b: Base, w: Walk<Base>)
    ensures After(done, Prepend(b, w)) == After(done + [b], w)
    ensures After([], w) == w
    ensures forall p :: After(done, Walked([], p)) == Walked(done, p)
  {
    if w.Walked? {
      assert done + ([b] + w.items) == done + [b] + w.items;
    }
    assert done + [] == done;
  }

  lemma {:induction false} ClassesAppend(bases: seq<Base>, b: Base)
    ensures Classes(bases + [b]) == Classes(bases) + b.classes as nat
  {
    if bases != [] {
      ClassesAppend(bases[1..], b);
      assert (bases + [b])[1..] == bases[1..] + [b];
    }
  }

  /** load_list(). The walk ends inside the memory that was loaded. */
  method LoadList(read: seq<byte>, t: BaseTables) returns (ok: bool, size: nat, decisions: nat)
    requires t.Valid() && ScanBases(read, LIST_START, BASES) != OffPage
    modifies t.Repr
    ensures var w := ScanBases(read, LIST_START, BASES);
            && (ok <==> ListOk(w))
            && (ok ==> size == |w.items| && decisions == Classes(w.items) && t.HasBases(w.items))
  {
    hide Decode, Value16, Value32, Classes, After, Loadable, BaseTables.HasBase;
    var p: nat := LIST_START;
    size, decisions := 0, 0;
    ghost var done: seq<Base> := [];
    ghost var whole := ScanBases(read, LIST_START, BASES);
    NoClasses();
    AfterOneMore([], Base([], 0, 0, 0, 0, 0, 0), whole);
    while read[p] == 'B' as int
      invariant p < |read| && size == |done| <= BASES && t.HasBases(done) && decisions == Classes(done)
      invariant whole == After(done, ScanBases(read, p, BASES - size))
      decreases |read| - p
    {
      if size >= BASES {
        return false, size, decisions;
      }
      var name := new byte[16];
      var unterminated := DecodeField(read, p + 1, 12, name, 0);
      if unterminated {
        return false, size, decisions;
      }
      StoreBase(read, p, t, size, done, Decode(read[p + 1..p + 13]).value);
      ghost var b := BaseAt(read, p).value;
      ClassesAppend(done, b);
      AfterOneMore(done, b, ScanBases(read, p + BASE_RECORD, BASES - size - 1));
      decisions := decisions + read[p + 21];
      var tooLarge := TooLarge(read[p + 20], read[p + 22], b);
      if tooLarge {
        return false, size, decisions;
      }
      done, size, p := done + [b], size + 1, p + BASE_RECORD;
    }
    AfterOneMore(done, Base([], 0, 0, 0, 0, 0, 0), whole);
    ok := decisions <= MAX_DECISIONS;
  }

  lemma NoClasses()
    ensures Classes([]) == 0
  {
  }

  /** The limit on the size of the spectrograms, by compression. */
  method TooLarge(spectSize: byte, compression: byte, ghost b: Base) returns (r: bool)
    requires spectSize == b.spect && compression == b.compression
    ensures r <==> !Loadable(b)
  {
    if compression == 1 {
      r := spectSize > 32 / 4;
    } else {
      r := spectSize > 32 / 2;
    }
  }

  /** make_linker_table(): sixteen name slots of sixteen bytes. */
  method MakeLinkerTable(linkers: array<nat>)
    requires linkers.Length >= LABEL_SLOTS
    modifies linkers
    ensures forall n :: 0 <= n < LABEL_SLOTS ==> linkers[n] == 16 * n
  {
    var ptr: nat := 0;
    for n := 0 to LABEL_SLOTS
      invariant ptr == 16 * n && forall k :: 0 <= k < n ==> linkers[k] == 16 * k
    {
      linkers[n] := ptr;
      ptr := ptr + 16;
    }
  }

  /** The labels that have a prepared slot are in it. */
  ghost predicate HasLabels(memory: seq<byte>, labels: seq<Label>) {
    forall i :: 0 <= i < |labels| && i < LABEL_SLOTS ==> |labels[i]| < 16 && Holds(memory, 16 * i, labels[i])
  }

  /**
   One label goes to its slot; the labels before it stay. What the source stores through a pointer that was
   never set is taken to land in memory of no concern here.
   */
  method ReadLabel(read: seq<byte>, p: nat, buffer: array<byte>, linkers: array<nat>, ghost done: seq<Label>, named: nat)
    returns (unterminated: bool)
    requires p + LABEL_RECORD <= |read| && buffer.Length == 16 * MAX_DECISIONS && named == |done|
    requires linkers.Length >= LABEL_SLOTS && (forall n :: 0 <= n < LABEL_SLOTS ==> linkers[n] == 16 * n)
    requires HasLabels(buffer[..], done)
    modifies buffer
    ensures unterminated <==> Decode(read[p + 1..p + 13]).None?
    ensures !unterminated ==> HasLabels(buffer[..], done + [Decode(read[p + 1..p + 13]).value])
  {
    hide Decode, Holds;
    ghost var before := buffer[..];
    if named < LABEL_SLOTS {
      unterminated := DecodeField(read, p + 1, 12, buffer, linkers[named]);
      forall i | 0 <= i < |done| ensures Holds(buffer[..], 16 * i, done[i]) {
        NameStays(buffer[..], before, i, |done|, done[i]);
      }
    } else {
      var elsewhere := new byte[16];
      unterminated := DecodeField(read, p + 1, 12, elsewhere, 0);
      assert buffer[..] == before;
    }
  }

  function AfterLabels(done: seq<Label>, w: Linkers): (r: Linkers) {
    match w
    case Linked(labels, classes) => Linked(done + labels, classes)
    case other => other
  }

  lemma AfterOneLabel(done: seq<Label>, l: Label, w: Linkers)
    ensures AfterLabels(done, PrependLabel(l, w)) == AfterLabels(done + [l], w)
    ensures AfterLabels([], w) == w
    ensures forall n :: AfterLabels(done, Linked([], n)) == Linked(done, n)
  {
    if w.Linked? {
      assert done + ([l] + w.labels) == done + [l] + w.labels;
    }
    assert done + [] == done;
  }

  /** load_linker_list(). The walk ends inside the loaded memory. */
  method LoadLinkerList(read: seq<byte>, buffer: array<byte>, linkers: array<nat>) returns (ok: bool)
    requires buffer.Length == 16 * MAX_DECISIONS && linkers.Length >= LABEL_SLOTS
    requires forall n :: 0 <= n < LABEL_SLOTS ==> linkers[n] == 16 * n
    requires ScanLinkers(read, LIST_START, 0, 0) != Outside
    modifies buffer
    ensures var w := ScanLinkers(read, LIST_START, 0, 0);
            && (ok <==> LinkersOk(w))
            && (ok ==> HasLabels(buffer[..], w.labels))
  {
    hide Decode, HasLabels;
    var p: nat, seen: nat, classes: nat, named: nat := LIST_START, 0, 0, 0;
    ghost var done: seq<Label> := [];
    ghost var whole := ScanLinkers(read, LIST_START, 0, 0);
    NoLabels(buffer[..]);
    AfterOneLabel([], [], whole);
    while read[p] == 'B' as int || read[p] == 'L' as int
      invariant p < |read| && named == |done| && HasLabels(buffer[..], done)
      invariant whole == AfterLabels(done, ScanLinkers(read, p, seen, classes))
      decreases |read| - p
    {
      if read[p] == 'B' as int {
        if seen >= BASES {
          return false;
        }
        p := p + 21;
        classes := classes + read[p];
        p := p + 2;
        seen := seen + 1;
      } else {
        if classes > MAX_DECISIONS {
          return false;
        }
        var unterminated := ReadLabel(read, p, buffer, linkers, done, named);
        if unterminated {
          return false;
        }
        ghost var l := Decode(read[p + 1..p + 13]).value;
        AfterOneLabel(done, l, ScanLinkers(read, p + LABEL_RECORD, seen, classes));
        done, named, p := done + [l], named + 1, p + LABEL_RECORD;
      }
    }
    AfterOneLabel(done, [], whole);
    ok := named == classes;
  }

  lemma NoLabels(memory: seq<byte>)
    ensures HasLabels(memory, [])
  {
  }

  datatype DetectorStatus = DetectorOk | FileError | DiskError | CantDetect | BadConfig

  /** The status of readDatabase() for a database that starts at block `start`. */
  function DatabaseStatus(start: u32, loaded: bool, read: seq<byte>): (r: DetectorStatus)
    requires |read| > PAGE_SIZE
  {
    if start * 16 % TWO_32 >= 0xFFFF then FileError
    else if !loaded then DiskError
    else if IsDatabase(read) && IsProper(read) && ListOk(ScanBases(read, LIST_START, BASES)) && ChecksumMatches(read)
    then DetectorOk
    else FileError
  }

  /** readDatabase(). */
  method ReadDatabase(start: u32, loaded: bool, read: seq<byte>, t: BaseTables)
    returns (status: DetectorStatus, size: nat, decisions: nat)
    requires |read| > PAGE_SIZE && t.Valid() && ScanBases(read, LIST_START, BASES) != OffPage
    modifies t.Repr
    ensures status == DatabaseStatus(start, loaded, read)
    ensures var w := ScanBases(read, LIST_START, BASES);
            status == DetectorOk ==>
              w.Walked? && size == |w.items| && decisions == Classes(w.items) <= MAX_DECISIONS && t.HasBases(w.items)
  {
    hide ScanBases, IsDatabase, IsProper, Classes, Sum, BaseTables.HasBases, BaseTables.Valid;
    size, decisions := 0, 0;
    var position := start * 16 % TWO_32;
    if !(position < 0xFFFF) {
      return FileError, size, decisions;
    }
    if !loaded {
      return DiskError, size, decisions;
    }
    status := FileError;
    var database := CheckDatabase(read);
    if database {
      var proper := CheckProper(read);
      if proper {
        var ok;
        ok, size, decisions := LoadList(read, t);
        if ok {
          var csum := ControlCountSum(read, PAGE_SIZE);
          status := if read[PAGE_SIZE] == csum then DetectorOk else FileError;
        }
      }
    }
  }
}
