/** The AIDB database page: its Python writer, the two C walks over it, and what they agree on. */
module Database {
  import opened Bytes
  import opened Wrappers
  import opened NameCodec
  import opened Checksum
  import opened Pages

  datatype Base = Base(name: seq<byte>, addr: nat, crc: nat, packet: byte, spect: byte, classes: byte, compression: byte)

  type Label = seq<byte>

  const LIST_START: nat := 70
  const BASE_RECORD: nat := 23
  const LABEL_RECORD: nat := 13
  const BASES: nat := 8
  const MAX_DECISIONS: nat := 32
  const LABEL_SLOTS: nat := 16
  const COMPARER_MEMORY: nat := 32

  // ---- The page as the writer lays it out ----

  function BaseRecord(b: Base): (r: seq<byte>) {
    ['B' as int] + Encode(b.name, 16) + TwoBytes(b.addr) + FourBytes(b.crc)
    + [b.packet, b.spect, b.classes, b.compression]
  }

  function LabelRecord(l: Label): (r: seq<byte>) {
    ['L' as int] + Encode(l, 16)
  }

  function BaseRecords(bases: seq<Base>): (r: seq<byte>) {
    if bases == [] then [] else BaseRecord(bases[0]) + BaseRecords(bases[1..])
  }

  function LabelRecords(labels: seq<Label>): (r: seq<byte>) {
    if labels == [] then [] else LabelRecord(labels[0]) + LabelRecords(labels[1..])
  }

  function AppName(): (r: Text)
    ensures IsName(r) && |r| == 8 && forall i :: 0 <= i < |r| ==> 0 < r[i] < 256
  {
    ['S' as int, 'p' as int, 'e' as int, 'e' as int, 'c' as int, 'h' as int, 'A' as int, 'I' as int]
  }

  function VendorName(): (r: Text)
    ensures IsName(r) && |r| == 18 && forall i :: 0 <= i < |r| ==> 0 < r[i] < 256
  {
    ['P' as int, 'o' as int, 'l' as int, 'i' as int, 't' as int, 'e' as int, 'c' as int, 'h' as int, 'n' as int,
     'i' as int, 'k' as int, 'a' as int, ' ' as int, 'W' as int, 'a' as int, 'r' as int, 's' as int, 'z' as int]
  }

  function DatabaseName(): (r: Text)
    ensures IsName(r) && |r| == 6 && forall i :: 0 <= i < |r| ==> 0 < r[i] < 256
  {
    ['S' as int, 'p' as int, 'e' as int, 'e' as int, 'c' as int, 'h' as int]
  }

  function Header(): (r: seq<byte>) {
    ['A' as int, 'I' as int, 'D' as int, 'B' as int, 16, 0, 0xAA, 0xBB] + Encode(AppName(), 16)
    + [17] + Encode(VendorName(), 32) + Encode(DatabaseName(), 32) + [1]
  }

  function Content(bases: seq<Base>, labels: seq<Label>): (r: seq<byte>) {
    PadTo(Header() + BaseRecords(bases) + LabelRecords(labels) + ['F' as int], PAGE_SIZE)
  }

  function Page(bases: seq<Base>, labels: seq<Label>): (r: seq<byte>) {
    var content := Content(bases, labels);
    PadTo(content + [Sum(content)], 512 * 256)
  }

  // ---- The page as the two walks see it ----

  /** A base whose spectrograms the comparer's memory holds: unpacked they take two or four times their size. */
  predicate Loadable(b: Base) {
    b.spect * (if b.compression == 1 then 4 else 2) <= COMPARER_MEMORY
  }

  /** The base record at `p`, if its name is terminated. */
  function BaseAt(page: seq<byte>, p: nat): (r: Option<Base>)
    requires p + BASE_RECORD <= |page|
  {
    match Decode(page[p + 1..p + 13])
    case None => None
    case Some(name) => Some(Base(name, Value16(page, p + 13), Value32(page, p + 15),
                                 page[p + 19], page[p + 20], page[p + 21], page[p + 22]))
  }

  /** How a walk ends: at the end mark or the first foreign record, in an error, or outside the loaded memory. */
  datatype Walk<T> = Walked(items: seq<T>, end: nat) | Failed | OffPage

  function Prepend<T>(x: T, w: Walk<T>): (r: Walk<T>) {
    match w
    case Walked(items, end) => Walked([x] + items, end)
    case other => other
  }

  /** The walk of load_list(), which decodes every field. */
  function ScanBases(page: seq<byte>, p: nat, room: nat): (r: Walk<Base>)
    decreases |page| - p
  {
    if p >= |page| then OffPage
    else if page[p] != 'B' as int then Walked([], p)
    else if room == 0 then Failed
    else if p + BASE_RECORD > |page| then OffPage
    else
      var b := BaseAt(page, p);
      if b.None? || !Loadable(b.value) then Failed
      else Prepend(b.value, ScanBases(page, p + BASE_RECORD, room - 1))
  }

  /** How the walk of load_linker_list() ends. */
  datatype Linkers = Linked(labels: seq<Label>, classes: nat) | Refused | Outside

  function PrependLabel(l: Label, w: Linkers): (r: Linkers) {
    match w
    case Linked(labels, classes) => Linked([l] + labels, classes)
    case other => other
  }

  /** The walk of load_linker_list(), which skips over base records to their class count. */
  function ScanLinkers(page: seq<byte>, p: nat, seen: nat, classes: nat): (r: Linkers)
    decreases |page| - p
  {
    if p >= |page| then Outside
    else if page[p] == 'B' as int then
      if seen >= BASES then Refused
      else if p + 21 >= |page| then Outside
      else ScanLinkers(page, p + 21 + 2, seen + 1, classes + page[p + 21] as nat)
    else if page[p] == 'L' as int then
      if classes > MAX_DECISIONS then Refused
      else if p + LABEL_RECORD > |page| then Outside
      else
        match Decode(page[p + 1..p + 13])
        case None => Refused
        case Some(l) => PrependLabel(l, ScanLinkers(page, p + LABEL_RECORD, seen, classes))
    else Linked([], classes)
  }

  function Classes(bases: seq<Base>): (n: nat) {
    if bases == [] then 0 else bases[0].classes as nat + Classes(bases[1..])
  }

  lemma ClassesAt(page: seq<byte>, p: nat)
    requires p + BASE_RECORD <= |page| && BaseAt(page, p).Some?
    ensures BaseAt(page, p).value.classes == page[p + 21]
  {
  }

  /**
   On every page, the walk that skips and the walk that decodes leave the base records at the same
   place, after the same number of records and with the same number of classes.
   */
  lemma {:induction false} WalksMeet(page: seq<byte>, p: nat, seen: nat, classes: nat)
    requires seen <= BASES && ScanBases(page, p, BASES - seen).Walked?
    ensures var w := ScanBases(page, p, BASES - seen);
            && w.end == p + BASE_RECORD * |w.items| < |page| && page[w.end] != 'B' as int && seen + |w.items| <= BASES
            && ScanLinkers(page, p, seen, classes)
               == ScanLinkers(page, w.end, seen + |w.items|, classes + Classes(w.items))
    decreases |page| - p
  {
    hide Decode, Value16, Value32, BaseAt, Loadable;
    var w := ScanBases(page, p, BASES - seen);
    if page[p] == 'B' as int {
      var rest := ScanBases(page, p + BASE_RECORD, BASES - seen - 1);
      var b := BaseAt(page, p).value;
      assert w == Prepend(b, rest) && w.items[1..] == rest.items;
      ClassesAt(page, p);
      WalksMeet(page, p + BASE_RECORD, seen + 1, classes + b.classes as nat);
    }
  }

  // ---- Round trip ----

  predicate IsLabel(l: Label) {
    IsName(l) && |l| < 16
  }

  /** A base that the format can hold. */
  predicate IsBase(b: Base) {
    IsLabel(b.name) && b.addr < 0x1_0000 && b.crc < TWO_32
  }

  /** In numbers: eight at compression one, and sixteen otherwise. */
  lemma LoadableIff(b: Base)
    ensures Loadable(b) <==> b.spect <= if b.compression == 1 then 8 else 16
  {
  }

  predicate AreBases(bases: seq<Base>) {
    forall i :: 0 <= i < |bases| ==> IsBase(bases[i])
  }

  predicate AreLabels(labels: seq<Label>) {
    forall i :: 0 <= i < |labels| ==> IsLabel(labels[i])
  }

  lemma BaseRecordFacts(b: Base)
    requires IsBase(b)
    ensures |BaseRecord(b)| == BASE_RECORD && BaseRecord(b)[0] == 'B' as int && BaseRecord(b)[21] == b.classes
    ensures BaseAt(BaseRecord(b), 0) == Some(b)
  {
    hide Encode, Decode;
    NameRoundTrip(b.name, 16);
    var r := BaseRecord(b);
    assert r[1..13] == Encode(b.name, 16);
    assert r[13] == TwoBytes(b.addr)[0] && r[14] == TwoBytes(b.addr)[1];
    assert r[15] == FourBytes(b.crc)[0] && r[16] == FourBytes(b.crc)[1];
    assert r[17] == FourBytes(b.crc)[2] && r[18] == FourBytes(b.crc)[3];
    FourBytesValue(b.crc, r);
  }

  lemma FourBytesValue(v: nat, r: seq<byte>)
    requires v < TWO_32 && |r| >= 19
    requires r[15] == FourBytes(v)[0] && r[16] == FourBytes(v)[1] && r[17] == FourBytes(v)[2] && r[18] == FourBytes(v)[3]
    ensures Value32(r, 15) == v
  {
    var high, low := v / 0x1_0000, v % 0x1_0000;
    assert FourBytes(v)[0] == TwoBytes(high)[0] && FourBytes(v)[1] == TwoBytes(high)[1];
    assert FourBytes(v)[2] == TwoBytes(low)[0] && FourBytes(v)[3] == TwoBytes(low)[1];
    assert Value16(r, 15) == high && Value16(r, 17) == low;
  }

  lemma LabelRecordFacts(l: Label)
    requires IsLabel(l)
    ensures |LabelRecord(l)| == LABEL_RECORD && LabelRecord(l)[0] == 'L' as int
    ensures Decode(LabelRecord(l)[1..13]) == Some(l)
  {
    hide Encode, Decode;
    NameRoundTrip(l, 16);
    assert LabelRecord(l)[1..13] == Encode(l, 16);
  }

  lemma {:induction false} BaseRecordsLength(bases: seq<Base>)
    requires AreBases(bases)
    ensures |BaseRecords(bases)| == BASE_RECORD * |bases|
  {
    if bases != [] {
      BaseRecordFacts(bases[0]);
      BaseRecordsLength(bases[1..]);
    }
  }

  lemma {:induction false} LabelRecordsLength(labels: seq<Label>)
    requires AreLabels(labels)
    ensures |LabelRecords(labels)| == LABEL_RECORD * |labels|
  {
    if labels != [] {
      LabelRecordFacts(labels[0]);
      LabelRecordsLength(labels[1..]);
    }
  }

  predicate AllLoadable(bases: seq<Base>) {
    forall i :: 0 <= i < |bases| ==> Loadable(bases[i])
  }

  /** What is decoded at `p` depends on the record's bytes alone. */
  lemma BaseAtSlice(page: seq<byte>, p: nat, record: seq<byte>)
    requires |record| == BASE_RECORD && p + BASE_RECORD <= |page| && page[p..p + BASE_RECORD] == record
    ensures BaseAt(page, p) == BaseAt(record, 0) && page[p] == record[0]
  {
    hide Decode;
    var next := p + BASE_RECORD;
    var at := page[p..next];
    PartOfPart(page, p, next, p + 1, p + 13);
    assert forall i {:trigger record[i]} :: 0 <= i < BASE_RECORD ==> page[p + i] == at[i] == record[i];
    assert page[p + 13] == record[13] && page[p + 14] == record[14] && page[p + 15] == record[15];
    assert page[p + 16] == record[16] && page[p + 17] == record[17] && page[p + 18] == record[18];
    assert page[p + 19] == record[19] && page[p + 20] == record[20] && page[p + 21] == record[21];
  }

  /** The decoding walk over written records: it returns them all, or fails on too many or too large ones. */
  lemma {:induction false} ScanBasesWritten(page: seq<byte>, p: nat, bases: seq<Base>, room: nat)
    requires AreBases(bases) && p + BASE_RECORD * |bases| < |page|
    requires page[p..p + BASE_RECORD * |bases|] == BaseRecords(bases)
    requires page[p + BASE_RECORD * |bases|] != 'B' as int
    ensures ScanBases(page, p, room)
            == if |bases| <= room && AllLoadable(bases) then Walked(bases, p + BASE_RECORD * |bases|) else Failed
    decreases bases
  {
    hide Decode, BaseRecord, BaseAt, Loadable;
    if bases != [] {
      var b, rest, next := bases[0], bases[1..], p + BASE_RECORD;
      BaseRecordFacts(b);
      BaseRecordsLength(rest);
      var block := page[p..p + BASE_RECORD * |bases|];
      assert block == BaseRecord(b) + BaseRecords(rest);
      assert page[p..next] == block[..BASE_RECORD] == BaseRecord(b);
      BaseAtSlice(page, p, BaseRecord(b));
      assert page[next..next + BASE_RECORD * |rest|] == BaseRecords(rest);
      if room > 0 {
        ScanBasesWritten(page, next, rest, room - 1);
        assert AllLoadable(bases) <==> Loadable(b) && AllLoadable(rest) by {
          assert forall i :: 0 < i < |bases| ==> bases[i] == rest[i - 1];
        }
      }
    }
  }

  /** The label part of the skipping walk. */
  lemma {:induction false} ScanLabelsWritten(page: seq<byte>, p: nat, labels: seq<Label>, seen: nat, classes: nat)
    requires AreLabels(labels) && p + LABEL_RECORD * |labels| < |page| && classes <= MAX_DECISIONS
    requires page[p..p + LABEL_RECORD * |labels|] == LabelRecords(labels)
    requires page[p + LABEL_RECORD * |labels|] == 'F' as int
    ensures ScanLinkers(page, p, seen, classes) == Linked(labels, classes)
    decreases labels
  {
    hide Decode, LabelRecord;
    if labels != [] {
      var l, rest, next := labels[0], labels[1..], p + LABEL_RECORD;
      LabelRecordFacts(l);
      LabelRecordsLength(rest);
      var block := page[p..p + LABEL_RECORD * |labels|];
      assert block == LabelRecord(l) + LabelRecords(rest);
      assert page[p..next] == block[..LABEL_RECORD] == LabelRecord(l);
      assert page[p + 1..p + 13] == page[p..next][1..13];
      assert page[p] == page[p..next][0];
      assert page[next..next + LABEL_RECORD * |rest|] == LabelRecords(rest);
      ScanLabelsWritten(page, next, rest, seen, classes);
    }
  }

  // ---- The readers' verdict on a page ----

  predicate IsDatabase(page: seq<byte>)
    requires |page| > PAGE_SIZE
  {
    page[..4] == ['A' as int, 'I' as int, 'D' as int, 'B' as int] && page[4] >= 16 && page[6] == 0xAA && page[7] == 0xBB
  }

  predicate FieldIs(page: seq<byte>, at: nat, size: nat, name: Text)
    requires at + size <= |page|
  {
    Decode(page[at..at + size]).Some? && name <= Decode(page[at..at + size]).value
  }

  predicate IsProper(page: seq<byte>)
    requires |page| > PAGE_SIZE
  {
    FieldIs(page, 8, 12, AppName()) && FieldIs(page, 21, 24, VendorName()) && FieldIs(page, 45, 24, DatabaseName())
  }

  predicate ChecksumMatches(page: seq<byte>)
    requires |page| > PAGE_SIZE
  {
    Sum(page[..PAGE_SIZE]) == page[PAGE_SIZE]
  }

  /** load_list() succeeds. */
  predicate ListOk(w: Walk<Base>) {
    w.Walked? && Classes(w.items) <= MAX_DECISIONS
  }

  /** load_linker_list() succeeds. */
  predicate LinkersOk(w: Linkers) {
    w.Linked? && |w.labels| == w.classes
  }

  /** All that the firmware checks before it uses a database. */
  predicate Accepted(page: seq<byte>)
    requires |page| > PAGE_SIZE
  {
    && IsDatabase(page) && IsProper(page) && ChecksumMatches(page)
    && ListOk(ScanBases(page, LIST_START, BASES)) && LinkersOk(ScanLinkers(page, LIST_START, 0, 0))
  }

  /** Where the records end. */
  function EndOf(bases: seq<Base>, labels: seq<Label>): (p: nat) {
    LIST_START + BASE_RECORD * |bases| + LABEL_RECORD * |labels|
  }

  lemma HeaderFacts()
    ensures |Header()| == LIST_START
    ensures Header()[8..20] == Encode(AppName(), 16) && Header()[21..45] == Encode(VendorName(), 32)
    ensures Header()[45..69] == Encode(DatabaseName(), 32)
  {
    hide Encode, AppName, VendorName, DatabaseName;
    NameRoundTrip(AppName(), 16);
    NameRoundTrip(VendorName(), 32);
    NameRoundTrip(DatabaseName(), 32);
    var h := Header();
    assert h[8..20] == Encode(AppName(), 16);
    assert h[21..45] == Encode(VendorName(), 32);
    assert h[45..69] == Encode(DatabaseName(), 32);
  }

  /** The database page can hold these records. */
  predicate Fits(bases: seq<Base>, labels: seq<Label>) {
    AreBases(bases) && AreLabels(labels) && EndOf(bases, labels) < PAGE_SIZE
  }

  lemma PageFacts(bases: seq<Base>, labels: seq<Label>)
    requires Fits(bases, labels)
    ensures |Content(bases, labels)| == PAGE_SIZE && |Page(bases, labels)| == 131072
    ensures Page(bases, labels)[..PAGE_SIZE] == Content(bases, labels)
    ensures Page(bases, labels)[PAGE_SIZE] == Sum(Content(bases, labels))
    ensures Page(bases, labels)[..LIST_START] == Header()
    ensures var middle := LIST_START + BASE_RECORD * |bases|;
            && Page(bases, labels)[LIST_START..middle] == BaseRecords(bases)
            && Page(bases, labels)[middle..EndOf(bases, labels)] == LabelRecords(labels)
            && Page(bases, labels)[EndOf(bases, labels)] == 'F' as int
  {
    hide Header, BaseRecords, LabelRecords, Sum;
    HeaderFacts();
    BaseRecordsLength(bases);
    LabelRecordsLength(labels);
    var all := Header() + BaseRecords(bases) + LabelRecords(labels) + ['F' as int];
    var page, middle, end := Page(bases, labels), LIST_START + BASE_RECORD * |bases|, EndOf(bases, labels);
    assert all <= Content(bases, labels) <= page;
    Parts(page, Header(), BaseRecords(bases), LabelRecords(labels), 'F' as int, middle, end);
  }

  lemma PageIsProper(bases: seq<Base>, labels: seq<Label>)
    requires Fits(bases, labels)
    ensures |Page(bases, labels)| > PAGE_SIZE
    ensures IsDatabase(Page(bases, labels)) && IsProper(Page(bases, labels)) && ChecksumMatches(Page(bases, labels))
  {
    hide Page, Content, Encode, Decode, Sum, AppName, VendorName, DatabaseName;
    PageFacts(bases, labels);
    HeaderFacts();
    NameRoundTrip(AppName(), 16);
    NameRoundTrip(VendorName(), 32);
    NameRoundTrip(DatabaseName(), 32);
    var page := Page(bases, labels);
    var h := page[..LIST_START];
    assert page[8..20] == h[8..20] && page[21..45] == h[21..45] && page[45..69] == h[45..69];
    assert page[..4] == h[..4] && page[4] == h[4] && page[6] == h[6] && page[7] == h[7];
  }

  /**
   What the two walks find on a written page. With more classes than the firmware has decisions for,
   the label walk is not reached.
   */
  lemma WrittenWalks(page: seq<byte>, bases: seq<Base>, labels: seq<Label>, middle: nat)
    requires AreBases(bases) && AreLabels(labels)
    requires middle == LIST_START + BASE_RECORD * |bases| && middle + LABEL_RECORD * |labels| < |page|
    requires page[LIST_START..middle] == BaseRecords(bases)
    requires page[middle..middle + LABEL_RECORD * |labels|] == LabelRecords(labels)
    requires page[middle + LABEL_RECORD * |labels|] == 'F' as int
    ensures ScanBases(page, LIST_START, BASES)
            == if |bases| <= BASES && AllLoadable(bases) then Walked(bases, middle) else Failed
    ensures |bases| <= BASES && AllLoadable(bases) && Classes(bases) <= MAX_DECISIONS ==>
              ScanLinkers(page, LIST_START, 0, 0) == Linked(labels, Classes(bases))
  {
    hide ScanBases, BaseRecords, LabelRecords, Classes, AllLoadable, ScanLinkers, IsBase, IsLabel;
    FirstLabelByte(page, middle, labels);
    ScanBasesWritten(page, LIST_START, bases, BASES);
    if |bases| <= BASES && AllLoadable(bases) && Classes(bases) <= MAX_DECISIONS {
      WrittenLabels(page, bases, labels, middle);
    }
  }

  /** The skipping walk reaches the end of the base records with their class count. */
  lemma BasesSkipped(page: seq<byte>, bases: seq<Base>, middle: nat)
    requires ScanBases(page, LIST_START, BASES) == Walked(bases, middle)
    ensures ScanLinkers(page, LIST_START, 0, 0) == ScanLinkers(page, middle, |bases|, Classes(bases))
  {
    hide ScanBases, Classes, ScanLinkers;
    WalksMeet(page, LIST_START, 0, 0);
  }

  lemma WrittenLabels(page: seq<byte>, bases: seq<Base>, labels: seq<Label>, middle: nat)
    requires AreLabels(labels) && Classes(bases) <= MAX_DECISIONS
    requires ScanBases(page, LIST_START, BASES) == Walked(bases, middle) && middle + LABEL_RECORD * |labels| < |page|
    requires page[middle..middle + LABEL_RECORD * |labels|] == LabelRecords(labels)
    requires page[middle + LABEL_RECORD * |labels|] == 'F' as int
    ensures ScanLinkers(page, LIST_START, 0, 0) == Linked(labels, Classes(bases))
  {
    hide ScanBases, LabelRecords, Classes, ScanLinkers, AreLabels;
    BasesSkipped(page, bases, middle);
    ScanLabelsWritten(page, middle, labels, |bases|, Classes(bases));
  }

  /** The first byte after the base records is the tag of a label or the end mark. */
  lemma FirstLabelByte(page: seq<byte>, p: nat, labels: seq<Label>)
    requires AreLabels(labels) && p + LABEL_RECORD * |labels| < |page|
    requires page[p..p + LABEL_RECORD * |labels|] == LabelRecords(labels)
    requires page[p + LABEL_RECORD * |labels|] == 'F' as int
    ensures page[p] != 'B' as int
  {
    hide LabelRecord;
    if labels != [] {
      LabelRecordFacts(labels[0]);
      assert page[p] == page[p..p + LABEL_RECORD * |labels|][0] == LabelRecord(labels[0])[0];
    }
  }

  /**
   A written database is read back field by field and label by label, and is accepted exactly when it has
   at most eight loadable bases whose class counts add up to the number of labels, which is at most 32.
   */
  lemma DatabaseRoundTrip(bases: seq<Base>, labels: seq<Label>)
    requires Fits(bases, labels)
    ensures |Page(bases, labels)| > PAGE_SIZE
    ensures Accepted(Page(bases, labels)) <==>
            |bases| <= BASES && AllLoadable(bases) && Classes(bases) == |labels| <= MAX_DECISIONS
    ensures Accepted(Page(bases, labels)) ==>
            && ScanBases(Page(bases, labels), LIST_START, BASES).items == bases
            && ScanLinkers(Page(bases, labels), LIST_START, 0, 0).labels == labels
  {
    hide Page, Content, ScanBases, ScanLinkers, Classes, AllLoadable, IsDatabase, IsProper, ChecksumMatches, Header,
      BaseRecords, LabelRecords, IsLabel, IsBase;
    PageFacts(bases, labels);
    PageIsProper(bases, labels);
    WrittenWalks(Page(bases, labels), bases, labels, LIST_START + BASE_RECORD * |bases|);
  }

  /** The database of the script: two bases of eight classes, their spectrograms five at compression one. */
  lemma ScriptsDatabaseIsAccepted(bases: seq<Base>, labels: seq<Label>)
    requires |bases| == 2 && AreBases(bases) && |labels| == 16 && AreLabels(labels)
    requires forall i :: 0 <= i < 2 ==> bases[i].spect == 5 && bases[i].classes == 8 && bases[i].compression == 1
    ensures |Page(bases, labels)| > PAGE_SIZE && Accepted(Page(bases, labels))
  {
    hide Page, Accepted;
    assert bases == [bases[0], bases[1]] && bases[1..] == [bases[1]];
    assert Classes([bases[1]]) == 8 + Classes([]);
    DatabaseRoundTrip(bases, labels);
  }

  /**
   Of the first eight bytes of a written page one is never looked at, the version may be a later one, and any
   other change makes the page no database.
   */
  lemma HeaderByteDecides(bases: seq<Base>, labels: seq<Label>, i: nat, v: byte)
    requires Fits(bases, labels) && i < 8
    ensures |Page(bases, labels)| > PAGE_SIZE
    ensures IsDatabase(Page(bases, labels)[i := v]) <==>
            i == 5 || v == Page(bases, labels)[i] || (i == 4 && v > Page(bases, labels)[4])
  {
    hide Page, Header;
    PageFacts(bases, labels);
    PageIsProper(bases, labels);
    var page := Page(bases, labels);
    assert page[4] == page[..LIST_START][4] == Header()[4] == 16 by {
      HeaderVersion();
    }
    assert page[..4] == ['A' as int, 'I' as int, 'D' as int, 'B' as int];
    if i < 4 {
      assert page[i := v][..4][i] == v && page[..4][i] == page[i];
      assert v == page[i] ==> page[i := v] == page;
    } else {
      assert page[i := v][..4] == page[..4];
    }
  }

  /** A page in which other names stand is good exactly if each of them starts like the expected one. */
  lemma NamesDecide(page: seq<byte>, app: Text, vendor: Text, name: Text)
    requires |page| > PAGE_SIZE && IsName(app) && IsName(vendor) && IsName(name)
    requires page[8..20] == Encode(app, 16) && page[21..45] == Encode(vendor, 32) && page[45..69] == Encode(name, 32)
    ensures IsProper(page) <==> AppName() <= app && VendorName() <= vendor && DatabaseName() <= name
  {
    hide Encode, Decode, AppName, VendorName, DatabaseName;
    NameRoundTrip(app, 16);
    NameRoundTrip(vendor, 32);
    NameRoundTrip(name, 32);
  }

  /** The first base record that the script writes, byte by byte. */
  lemma ScriptsFirstRecord()
    ensures BaseRecord(Base(['t' as nat, 'i' as nat, 'e' as nat, 'r' as nat, '0' as nat], 1, 0x055F_B764, 64, 5, 8, 1))
            == ['B' as int, 0xDE, 0xCA, 0x35, 0x03, 0xFF, 0xFF, 0xFF, 0xFF, 0xFF, 0xFF, 0xFF, 0xFF,
                0, 1, 0x05, 0x5F, 0xB7, 0x64, 64, 5, 8, 1]
  {
    hide Encode;
    ScriptsName();
  }

  lemma HeaderVersion()
    ensures |Header()| == LIST_START && Header()[4] == 16
  {
    HeaderFacts();
  }

  /** An accepted database with one bit inverted, in the records or in the checksum byte, is refused. */
  lemma OneBitErrorsAreRefused(page: seq<byte>, i: nat, k: nat)
    requires |page| > PAGE_SIZE && Accepted(page) && i <= PAGE_SIZE && k < 8
    ensures !Accepted(Corrupt(page, i, k))
  {
    hide Sum, IsDatabase, IsProper, ScanBases, ScanLinkers;
    var bad, checked := Corrupt(page, i, k), page[..PAGE_SIZE + 1];
    assert checked[..PAGE_SIZE] == page[..PAGE_SIZE];
    SingleBitErrorsAreDetected(checked, i, k);
    assert bad[..PAGE_SIZE + 1] == Corrupt(checked, i, k);
    assert bad[..PAGE_SIZE] == bad[..PAGE_SIZE + 1][..PAGE_SIZE];
  }
}
