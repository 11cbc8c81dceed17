/** What one inverted bit on the directory page does to its two readers. */
module BitErrors {
  import opened Bits
  import opened Bytes
  import opened Checksum
  import opened NameCodec
  import opened Pages
  import opened Filesystem
  import opened Wrappers

  // ---- One bit of a byte ----

  lemma FlipStep(b: nat, k: nat)
    ensures if k == 0 then Flip(b, k) / 2 == b / 2 && Flip(b, k) % 2 == 1 - b % 2
            else Flip(b, k) / 2 == Flip(b / 2, k - 1) && Flip(b, k) % 2 == b % 2
  {
  }

  /** Two numbers differ on one side of a cut only: above it if `high`, below it otherwise. */
  predicate DifferAt(b: nat, c: nat, high: bool, m: nat)
    requires m > 0
  {
    if high then c / m != b / m && c % m == b % m else c / m == b / m && c % m != b % m
  }

  /** From a cut of the halves to the cut one bit higher of the numbers. */
  lemma DifferTwice(b: nat, c: nat, k: nat, high: bool, m: nat)
    requires m > 0 && c == Flip(b, k)
    requires if k == 0 then !high else DifferAt(b / 2, c / 2, high, m)
    ensures DifferAt(b, c, high, 2 * m)
  {
    hide Flip;
    FlipStep(b, k);
    Halve(b, m);
    Halve(c, m);
  }

  /** An inverted bit changes either the high or the low part of a number, and leaves the other one. */
  lemma {:induction false} FlipSplit(b: nat, k: nat, s: nat)
    ensures DifferAt(b, Flip(b, k), k >= s, Pow2(s))
  {
    hide Flip, Pow2, DifferAt;
    if s == 0 {
      Pow2Next(0);
      DifferAtOne(b, Flip(b, k));
    } else {
      Pow2Next(s - 1);
      FlipStep(b, k);
      if k > 0 {
        FlipSplit(b / 2, k - 1, s - 1);
      }
      DifferTwice(b, Flip(b, k), k, k >= s, Pow2(s - 1));
    }
  }

  lemma DifferAtOne(b: nat, c: nat)
    requires b != c
    ensures DifferAt(b, c, true, 1)
  {
  }

  /** The cuts of a byte that the codec makes. */
  lemma FlipParts(b: byte, k: nat, c: nat)
    requires k < 8 && c == Flip(b, k)
    ensures if k < 2 then c / 4 == b / 4 && c % 4 != b % 4 else c / 4 != b / 4 && c % 4 == b % 4
    ensures if k < 4 then c / 16 == b / 16 && c % 16 != b % 16 else c / 16 != b / 16 && c % 16 == b % 16
    ensures if k < 6 then c / 64 == b / 64 && c % 64 != b % 64 else c / 64 != b / 64 && c % 64 == b % 64
  {
    hide Flip, Pow2;
    SmallPowers();
    FlipSplit(b, k, 2);
    FlipSplit(b, k, 4);
    FlipSplit(b, k, 6);
  }

  lemma SmallPowers()
    ensures Pow2(2) == 4 && Pow2(4) == 16 && Pow2(6) == 64
  {
    Pow2Next(0);
    Pow2Next(1);
    Pow2Next(2);
    Pow2Next(3);
    WordSizes();
  }

  // ---- One bit of a packed name ----

  /** The sextet that bit `k` of byte `p` belongs to. */
  function SextetOf(p: nat, k: nat): (t: nat)
    requires k < 8
    ensures t / 4 == p / 3
  {
    4 * (p / 3) + if p % 3 == 0 then (if k < 2 then 1 else 0)
                  else if p % 3 == 1 then (if k < 4 then 2 else 1)
                  else if k < 6 then 3 else 2
  }

  /** Two numbers with a high part and a low part of `m` values, one of which differs. */
  lemma Parts2(h: nat, l: nat, g: nat, r: nat, m: nat)
    requires l < m && r < m && (h != g || l != r)
    ensures h * m + l != g * m + r
  {
    if h * m + l == g * m + r {
      DivModUnique(h * m + l, m, h, l);
      DivModUnique(g * m + r, m, g, r);
    }
  }

  /** One inverted bit of three bytes changes exactly one of their four sextets. */
  lemma TripleOneBit(d: seq<byte>, e: seq<byte>, p: nat, k: nat)
    requires |d| == 3 && p < 3 && k < 8 && e == Corrupt(d, p, k)
    ensures var x, y := UnpackTriple(d[0], d[1], d[2]), UnpackTriple(e[0], e[1], e[2]);
            forall u :: 0 <= u < 4 ==> (x[u] != y[u] <==> u == SextetOf(p, k))
  {
    hide Flip;
    FlipParts(d[p], k, e[p]);
    var a, b, c := d[0] as nat, d[1] as nat, d[2] as nat;
    var f, g, h := e[0] as nat, e[1] as nat, e[2] as nat;
    if p == 0 && k < 2 {
      Parts2(a % 4, b / 16, f % 4, b / 16, 16);
    } else if p == 1 && k < 4 {
      Parts2(b % 16, c / 64, g % 16, c / 64, 4);
    } else if p == 1 {
      Parts2(a % 4, b / 16, a % 4, g / 16, 16);
    } else if p == 2 && k >= 6 {
      Parts2(b % 16, c / 64, b % 16, h / 64, 4);
    }
  }

  /** One inverted bit of packed data changes exactly one sextet. */
  lemma GroupOneBit(d: seq<byte>, e: seq<byte>, m: nat, p: nat, k: nat, g: nat)
    requires |d| == 3 * m && p < |d| && k < 8 && e == Corrupt(d, p, k) && g < m
    ensures forall u :: 4 * g <= u < 4 * g + 4 ==> (Unpack(d, m)[u] != Unpack(e, m)[u] <==> u == SextetOf(p, k))
  {
    hide Unpack, UnpackTriple, Flip;
    var x, y := Unpack(d, m), Unpack(e, m);
    UnpackAt(d, m, g, x);
    UnpackAt(e, m, g, y);
    if g == p / 3 {
      var q := p - 3 * g;
      TripleOneBit(d[3 * g..3 * g + 3], e[3 * g..3 * g + 3], q, k);
      assert SextetOf(p, k) == 4 * g + SextetOf(q, k);
      SameTriple(d, 3 * g);
      SameTriple(e, 3 * g);
    } else {
      assert d[3 * g] == e[3 * g] && d[3 * g + 1] == e[3 * g + 1] && d[3 * g + 2] == e[3 * g + 2];
    }
    forall u | 4 * g <= u < 4 * g + 4
      ensures x[u] != y[u] <==> u == SextetOf(p, k)
    {
      assert x[u] == x[4 * g..4 * g + 4][u - 4 * g] && y[u] == y[4 * g..4 * g + 4][u - 4 * g];
    }
  }

  lemma SameTriple(d: seq<byte>, at: nat)
    requires at + 3 <= |d|
    ensures var t := d[at..at + 3]; t[0] == d[at] && t[1] == d[at + 1] && t[2] == d[at + 2]
  {
  }

  lemma UnpackOneBit(d: seq<byte>, e: seq<byte>, m: nat, p: nat, k: nat)
    requires |d| == 3 * m && p < |d| && k < 8 && e == Corrupt(d, p, k)
    ensures forall u :: 0 <= u < 4 * m ==> (Unpack(d, m)[u] != Unpack(e, m)[u] <==> u == SextetOf(p, k))
  {
    hide Unpack, Flip, SextetOf;
    forall u | 0 <= u < 4 * m
      ensures Unpack(d, m)[u] != Unpack(e, m)[u] <==> u == SextetOf(p, k)
    {
      GroupOneBit(d, e, m, p, k, u / 4);
    }
  }

  lemma DecodesIff(e: seq<byte>, y: seq<sextet>)
    requires |e| == 12 && y == Unpack(e, 4)
    ensures Decode(e).None? <==> forall u :: 0 <= u < 16 ==> y[u] != TERMINATOR
  {
    hide Unpack, TextOf;
    DecodeIs(e, y, 4);
  }

  lemma PaddedName(name: Text, x: seq<sextet>)
    requires IsName(name) && |name| < 16 && x == Padded(name, 16)
    ensures |Encode(name, 16)| == 12 && Unpack(Encode(name, 16), 4) == x
    ensures |x| == 16 && forall u :: 0 <= u < 16 ==> (x[u] == TERMINATOR <==> u >= |name|)
  {
    hide Pack, Unpack;
    PackRoundTrip(x, 4);
    forall u | 0 <= u < 16
      ensures x[u] == TERMINATOR <==> u >= |name|
    {
      PaddedAt(name, 16, u);
    }
  }

  /** A packed name with one bit inverted loses its terminator exactly if it has a single one and that is hit. */
  lemma NameOneBit(name: Text, d: seq<byte>, p: nat, k: nat)
    requires IsName(name) && |name| < 16 && d == Encode(name, 16) && p < 12 && k < 8 && |d| == 12
    ensures Decode(Corrupt(d, p, k)).None? <==> |name| == 15 && p == 11 && k < 6
  {
    hide Unpack, Encode, Decode, Padded, Flip, IsName;
    var e, x := Corrupt(d, p, k), Padded(name, 16);
    var y := Unpack(e, 4);
    PaddedName(name, x);
    UnpackOneBit(d, e, 4, p, k);
    DecodesIff(e, y);
    var t := SextetOf(p, k);
    assert t == 15 <==> p == 11 && k < 6;
    if |name| == 15 && t == 15 {
      assert forall u :: 0 <= u < 16 ==> y[u] != TERMINATOR;
    } else {
      var u := if t == 15 then 14 else 15;
      assert y[u] == x[u] == TERMINATOR;
    }
  }

  // ---- One bit of a written directory ----

  /** Bit `k` of byte `i` is in the only terminator of record `j`, in a directory that begins at `index`. */
  predicate HitsTerminator(files: seq<File>, index: nat, i: nat, k: nat, j: nat) {
    j < |files| && |files[j].name| == 15 && i == index + RECORD * j + 12 && k < 6
  }

  predicate HitsAny(files: seq<File>, index: nat, i: nat, k: nat) {
    exists j :: 0 <= j < |files| && HitsTerminator(files, index, i, k, j)
  }

  lemma HitsRest(files: seq<File>, index: nat, i: nat, k: nat)
    requires files != []
    ensures HitsAny(files, index, i, k) <==>
            HitsTerminator(files, index, i, k, 0) || HitsAny(files[1..], index + RECORD, i, k)
  {
    var rest, next := files[1..], index + RECORD;
    forall j | 0 < j < |files|
      ensures HitsTerminator(files, index, i, k, j) <==> HitsTerminator(rest, next, i, k, j - 1)
    {
      assert files[j] == rest[j - 1];
    }
    if j :| 0 <= j < |rest| && HitsTerminator(rest, next, i, k, j) {
      assert HitsTerminator(files, index, i, k, j + 1);
    }
  }

  /** What a record with one bit inverted looks like to a walk. */
  lemma RecordOneBit(page: seq<byte>, bad: seq<byte>, index: nat, next: nat, f: File, i: nat, k: nat)
    requires IsFile(f) && next == index + RECORD <= |page| && page[index..next] == FileRecord(f)
    requires i < |page| && k < 8 && bad == Corrupt(page, i, k)
    ensures i == index ==> bad[index] != 'F' as int && bad[index] != 'E' as int
    ensures i != index ==> bad[index] == 'F' as int
    ensures Decode(bad[index + 1..index + 13]).None? <==> HitsTerminator([f], index, i, k, 0)
    ensures !(index < i < index + 13) ==> Decode(bad[index + 1..index + 13]) == Some(f.name)
  {
    hide Encode, Decode, Flip, FileRecord;
    RecordFacts(f);
    RecordAt(page, index, next, FileRecord(f));
    var d, e := page[index + 1..index + 13], bad[index + 1..index + 13];
    NameInRecord(f);
    if index < i < index + 13 {
      var p := i - index - 1;
      assert e == Corrupt(d, p, k);
      NameOneBit(f.name, d, p, k);
    } else {
      assert e == d;
    }
    if i == index {
      TagOneBit('F' as int, k);
    }
  }

  lemma NameInRecord(f: File)
    requires IsFile(f)
    ensures |Encode(f.name, 16)| == 12 && |FileRecord(f)| == RECORD && FileRecord(f)[1..13] == Encode(f.name, 16)
  {
    hide Encode;
    NameRoundTrip(f.name, 16);
    assert FileRecord(f)[1..13] == Encode(f.name, 16);
  }

  /** No inverted bit turns one tag into the other. */
  lemma TagOneBit(tag: byte, k: nat)
    requires k < 8 && (tag == 'F' as int || tag == 'E' as int)
    ensures Flip(tag, k) != 'F' as int && Flip(tag, k) != 'E' as int
  {
    hide Flip;
    FlipStep(tag, k);
  }

  lemma {:induction false} NoHitsBefore(files: seq<File>, index: nat, i: nat, k: nat)
    requires i < index + 12
    ensures !HitsAny(files, index, i, k)
  {
  }

  /** Which record the bit is in decides whether the walk ends in a name without terminator. */
  lemma {:induction false} ScanOneBit(page: seq<byte>, bad: seq<byte>, index: nat, files: seq<File>, room: nat, i: nat, k: nat)
    requires AreFiles(files) && |files| <= room && index + RECORD * |files| < |page|
    requires page[index..index + RECORD * |files|] == Records(files) && page[index + RECORD * |files|] == 'E' as int
    requires i < |page| && k < 8 && bad == Corrupt(page, i, k)
    ensures ScanFiles(bad, index, room).BadName? <==> HitsAny(files, index, i, k)
    decreases files
  {
    hide Decode, FileRecord, Records, Value16, Flip, HitsAny;
    if files == [] {
      NoneHit(index, i, k);
      TagOneBit('E' as int, k);
    } else {
      var f, rest, next, end := files[0], files[1..], index + RECORD, index + RECORD * |files|;
      FirstRecord(page, index, next, end, files);
      RecordOneBit(page, bad, index, next, f, i, k);
      HitsRest(files, index, i, k);
      ScanOneBit(page, bad, next, rest, room - 1, i, k);
      if i < next {
        NoHitsBefore(rest, next, i, k);
      }
    }
  }

  lemma NoneHit(index: nat, i: nat, k: nat)
    ensures !HitsAny([], index, i, k)
  {
  }

  /** The query matches no file before record `j`, whose terminator the bit is in. */
  predicate HitsUnmatched(files: seq<File>, index: nat, i: nat, k: nat, query: seq<byte>, j: nat) {
    HitsTerminator(files, index, i, k, j) && forall m :: 0 <= m < j ==> !(query <= files[m].name)
  }

  predicate HitsAnyUnmatched(files: seq<File>, index: nat, i: nat, k: nat, query: seq<byte>) {
    exists j :: 0 <= j < |files| && HitsUnmatched(files, index, i, k, query, j)
  }

  lemma UnmatchedRest(files: seq<File>, index: nat, i: nat, k: nat, query: seq<byte>)
    requires files != []
    ensures HitsAnyUnmatched(files, index, i, k, query) <==>
            || HitsTerminator(files, index, i, k, 0)
            || (!(query <= files[0].name) && HitsAnyUnmatched(files[1..], index + RECORD, i, k, query))
  {
    var rest, next := files[1..], index + RECORD;
    if j :| 0 <= j < |files| && HitsUnmatched(files, index, i, k, query, j) {
      if j > 0 {
        assert forall m :: 0 <= m < j - 1 ==> rest[m] == files[m + 1];
        assert HitsUnmatched(rest, next, i, k, query, j - 1);
      }
    }
    if HitsTerminator(files, index, i, k, 0) {
      assert HitsUnmatched(files, index, i, k, query, 0);
    }
    if j :| 0 <= j < |rest| && HitsUnmatched(rest, next, i, k, query, j) && !(query <= files[0].name) {
      forall m | 0 <= m < j + 1
        ensures !(query <= files[m].name)
      {
        if m > 0 {
          assert files[m] == rest[m - 1];
        }
      }
      assert HitsUnmatched(files, index, i, k, query, j + 1);
    }
  }

  lemma {:induction false} LookupOneBit(page: seq<byte>, bad: seq<byte>, index: nat, files: seq<File>, query: seq<byte>,
                                        i: nat, k: nat)
    requires AreFiles(files) && index + RECORD * |files| < |page|
    requires page[index..index + RECORD * |files|] == Records(files) && page[index + RECORD * |files|] == 'E' as int
    requires i < |page| && k < 8 && bad == Corrupt(page, i, k)
    ensures Lookup(bad, index, query) == NameError <==> HitsAnyUnmatched(files, index, i, k, query)
    decreases files
  {
    hide Decode, FileRecord, Records, Value16, Flip, HitsAnyUnmatched;
    if files == [] {
      NoneUnmatched([], index, i, k, query);
      TagOneBit('E' as int, k);
    } else {
      var f, rest, next, end := files[0], files[1..], index + RECORD, index + RECORD * |files|;
      FirstRecord(page, index, next, end, files);
      RecordOneBit(page, bad, index, next, f, i, k);
      UnmatchedRest(files, index, i, k, query);
      LookupOneBit(page, bad, next, rest, query, i, k);
      if i < next {
        NoneUnmatched(rest, next, i, k, query);
      }
    }
  }

  lemma NoneUnmatched(files: seq<File>, index: nat, i: nat, k: nat, query: seq<byte>)
    requires i < index + 12 || files == []
    ensures !HitsAnyUnmatched(files, index, i, k, query)
  {
  }

  /** A one-bit error behind the header leaves it good. */
  lemma HeaderStays(page: seq<byte>, bad: seq<byte>, i: nat, k: nat)
    requires |page| > PAGE_SIZE && IsFilesystem(page) && IsProper(page)
    requires TABLE_START <= i < |page| && k < 8 && bad == Corrupt(page, i, k)
    ensures IsFilesystem(bad) && IsProper(bad)
  {
    hide Decode, FsName, Flip;
    assert bad[5..29] == page[5..29] && bad[..4] == page[..4] && bad[4] == page[4];
  }

  /** With one bit of the checked part inverted, the checksum does not match any more. */
  lemma SumFails(page: seq<byte>, bad: seq<byte>, i: nat, k: nat)
    requires |page| > PAGE_SIZE && ChecksumMatches(page) && i <= PAGE_SIZE && k < 8 && bad == Corrupt(page, i, k)
    ensures !ChecksumMatches(bad)
  {
    hide Sum;
    var checked := page[..PAGE_SIZE + 1];
    assert checked[..PAGE_SIZE] == page[..PAGE_SIZE];
    SingleBitErrorsAreDetected(checked, i, k);
    assert bad[..PAGE_SIZE + 1] == Corrupt(checked, i, k);
    assert bad[..PAGE_SIZE] == bad[..PAGE_SIZE + 1][..PAGE_SIZE];
  }

  /**
   A one-bit error in any accepted page goes unnoticed exactly when the walk then meets a name without
   terminator: the source returns before it looks at the checksum.
   */
  lemma OneBitErrorIsOkIff(page: seq<byte>, size: nat, i: nat, k: nat)
    requires |page| > PAGE_SIZE && ChecksumMatches(page) && i <= PAGE_SIZE && k < 8
    ensures var bad := Corrupt(page, i, k);
            ReadStatus(bad, size) == FsOk <==>
            IsFilesystem(bad) && IsProper(bad) && ScanFiles(bad, TABLE_START, size).BadName?
  {
    hide Sum, ScanFiles, IsFilesystem, IsProper, ChecksumMatches;
    SumFails(page, Corrupt(page, i, k), i, k);
  }

  /**
   For every directory that the format holds: Read_file_system takes a one-bit error for OK exactly if it
   is in the last sextet of a name of fifteen characters, which has no other terminator.
   */
  lemma OneBitErrorPassesIff(files: seq<File>, size: nat, i: nat, k: nat)
    requires AreFiles(files) && |files| <= 28 && |files| <= size && i <= PAGE_SIZE && k < 8
    ensures |Page(files)| > PAGE_SIZE
    ensures ReadStatus(Corrupt(Page(files), i, k), size) == FsOk <==>
            exists j :: 0 <= j < |files| && |files[j].name| == 15 && i == TABLE_START + RECORD * j + 12 && k < 6
  {
    hide Page, Records, ScanFiles, IsFilesystem, IsProper, ChecksumMatches, HitsAny, Flip;
    PageFacts(files);
    PageIsProper(files);
    OneBitErrorIsOkIff(Page(files), size, i, k);
    ScanOneBit(Page(files), Corrupt(Page(files), i, k), TABLE_START, files, size, i, k);
    if i >= TABLE_START {
      HeaderStays(Page(files), Corrupt(Page(files), i, k), i, k);
    }
    HitsAnyIs(files, i, k);
  }

  lemma HitsAnyIs(files: seq<File>, i: nat, k: nat)
    ensures HitsAny(files, TABLE_START, i, k) <==>
            exists j :: 0 <= j < |files| && |files[j].name| == 15 && i == TABLE_START + RECORD * j + 12 && k < 6
    ensures HitsAny(files, TABLE_START, i, k) ==> i >= TABLE_START
  {
    forall j | 0 <= j < |files|
      ensures HitsTerminator(files, TABLE_START, i, k, j) <==>
              |files[j].name| == 15 && i == TABLE_START + RECORD * j + 12 && k < 6
    {
    }
  }

  /** With names of at most fourteen characters no one-bit error is taken for OK. */
  lemma ShortNamesAreSafe(files: seq<File>, size: nat, i: nat, k: nat)
    requires AreFiles(files) && |files| <= 28 && |files| <= size && i <= PAGE_SIZE && k < 8
    requires forall j :: 0 <= j < |files| ==> |files[j].name| <= 14
    ensures |Page(files)| > PAGE_SIZE && ReadStatus(Corrupt(Page(files), i, k), size) != FsOk
  {
    hide Page, Flip;
    OneBitErrorPassesIff(files, size, i, k);
  }

  /**
   The same for File_exists, which stops at the first match: it takes the error for OK exactly if it is in
   such a name and the query matches no file before it; it never says that the file exists or does not.
   */
  lemma OneBitErrorInLookupIff(files: seq<File>, query: seq<byte>, i: nat, k: nat)
    requires AreFiles(files) && |files| <= 28 && i <= PAGE_SIZE && k < 8
    ensures |Page(files)| > PAGE_SIZE
    ensures ExistsStatus(Corrupt(Page(files), i, k), query) == FsOk <==>
            exists j :: 0 <= j < |files| && HitsUnmatched(files, TABLE_START, i, k, query, j)
    ensures ExistsStatus(Corrupt(Page(files), i, k), query) in {FsOk, FsError, NoFs}
  {
    hide Page, Records, Lookup, IsFilesystem, IsProper, ChecksumMatches, Flip;
    PageFacts(files);
    PageIsProper(files);
    var bad := Corrupt(Page(files), i, k);
    SumFails(Page(files), bad, i, k);
    LookupOneBit(Page(files), bad, TABLE_START, files, query, i, k);
    if i >= TABLE_START {
      HeaderStays(Page(files), bad, i, k);
    }
  }
}
