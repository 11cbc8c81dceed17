/** The script that lays out the disk image and writes its directory page. */
module ImageWriter {
  import opened Bytes
  import opened Wrappers
  import opened NameCodec
  import opened Checksum
  import opened Pages
  import opened Filesystem

  const BLOCK: nat := 8192

  lemma {:induction false} RecordsAppend(files: seq<File>, f: File)
    ensures Records(files + [f]) == Records(files) + FileRecord(f)
  {
    hide FileRecord;
    if files == [] {
      assert files + [f] == [f] && Records([f]) == FileRecord(f) + Records([]);
    } else {
      assert (files + [f])[1..] == files[1..] + [f];
      RecordsAppend(files[1..], f);
    }
  }

  /** The zero filling up to a length. */
  method Fill(data: seq<byte>, length: nat) returns (r: seq<byte>)
    ensures r == PadTo(data, length)
  {
    r := data;
    ghost var n: nat := 0;
    while |r| < length
      invariant r == data + Zeros(n) && (|r| <= length || n == 0)
    {
      r, n := r + [0], n + 1;
    }
    assert n == 0 ==> r == data;
  }

  /** One file record. */
  method WriteRecord(fs0: seq<byte>, f: File) returns (fs: seq<byte>)
    ensures fs == fs0 + FileRecord(f)
  {
    hide Encode;
    fs := fs0 + ['F' as int];
    var data := WriteBase64(f.name, 16);
    fs := fs + data;
    fs := fs + [f.addr / 256 % 256, f.addr % 256];
    fs := fs + [f.len / 256 % 256, f.len % 256];
    assert fs == fs0 + FileRecord(f);
  }

  /** The header and the records. */
  method WriteRecords(files: seq<File>) returns (fs: seq<byte>)
    ensures fs == Header() + Records(files)
  {
    hide FileRecord, Encode, FsName;
    fs := ['A' as int, 'I' as int, 'F' as int, 'S' as int];
    fs := fs + [1 * 16 + 0];
    var data := WriteBase64(FsName(), 32);
    fs := fs + data;
    assert fs == Header() + Records([]);
    for n := 0 to |files|
      invariant fs == Header() + Records(files[..n])
    {
      ghost var before := fs;
      fs := WriteRecord(fs, files[n]);
      RecordsAppend(files[..n], files[n]);
      assert files[..n + 1] == files[..n] + [files[n]];
      assert Header() + Records(files[..n]) + FileRecord(files[n]) == Header() + Records(files[..n + 1]);
    }
    assert files[..|files|] == files;
  }

  /** The directory page. */
  method WritePage(files: seq<File>) returns (fs: seq<byte>)
    ensures fs == Page(files)
  {
    hide Header, Records, Sum;
    fs := WriteRecords(files);
    fs := fs + ['E' as int];
    fs := Fill(fs, 511);
    var csum := WriterSum(fs);
    fs := fs + [csum];
    fs := Fill(fs, 512 * 16);
  }

  /** One file's blocks: all full ones and a last one that is never full, filled up with zeros. */
  method AppendFile(content0: seq<byte>, data: seq<byte>, sectorAddr0: nat)
    returns (content: seq<byte>, sectorAddr: nat, sectors: nat)
    ensures |data| < BLOCK * sectors <= |data| + BLOCK && sectorAddr == sectorAddr0 + sectors
    ensures content == content0 + (data + Zeros(BLOCK * sectors - |data|))
  {
    hide Zeros;
    content, sectorAddr, sectors := content0, sectorAddr0, 0;
    var licz: nat := 0;
    for i := 0 to |data|
      invariant content == content0 + data[..i]
      invariant licz < BLOCK && i == BLOCK * sectors + licz && sectorAddr == sectorAddr0 + sectors
    {
      content := content + [data[i]];
      assert content == content0 + data[..i + 1];
      licz := licz + 1;
      if licz == BLOCK {
        licz, sectors, sectorAddr := 0, sectors + 1, sectorAddr + 1;
      }
    }
    assert data[..|data|] == data;
    content := FillZeros(content, BLOCK - licz);
    sectors, sectorAddr := sectors + 1, sectorAddr + 1;
  }

  method FillZeros(content0: seq<byte>, n: nat) returns (content: seq<byte>)
    ensures content == content0 + Zeros(n)
  {
    content := content0;
    for k := 0 to n
      invariant content == content0 + Zeros(k)
    {
      content := content + [0];
    }
  }

  /** A file's data lie where its directory entry points, counted from the directory page on. */
  ghost predicate PlacedAt(content: seq<byte>, data: seq<byte>, addr: nat) {
    && 1 <= addr && BLOCK * (addr - 1) + |data| <= |content|
    && content[BLOCK * (addr - 1)..BLOCK * (addr - 1) + |data|] == data
  }

  lemma PlacedStays(content: seq<byte>, more: seq<byte>, data: seq<byte>, addr: nat)
    requires PlacedAt(content, data, addr)
    ensures PlacedAt(content + more, data, addr)
  {
    var at := BLOCK * (addr - 1);
    assert (content + more)[at..at + |data|] == content[at..at + |data|];
  }

  /** Each file begins where the one before ends, the first one at 1, and takes one more than its full blocks. */
  ghost predicate Chained(datas: seq<seq<byte>>, addrs: seq<nat>, sizes: seq<nat>, next: nat)
    ensures Chained(datas, addrs, sizes, next) ==> |addrs| == |sizes| == |datas| && next >= 1
  {
    && |addrs| == |sizes| == |datas| && next >= 1
    && (forall k :: 0 <= k < |datas| ==> |datas[k]| < BLOCK * sizes[k] <= |datas[k]| + BLOCK)
    && (forall k :: 0 < k < |datas| ==> addrs[k] == addrs[k - 1] + sizes[k - 1])
    && (if datas == [] then next == 1 else addrs[0] == 1 && next == addrs[|datas| - 1] + sizes[|datas| - 1])
  }

  /** Every file is where its address says, and the blocks follow one another without gaps. */
  ghost predicate Placed(content: seq<byte>, datas: seq<seq<byte>>, addrs: seq<nat>, sizes: seq<nat>, next: nat) {
    && Chained(datas, addrs, sizes, next) && |content| == BLOCK * (next - 1)
    && forall k :: 0 <= k < |datas| ==> PlacedAt(content, datas[k], addrs[k])
  }

  lemma ChainedMore(datas: seq<seq<byte>>, addrs: seq<nat>, sizes: seq<nat>, next: nat, data: seq<byte>, sectors: nat)
    requires Chained(datas, addrs, sizes, next) && |data| < BLOCK * sectors <= |data| + BLOCK
    ensures Chained(datas + [data], addrs + [next], sizes + [sectors], next + sectors)
  {
  }

  lemma PlacedMore(content: seq<byte>, datas: seq<seq<byte>>, addrs: seq<nat>, sizes: seq<nat>, next: nat,
                   data: seq<byte>, sectors: nat, content1: seq<byte>)
    requires Placed(content, datas, addrs, sizes, next)
    requires |data| < BLOCK * sectors <= |data| + BLOCK
    requires content1 == content + (data + Zeros(BLOCK * sectors - |data|))
    ensures Placed(content1, datas + [data], addrs + [next], sizes + [sectors], next + sectors)
  {
    hide PlacedAt, Chained, Zeros;
    ChainedMore(datas, addrs, sizes, next, data, sectors);
    forall k | 0 <= k < |datas| + 1
      ensures PlacedAt(content1, (datas + [data])[k], (addrs + [next])[k])
    {
      if k < |datas| {
        PlacedStays(content, data + Zeros(BLOCK * sectors - |data|), datas[k], addrs[k]);
      } else {
        PlacedNow(content, data, next, content1);
      }
    }
  }

  lemma PlacedNow(content: seq<byte>, data: seq<byte>, next: nat, content1: seq<byte>)
    requires next >= 1 && |content| == BLOCK * (next - 1) && content + data <= content1
    ensures PlacedAt(content1, data, next)
  {
    assert content1[|content|..|content| + |data|] == (content + data)[|content|..];
  }

  /** The loop over the recordings. */
  method PlaceFiles(datas: seq<seq<byte>>)
    returns (content: seq<byte>, addrs: seq<nat>, sizes: seq<nat>, sectorAddr: nat)
    ensures Placed(content, datas, addrs, sizes, sectorAddr)
  {
    hide Placed, Zeros;
    content, addrs, sizes, sectorAddr := [], [], [], 1;
    NothingPlaced();
    for n := 0 to |datas|
      invariant Placed(content, datas[..n], addrs, sizes, sectorAddr)
    {
      var content1, next, sectors := AppendFile(content, datas[n], sectorAddr);
      PlacedMore(content, datas[..n], addrs, sizes, sectorAddr, datas[n], sectors, content1);
      assert datas[..n + 1] == datas[..n] + [datas[n]];
      addrs, sizes := addrs + [sectorAddr], sizes + [sectors];
      content, sectorAddr := content1, next;
    }
    assert datas[..|datas|] == datas;
  }

  /**
   End to end: what the firmware finds under a name is where that file's recording begins. The entries carry
   the addresses and sizes that the script placed, and the content, with anything behind it, follows the
   directory page.
   */
  lemma FoundFileIsPlaced(files: seq<File>, query: seq<byte>, i: nat, content: seq<byte>, more: seq<byte>,
                          datas: seq<seq<byte>>, addrs: seq<nat>, sizes: seq<nat>, next: nat)
    requires AreFiles(files) && |files| <= 28 && Placed(content, datas, addrs, sizes, next) && |datas| <= |files|
    requires forall k :: 0 <= k < |datas| ==> files[k].addr == addrs[k] && files[k].len == sizes[k]
    requires FirstMatch(files, query) == Some(i) && i < |datas|
    ensures var disk := Page(files) + content + more;
            && Lookup(Page(files), TABLE_START, query) == Hit(addrs[i], sizes[i])
            && ExistsStatus(Page(files), query) == Exists
            && |datas[i]| < BLOCK * sizes[i] && BLOCK * addrs[i] + |datas[i]| <= |disk|
            && disk[BLOCK * addrs[i]..BLOCK * addrs[i] + |datas[i]|] == datas[i]
  {
    hide Page, Directory, Lookup, ExistsStatus, FirstMatch, AreFiles, PlacedAt;
    PageFacts(files);
    LookupRoundTrip(files, query);
    PlacedStays(content, more, datas[i], addrs[i]);
    BehindPage(Page(files), content + more, datas[i], addrs[i]);
    assert Page(files) + content + more == Page(files) + (content + more);
  }

  lemma BehindPage(page: seq<byte>, content: seq<byte>, data: seq<byte>, addr: nat)
    requires |page| == BLOCK && PlacedAt(content, data, addr)
    ensures BLOCK * addr + |data| <= |page + content|
    ensures (page + content)[BLOCK * addr..BLOCK * addr + |data|] == data
  {
    var at := BLOCK * (addr - 1);
    assert (page + content)[BLOCK + at..BLOCK + at + |data|] == content[at..at + |data|];
  }

  lemma NothingPlaced()
    ensures Placed([], [], [], [], 1)
  {
  }

  /**
   The address of the database: the next multiple of sixteen, so that the firmware, which keeps the
   address divided by sixteen and multiplies it again, arrives at the same place.
   */
  method PlaceBase(content0: seq<byte>, sectorAddr0: nat) returns (content: seq<byte>, sectorAddr: nat)
    requires sectorAddr0 >= 1 && |content0| == BLOCK * (sectorAddr0 - 1)
    ensures content0 <= content && |content| == BLOCK * (sectorAddr - 1)
    ensures sectorAddr0 <= sectorAddr < sectorAddr0 + 16 && sectorAddr / 16 * 16 == sectorAddr
  {
    hide Zeros;
    content, sectorAddr := content0, sectorAddr0;
    ghost var aligned := 16 * ((sectorAddr0 + 15) / 16);
    while sectorAddr % 16 != 0
      invariant sectorAddr0 <= sectorAddr <= aligned
      invariant content0 <= content && |content| == BLOCK * (sectorAddr - 1)
      decreases aligned - sectorAddr
    {
      content := FillZeros(content, BLOCK);
      sectorAddr := sectorAddr + 1;
    }
  }
}
