/** The script that writes the database page. */
module DatabaseWriter {
  import opened Bytes
  import opened NameCodec
  import opened Checksum
  import opened Pages
  import opened ImageWriter
  import opened Database

  lemma {:induction false} BaseRecordsAppend(bases: seq<Base>, b: Base)
    ensures BaseRecords(bases + [b]) == BaseRecords(bases) + BaseRecord(b)
  {
    hide BaseRecord;
    if bases == [] {
      assert bases + [b] == [b] && BaseRecords([b]) == BaseRecord(b) + BaseRecords([]);
    } else {
      assert (bases + [b])[1..] == bases[1..] + [b];
      BaseRecordsAppend(bases[1..], b);
    }
  }

  lemma {:induction false} LabelRecordsAppend(labels: seq<Label>, l: Label)
    ensures LabelRecords(labels + [l]) == LabelRecords(labels) + LabelRecord(l)
  {
    hide LabelRecord;
    if labels == [] {
      assert labels + [l] == [l] && LabelRecords([l]) == LabelRecord(l) + LabelRecords([]);
    } else {
      assert (labels + [l])[1..] == labels[1..] + [l];
      LabelRecordsAppend(labels[1..], l);
    }
  }

  lemma BytesOfWord(v: nat)
    requires v < TWO_32
    ensures FourBytes(v) == [v / 0x100_0000 % 256, v / 0x1_0000 % 256, v / 0x100 % 256, v % 256]
  {
    var high, low := v / 0x1_0000, v % 0x1_0000;
    assert v / 0x100_0000 == high / 256;
    assert v / 0x100 == high * 256 + low / 256;
  }

  method WriteBase(bytes0: seq<byte>, b: Base) returns (bytes: seq<byte>)
    requires b.crc < TWO_32
    ensures bytes == bytes0 + BaseRecord(b)
  {
    hide Encode, TwoBytes, FourBytes;
    bytes := bytes0 + ['B' as int];
    var data := WriteBase64(b.name, 16);
    bytes := bytes + data;
    TwoBytesOf(b.addr);
    bytes := bytes + [b.addr / 256 % 256, b.addr % 256];
    BytesOfWord(b.crc);
    bytes := bytes + [b.crc / 0x100_0000 % 256, b.crc / 0x1_0000 % 256, b.crc / 0x100 % 256, b.crc % 256];
    bytes := bytes + [b.packet, b.spect, b.classes, b.compression];
    assert bytes == bytes0 + BaseRecord(b);
  }

  lemma TwoBytesOf(v: nat)
    ensures TwoBytes(v) == [v / 256 % 256, v % 256]
  {
  }

  method WriteHeader() returns (bytes: seq<byte>)
    ensures bytes == Header()
  {
    hide Encode, AppName, VendorName, DatabaseName;
    bytes := ['A' as int, 'I' as int, 'D' as int, 'B' as int, 1 * 16 + 0, 0, 0xAA, 0xBB];
    var data := WriteBase64(AppName(), 16);
    bytes := bytes + data + [1 * 16 + 1];
    data := WriteBase64(VendorName(), 32);
    bytes := bytes + data;
    data := WriteBase64(DatabaseName(), 32);
    bytes := bytes + data + [1];
  }

  method WriteBases(bytes0: seq<byte>, bases: seq<Base>) returns (bytes: seq<byte>)
    requires forall i :: 0 <= i < |bases| ==> bases[i].crc < TWO_32
    ensures bytes == bytes0 + BaseRecords(bases)
  {
    hide BaseRecord;
    bytes := bytes0;
    for n := 0 to |bases|
      invariant bytes == bytes0 + BaseRecords(bases[..n])
    {
      bytes := WriteBase(bytes, bases[n]);
      BaseRecordsAppend(bases[..n], bases[n]);
      assert bases[..n + 1] == bases[..n] + [bases[n]];
      assert bytes0 + BaseRecords(bases[..n]) + BaseRecord(bases[n]) == bytes0 + BaseRecords(bases[..n + 1]);
    }
    assert bases[..|bases|] == bases;
  }

  method WriteLabels(bytes0: seq<byte>, names: seq<Label>) returns (bytes: seq<byte>)
    ensures bytes == bytes0 + LabelRecords(names)
  {
    hide Encode;
    bytes := bytes0;
    for n := 0 to |names|
      invariant bytes == bytes0 + LabelRecords(names[..n])
    {
      var data := WriteBase64(names[n], 16);
      bytes := bytes + ['L' as int] + data;
      LabelRecordsAppend(names[..n], names[n]);
      assert names[..n + 1] == names[..n] + [names[n]];
      assert bytes0 + LabelRecords(names[..n]) + ['L' as int] + data == bytes0 + LabelRecords(names[..n + 1]);
    }
    assert names[..|names|] == names;
  }

  /** The database page, for any bases and labels in place of the script's own tables. */
  method WriteDatabase(bases: seq<Base>, names: seq<Label>) returns (bytes: seq<byte>)
    requires forall i :: 0 <= i < |bases| ==> bases[i].crc < TWO_32
    ensures bytes == Page(bases, names)
  {
    hide Header, BaseRecords, LabelRecords, Sum;
    bytes := WriteHeader();
    bytes := WriteBases(bytes, bases);
    bytes := WriteLabels(bytes, names);
    bytes := bytes + ['F' as int];
    bytes := Fill(bytes, 511);
    var csum := WriterSum(bytes);
    bytes := bytes + [csum];
    bytes := Fill(bytes, 512 * 256);
  }
}
