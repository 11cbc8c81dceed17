/** Zero-terminated strings in fixed-size buffers. */
module CStrings {
  import opened Bytes

  /** The bytes before the first 0, `size` at most. */
  function CString(s: seq<byte>, size: nat): (r: seq<byte>)
    ensures |r| <= |s| && |r| <= size && r == s[..|r|] && (forall i :: 0 <= i < |r| ==> r[i] != 0)
    ensures |r| < |s| && |r| < size ==> s[|r|] == 0
  {
    if s == [] || size == 0 || s[0] == 0 then [] else [s[0]] + CString(s[1..], size - 1)
  }

  lemma {:induction false} CStringIs(s: seq<byte>, size: nat, r: seq<byte>)
    requires |r| < |s| && |r| < size && r == s[..|r|] && s[|r|] == 0 && forall i :: 0 <= i < |r| ==> r[i] != 0
    ensures CString(s, size) == r
  {
    if r != [] {
      assert s[0] == r[0];
      CStringIs(s[1..], size - 1, r[1..]);
    }
  }

  /** compare(): the first string, up to its end, is a prefix of the second. */
  method Compare(read1: seq<byte>, read2: seq<byte>, size: nat) returns (r: bool)
    requires size <= |read1| || |CString(read1, size)| < |read1|
    requires |CString(read1, size)| <= |read2|
    ensures r <==> CString(read1, size) <= read2
  {
    ghost var c := CString(read1, size);
    for n := 0 to size
      invariant n <= |c| && c[..n] <= read2
    {
      if read1[n] == 0 {
        return true;
      }
      if read1[n] != read2[n] {
        return false;
      }
    }
    r := true;
  }

  /** A query without zeros is a prefix of a buffer exactly when it is one of the string in it. */
  lemma PrefixOfString(query: seq<byte>, buffer: seq<byte>, text: seq<byte>)
    requires |text| < |buffer| && text == buffer[..|text|] && buffer[|text|] == 0
    requires forall i :: 0 <= i < |query| ==> query[i] != 0
    ensures query <= buffer <==> query <= text
  {
    if |query| > |text| {
      assert query[|text|] != buffer[|text|];
    }
  }
}

/** What the directory and the database pages share: big-endian numbers and zero padding. */
module Pages {
  import opened Bytes

  const PAGE_SIZE: nat := 511

  /** A part of a part. */
  lemma PartOfPart<T>(s: seq<T>, a: nat, b: nat, lo: nat, hi: nat)
    requires a <= lo <= hi <= b <= |s|
    ensures s[a..b][lo - a..hi - a] == s[lo..hi]
  {
    var part, inner := s[lo..hi], s[a..b][lo - a..hi - a];
    forall i | 0 <= i < hi - lo
      ensures inner[i] == part[i]
    {
      assert inner[i] == s[a..b][lo - a + i] == s[lo + i];
    }
  }

  /** The parts of a page that begins with a header, two groups of records and an end mark. */
  lemma Parts(page: seq<byte>, header: seq<byte>, first: seq<byte>, second: seq<byte>, mark: byte, m: nat, n: nat)
    requires header + first + second + [mark] <= page && m == |header| + |first| && n == m + |second|
    ensures n < |page| && page[..|header|] == header && page[|header|..m] == first && page[m..n] == second
    ensures page[n] == mark
  {
    var all := header + first + second + [mark];
    assert page[..|header|] == all[..|header|] == header;
    assert page[|header|..m] == all[|header|..m] == first;
    assert page[m..n] == all[m..n] == second;
    assert page[n] == all[n];
  }

  function TwoBytes(v: nat): (r: seq<byte>)
    ensures |r| == 2
  {
    [v / 256 % 256, v % 256]
  }

  function FourBytes(v: nat): (r: seq<byte>)
    ensures |r| == 4
  {
    TwoBytes(v / 0x1_0000) + TwoBytes(v % 0x1_0000)
  }

  function Value16(page: seq<byte>, index: nat): (r: nat)
    requires index + 2 <= |page|
  {
    256 * (page[index] as nat) + page[index + 1]
  }

  function Value32(page: seq<byte>, index: nat): (r: nat)
    requires index + 4 <= |page|
  {
    0x1_0000 * Value16(page, index) + Value16(page, index + 2)
  }

  function Zeros(n: nat): (r: seq<byte>)
    ensures |r| == n && forall i :: 0 <= i < n ==> r[i] == 0
  {
    if n == 0 then [] else Zeros(n - 1) + [0]
  }

  function PadTo(s: seq<byte>, n: nat): (r: seq<byte>)
    ensures |r| == (if |s| < n then n else |s|) && s <= r
  {
    if |s| < n then s + Zeros(n - |s|) else s
  }

  /** read_16_value(), in its 16-bit accumulator. */
  method Read16(read: seq<byte>, index: nat) returns (value: nat)
    requires index + 2 <= |read|
    ensures value == Value16(read, index) && value < 0x1_0000
  {
    value := 0;
    for n := 0 to 2
      invariant value == if n == 0 then 0 else if n == 1 then read[index] as nat else Value16(read, index)
    {
      value := (value * 256 + read[index + n]) % 0x1_0000;
    }
  }

  /** The first `n` bytes from `index` on as one number. */
  function Folded(read: seq<byte>, index: nat, n: nat): (v: nat)
    requires index + n <= |read|
    ensures n <= 3 ==> v < 0x100_0000
  {
    if n == 0 then 0
    else if n == 1 then read[index]
    else if n == 2 then Value16(read, index)
    else if n == 3 then Value16(read, index) * 256 + read[index + 2]
    else Value32(read, index)
  }

  lemma FoldedNext(read: seq<byte>, index: nat, n: nat)
    requires n < 4 && index + 4 <= |read|
    ensures Folded(read, index, n + 1) == Folded(read, index, n) * 256 + read[index + n] < TWO_32
  {
    if n == 3 {
      assert Value32(read, index) == 0x1_0000 * Value16(read, index) + 256 * (read[index + 2] as nat) + read[index + 3];
    }
  }

  /** read_32_value(), in its 32-bit accumulator. */
  method Read32(read: seq<byte>, index: nat) returns (value: nat)
    requires index + 4 <= |read|
    ensures value == Value32(read, index) && value < TWO_32
  {
    hide Value16;
    value := 0;
    for n := 0 to 4
      invariant value == Folded(read, index, n) < TWO_32
    {
      FoldedNext(read, index, n);
      value := (value * 256 + read[index + n]) % TWO_32;
    }
  }

  /** A string with its closing 0 in memory. */
  ghost predicate Holds(memory: seq<byte>, at: nat, text: seq<byte>) {
    && at + |text| < |memory|
    && (forall i :: 0 <= i < |text| ==> memory[at + i] == text[i] && text[i] != 0)
    && memory[at + |text|] == 0
  }
}
