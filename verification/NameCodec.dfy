/**
 The private 6-bit name codec. Text is a sequence of character codes; sextets are numbers below 64,
 and sextet 63 ends a name. Shifting a value left by 6 or 8 bits and filling the low bits is
 multiplication and addition here.
 */
module NameCodec {
  import opened Bytes
  import opened Wrappers

  type sextet = x: int | 0 <= x < 64
  type Text = seq<nat>

  const TERMINATOR: sextet := 63

  /** The writer's code of one character; everything outside the alphabet becomes the terminator. */
  function ToSextet(c: nat): (r: sextet) {
    if '0' as int <= c <= '9' as int then c - '0' as int
    else if 'A' as int <= c <= 'Z' as int then c - 'A' as int + 10
    else if 'a' as int <= c <= 'z' as int then c - 'a' as int + 36
    else if c == ' ' as int then 62
    else TERMINATOR
  }

  /** The reader's character of one code; 0 ends the string. */
  function FromSextet(x: sextet): (r: byte) {
    if x <= 9 then x + '0' as int
    else if x <= 35 then x - 10 + 'A' as int
    else if x <= 61 then x - 36 + 'a' as int
    else if x == 62 then ' ' as int
    else 0
  }

  predicate InAlphabet(c: nat) {
    ToSextet(c) != TERMINATOR
  }

  predicate IsName(s: Text) {
    forall i :: 0 <= i < |s| ==> InAlphabet(s[i])
  }

  /** The 63 codes and the 63 characters correspond one to one. */
  lemma SextetRoundTrip(c: nat, x: sextet)
    ensures InAlphabet(c) ==> FromSextet(ToSextet(c)) == c
    ensures x != TERMINATOR ==> InAlphabet(FromSextet(x)) && ToSextet(FromSextet(x)) == x
    ensures FromSextet(x) == 0 <==> x == TERMINATOR
  {
  }

  function Sextets(s: Text): (r: seq<sextet>)
    ensures |r| == |s| && forall i :: 0 <= i < |s| ==> r[i] == ToSextet(s[i])
  {
    if s == [] then [] else Sextets(s[..|s| - 1]) + [ToSextet(s[|s| - 1])]
  }

  function Terminators(n: nat): (r: seq<sextet>)
    ensures |r| == n && forall i :: 0 <= i < n ==> r[i] == TERMINATOR
  {
    if n == 0 then [] else Terminators(n - 1) + [TERMINATOR]
  }

  /** How many sextets the writer produces for a text of length `n` and a field of `size` characters. */
  function PaddedLength(n: nat, size: int): (r: nat)
    ensures r % 4 == 0 && r > n && r >= size
    ensures n < size && size % 4 == 0 ==> r == size
  {
    var m := if size - 1 > n then size - 1 else n;
    m + 4 - m % 4
  }

  function Padded(s: Text, size: int): (r: seq<sextet>)
    ensures |r| == PaddedLength(|s|, size)
  {
    Sextets(s) + Terminators(PaddedLength(|s|, size) - |s|)
  }

  /** Four sextets in three bytes, bit field by bit field. */
  function PackQuad(a: sextet, b: sextet, c: sextet, d: sextet): (r: seq<byte>)
    ensures |r| == 3
  {
    [a * 4 + b / 16, b % 16 * 16 + c / 4, c % 4 * 64 + d]
  }

  function Pack(x: seq<sextet>): (r: seq<byte>)
    requires |x| % 4 == 0
    ensures |r| == |x| / 4 * 3
  {
    if x == [] then []
    else Pack(x[..|x| - 4]) + PackQuad(x[|x| - 4], x[|x| - 3], x[|x| - 2], x[|x| - 1])
  }

  /** What the writer stores for a name. */
  function Encode(s: Text, size: int): (r: seq<byte>) {
    Pack(Padded(s, size))
  }

  /** Every group of four sextets is in its three bytes. */
  lemma {:induction false} PackedGroup(x: seq<sextet>, k: nat)
    requires |x| % 4 == 0 && 4 * k < |x|
    ensures Pack(x)[3 * k..3 * k + 3] == PackQuad(x[4 * k], x[4 * k + 1], x[4 * k + 2], x[4 * k + 3])
  {
    hide PackQuad;
    var init := x[..|x| - 4];
    if 4 * k < |init| {
      PackedGroup(init, k);
      assert Pack(x)[3 * k..3 * k + 3] == Pack(init)[3 * k..3 * k + 3];
    }
  }

  lemma PackedName(x: seq<sextet>, r: seq<byte>)
    requires |x| == 16 && |r| == 12
    requires r[0..3] == PackQuad(x[0], x[1], x[2], x[3]) && r[3..6] == PackQuad(x[4], x[5], x[6], x[7])
    requires r[6..9] == PackQuad(x[8], x[9], x[10], x[11]) && r[9..12] == PackQuad(x[12], x[13], x[14], x[15])
    ensures Pack(x) == r
  {
    hide Pack, PackQuad;
    PackedGroup(x, 0);
    PackedGroup(x, 1);
    PackedGroup(x, 2);
    PackedGroup(x, 3);
    var p := Pack(x);
    assert p == p[0..3] + p[3..6] + p[6..9] + p[9..12];
    assert r == r[0..3] + r[3..6] + r[6..9] + r[9..12];
  }

  /** A name of the script, byte by byte: four codes fill three bytes from the top bit down. */
  lemma ScriptsName()
    ensures Encode(['t' as nat, 'i' as nat, 'e' as nat, 'r' as nat, '0' as nat], 16)
            == [0xDE, 0xCA, 0x35, 0x03, 0xFF, 0xFF, 0xFF, 0xFF, 0xFF, 0xFF, 0xFF, 0xFF]
  {
    hide Pack;
    var r := [0xDE, 0xCA, 0x35, 0x03, 0xFF, 0xFF, 0xFF, 0xFF, 0xFF, 0xFF, 0xFF, 0xFF];
    PackedName(Padded(['t' as nat, 'i' as nat, 'e' as nat, 'r' as nat, '0' as nat], 16), r);
  }

  /** The codes count the digits, the capitals, the small letters and the space. */
  lemma CodesCount(i: nat)
    ensures i < 10 ==> ToSextet('0' as nat + i) == i
    ensures i < 26 ==> ToSextet('A' as nat + i) == 10 + i && ToSextet('a' as nat + i) == 36 + i
    ensures ToSextet(' ' as nat) == 62
  {
  }

  /** Three bytes in four sextets, bit field by bit field. */
  function UnpackTriple(p: byte, q: byte, r: byte): (x: seq<sextet>)
    ensures |x| == 4
  {
    [p / 4, p % 4 * 16 + q / 16, q % 16 * 4 + r / 64, r % 64]
  }

  /** The sextets of the first `m` groups of three bytes. */
  function Unpack(data: seq<byte>, m: nat): (r: seq<sextet>)
    requires 3 * m <= |data|
    ensures |r| == 4 * m
  {
    if m == 0 then []
    else Unpack(data, m - 1) + UnpackTriple(data[3 * m - 3], data[3 * m - 2], data[3 * m - 1])
  }

  /** The index of the first terminator, or the length if there is none. */
  function NameLength(x: seq<sextet>): (n: nat)
    ensures n <= |x| && (n < |x| ==> x[n] == TERMINATOR)
    ensures forall i :: 0 <= i < n ==> x[i] != TERMINATOR
  {
    if x == [] || x[0] == TERMINATOR then 0 else 1 + NameLength(x[1..])
  }

  function Characters(x: seq<sextet>): (t: seq<byte>)
    ensures |t| == |x| && forall i :: 0 <= i < |x| ==> t[i] == FromSextet(x[i])
  {
    if x == [] then [] else Characters(x[..|x| - 1]) + [FromSextet(x[|x| - 1])]
  }

  /** The text up to the first terminator. */
  function TextOf(x: seq<sextet>): (t: seq<byte>) {
    Characters(x[..NameLength(x)])
  }

  /** The text that the C decoder finds in a field, None if no terminator ends it. */
  function Decode(data: seq<byte>): (r: Option<seq<byte>>) {
    var x := Unpack(data, |data| / 3);
    if NameLength(x) == |x| then None else Some(TextOf(x))
  }

  /** The fields of a byte made of a high part and a low part of `base` values. */
  lemma Fields(high: nat, low: nat)
    ensures low < 4 ==> (high * 4 + low) / 4 == high && (high * 4 + low) % 4 == low
    ensures low < 16 ==> (high * 16 + low) / 16 == high && (high * 16 + low) % 16 == low
    ensures low < 64 ==> (high * 64 + low) / 64 == high && (high * 64 + low) % 64 == low
  {
  }

  /** Unpacking undoes packing. */
  lemma QuadRoundTrip(a: sextet, b: sextet, c: sextet, d: sextet)
    ensures var p := PackQuad(a, b, c, d); UnpackTriple(p[0], p[1], p[2]) == [a, b, c, d]
  {
    var bh, bl, ch, cl := b / 16, b % 16, c / 4, c % 4;
    assert b == bh * 16 + bl && c == ch * 4 + cl;
    Fields(a, bh);
    Fields(bl, ch);
    Fields(cl, d);
  }

  lemma {:induction false} UnpackPrefix(data: seq<byte>, more: seq<byte>, m: nat)
    requires 3 * m <= |data|
    ensures Unpack(data + more, m) == Unpack(data, m)
  {
    if m != 0 {
      UnpackPrefix(data, more, m - 1);
    }
  }

  /** One more quad on both sides. */
  lemma UnpackQuad(data: seq<byte>, q: seq<byte>, m: nat)
    requires |data| == 3 * m && |q| == 3
    ensures Unpack(data + q, m + 1) == Unpack(data, m) + UnpackTriple(q[0], q[1], q[2])
  {
    UnpackPrefix(data, q, m);
  }

  /** Unpacking undoes packing. */
  lemma {:induction false} PackRoundTrip(x: seq<sextet>, m: nat)
    requires |x| == 4 * m
    ensures |Pack(x)| == 3 * m && Unpack(Pack(x), m) == x
  {
    hide PackQuad, UnpackTriple;
    if m != 0 {
      var n := |x|;
      var init, a, b, c, d := x[..n - 4], x[n - 4], x[n - 3], x[n - 2], x[n - 1];
      PackRoundTrip(init, m - 1);
      QuadRoundTrip(a, b, c, d);
      UnpackQuad(Pack(init), PackQuad(a, b, c, d), m - 1);
      assert x == init + [a, b, c, d];
    }
  }

  /** A name over the alphabet ends at its padding. */
  lemma NameEnds(s: Text, size: int)
    requires IsName(s)
    ensures NameLength(Padded(s, size)) == |s| && TextOf(Padded(s, size)) == s
  {
    var x := Padded(s, size);
    forall i | 0 <= i < |s| ensures x[i] != TERMINATOR && FromSextet(x[i]) == s[i] {
      SextetRoundTrip(s[i], 0);
    }
    assert x[|s|] == TERMINATOR;
  }

  lemma DecodeIs(data: seq<byte>, x: seq<sextet>, m: nat)
    requires |data| == 3 * m && Unpack(data, m) == x
    ensures Decode(data) == if NameLength(x) == |x| then None else Some(TextOf(x))
  {
    hide UnpackTriple, TextOf;
    assert |data| / 3 == m;
  }

  /** What the writer stores for a name over the alphabet, of whatever length, the C decoder reads back. */
  lemma NameRoundTrip(s: Text, size: int)
    requires IsName(s)
    ensures Decode(Encode(s, size)) == Some(s)
    ensures |s| < size && size % 4 == 0 ==> |Encode(s, size)| == 3 * (size / 4)
  {
    hide Pack, Unpack, NameLength, TextOf;
    var x := Padded(s, size);
    PackRoundTrip(x, |x| / 4);
    NameEnds(s, size);
    DecodeIs(Encode(s, size), x, |x| / 4);
  }

  lemma ByteFields(x: nat, high: nat, low: nat)
    requires x == high * 256 + low && low < 256
    ensures x / 256 == high && x % 256 == low
  {
  }

  lemma SextetFields(x: nat, high: nat, low: nat)
    requires x == high * 64 + low && low < 64
    ensures x / 64 == high && x % 64 == low
  {
  }

  lemma DivTwice(x: nat)
    ensures x / 0x1_0000 == x / 256 / 256 && x / 0x1000 == x / 64 / 64 && x / 0x4_0000 == x / 64 / 64 / 64
  {
  }

  /** The value of a group of sextets, as the writer's buffer accumulates it. */
  function Value(x: seq<sextet>): (v: nat) {
    if x == [] then 0 else Value(x[..|x| - 1]) * 64 + x[|x| - 1]
  }

  lemma ValueOfQuad(x: seq<sextet>, a: nat, b: nat, c: nat, d: nat)
    requires x == [a, b, c, d]
    ensures Value(x) == ((a * 64 + b) * 64 + c) * 64 + d
  {
    assert x[..3][..2] == x[..2] && x[..2][..1] == x[..1] && x[..1][..0] == [];
    assert Value(x[..1]) == Value(x[..1][..0]) * 64 + a;
    assert Value(x[..2]) == Value(x[..2][..1]) * 64 + b;
    assert Value(x[..3]) == Value(x[..3][..2]) * 64 + c;
  }

  /** The bytes of a 24-bit buffer of four sextets are the bit fields. */
  lemma BytesOfBuffer(a: nat, b: nat, c: nat, d: nat, buffer: nat)
    requires a < 64 && b < 64 && c < 64 && d < 64 && buffer == ((a * 64 + b) * 64 + c) * 64 + d
    ensures buffer / 0x1_0000 % 256 == a * 4 + b / 16
    ensures buffer / 0x100 % 256 == b % 16 * 16 + c / 4
    ensures buffer % 256 == c % 4 * 64 + d
  {
    var bh, bl, ch, cl := b / 16, b % 16, c / 4, c % 4;
    var high, middle := a * 4 + bh, bl * 16 + ch;
    var top := high * 256 + middle;
    ByteFields(buffer, top, cl * 64 + d);
    ByteFields(top, high, middle);
    ByteFields(high, 0, high);
    DivTwice(buffer);
  }

  /** The sextets of a 24-bit buffer of three bytes are the bit fields. */
  lemma SextetsOfBuffer(p: nat, q: nat, r: nat, buffer: nat)
    requires p < 256 && q < 256 && r < 256 && buffer == (p * 256 + q) * 256 + r
    ensures buffer / 0x4_0000 % 64 == p / 4 && buffer / 0x1000 % 64 == p % 4 * 16 + q / 16
    ensures buffer / 64 % 64 == q % 16 * 4 + r / 64 && buffer % 64 == r % 64
  {
    var a, b, c := p / 4, p % 4 * 16 + q / 16, q % 16 * 4 + r / 64;
    var ab := a * 64 + b;
    var abc := ab * 64 + c;
    SextetFields(buffer, abc, r % 64);
    SextetFields(abc, ab, c);
    SextetFields(ab, a, b);
    SextetFields(a, 0, a);
    DivTwice(buffer);
  }

  /** The loop over the characters of a name. */
  method WriteSextets(text: Text) returns (chars: seq<sextet>, index: nat)
    ensures chars == Sextets(text) && index == |text| % 4
  {
    chars, index := [], 0;
    for i := 0 to |text|
      invariant chars == Sextets(text[..i]) && index == i % 4
    {
      assert text[..i + 1][..i] == text[..i];
      chars := chars + [ToSextet(text[i])];
      index := index + 1;
      if index == 4 {
        index := 0;
      }
    }
    assert text[..|text|] == text;
  }

  lemma OneTerminator(x: seq<sextet>, n: nat)
    ensures x + Terminators(n) + [TERMINATOR] == x + Terminators(n + 1)
  {
  }

  lemma NoTerminators(x: seq<sextet>)
    ensures x + Terminators(0) == x
  {
  }

  /** The loop that pads up to one character less than the field's size. */
  method PadToSize(chars0: seq<sextet>, index0: nat, size: int) returns (chars: seq<sextet>, index: nat, n: nat)
    requires index0 == |chars0| % 4
    ensures n == (if size - 1 > |chars0| then size - 1 - |chars0| else 0)
    ensures chars == chars0 + Terminators(n) && index == |chars| % 4
  {
    hide Terminators;
    chars, index, n := chars0, index0, 0;
    NoTerminators(chars0);
    while n < size - |chars0| - 1
      invariant n <= size - |chars0| - 1 || n == 0
      invariant chars == chars0 + Terminators(n) && index == |chars| % 4
    {
      OneTerminator(chars0, n);
      chars := chars + [TERMINATOR];
      n := n + 1;
      index := index + 1;
      if index == 4 {
        index := 0;
      }
    }
  }

  /** The two padding loops: up to the field's size, and from there to the end of the group of four. */
  method PadSextets(chars0: seq<sextet>, index0: nat, size: int) returns (chars: seq<sextet>)
    requires index0 == |chars0| % 4
    ensures chars == chars0 + Terminators(PaddedLength(|chars0|, size) - |chars0|)
  {
    hide Terminators;
    var index, n;
    chars, index, n := PadToSize(chars0, index0, size);
    ghost var length := PaddedLength(|chars0|, size);
    assert |chars| + 4 - index == length;
    while index < 4
      invariant index <= 4 && chars == chars0 + Terminators(n) && |chars| + 4 - index == length
    {
      OneTerminator(chars0, n);
      chars := chars + [TERMINATOR];
      n, index := n + 1, index + 1;
    }
  }

  /** The writer of a name field. */
  method WriteBase64(text: Text, size: int) returns (mbyte: seq<byte>)
    ensures mbyte == Encode(text, size)
  {
    var chars, index := WriteSextets(text);
    chars := PadSextets(chars, index, size);
    mbyte := PackSextets(chars);
  }

  /** The bytes of a full buffer, highest first. */
  method EmitQuad(buffer: nat, ghost x: seq<sextet>) returns (r: seq<byte>)
    requires |x| == 4 && buffer == Value(x)
    ensures r == PackQuad(x[0], x[1], x[2], x[3])
  {
    BufferHoldsQuad(buffer, x);
    r := [buffer / 0x1_0000 % 256, buffer / 0x100 % 256, buffer % 256];
  }

  lemma BufferHoldsQuad(buffer: nat, x: seq<sextet>)
    requires |x| == 4 && buffer == Value(x)
    ensures [buffer / 0x1_0000 % 256, buffer / 0x100 % 256, buffer % 256] == PackQuad(x[0], x[1], x[2], x[3])
  {
    ValueOfQuad(x, x[0], x[1], x[2], x[3]);
    BytesOfBuffer(x[0], x[1], x[2], x[3], buffer);
  }

  lemma PackAppend(x: seq<sextet>, q: seq<sextet>)
    requires |x| % 4 == 0 && |q| == 4
    ensures Pack(x + q) == Pack(x) + PackQuad(q[0], q[1], q[2], q[3])
  {
    assert (x + q)[..|x|] == x;
  }

  /** Appends a full buffer to what is already packed. */
  method AppendQuad(mbyte: seq<byte>, buffer: nat, ghost done: seq<sextet>, ghost group: seq<sextet>)
    returns (r: seq<byte>)
    requires |done| % 4 == 0 && |group| == 4 && buffer == Value(group) && mbyte == Pack(done)
    ensures r == Pack(done + group)
  {
    r := EmitQuad(buffer, group);
    PackAppend(done, group);
    r := mbyte + r;
  }

  lemma ValueAppend(x: seq<sextet>, y: sextet)
    ensures Value(x + [y]) == Value(x) * 64 + y
  {
    assert (x + [y])[..|x|] == x;
  }

  lemma NothingPacked()
    ensures Pack([]) == [] && Value([]) == 0
  {
  }

  /** The packing loop of the writer. */
  method PackSextets(chars: seq<sextet>) returns (mbyte: seq<byte>)
    requires |chars| % 4 == 0
    ensures mbyte == Pack(chars)
  {
    hide Pack, Value;
    NothingPacked();
    mbyte := [];
    var buffer: nat, index: nat := 0, 0;
    ghost var done, group: seq<sextet> := [], [];
    for i := 0 to |chars|
      invariant index == |group| < 4 && |done| % 4 == 0
      invariant done + group == chars[..i]
      invariant mbyte == Pack(done) && buffer == Value(group)
    {
      ValueAppend(group, chars[i]);
      assert done + (group + [chars[i]]) == chars[..i + 1];
      buffer := buffer * 64 + chars[i];
      group := group + [chars[i]];
      index := index + 1;
      if index == 4 {
        mbyte := AppendQuad(mbyte, buffer, done, group);
        done, group := done + group, [];
        buffer, index := 0, 0;
      }
    }
    assert done == chars;
  }

  /** The sextet that the reader's mask and shift pick from its buffer. */
  function Pick(buffer: nat, p: nat): (r: sextet)
    requires p < 4
  {
    buffer / (if p == 0 then 0x4_0000 else if p == 1 then 0x1000 else if p == 2 then 64 else 1) % 64
  }

  lemma NameLengthIs(x: seq<sextet>, n: nat)
    requires n <= |x| && (forall i :: 0 <= i < n ==> x[i] != TERMINATOR) && (n < |x| ==> x[n] == TERMINATOR)
    ensures NameLength(x) == n
  {
  }

  lemma {:induction false} UnpackAt(data: seq<byte>, size: nat, m: nat, x: seq<sextet>)
    requires m < size && 3 * size <= |data| && x == Unpack(data, size)
    ensures x[4 * m..4 * m + 4] == UnpackTriple(data[3 * m], data[3 * m + 1], data[3 * m + 2])
  {
    if m < size - 1 {
      UnpackAt(data, size - 1, m, Unpack(data, size - 1));
      assert x[4 * m..4 * m + 4] == Unpack(data, size - 1)[4 * m..4 * m + 4];
    }
  }

  lemma PicksAreTriple(p: byte, q: byte, r: byte, buffer: nat)
    requires buffer == (p as nat * 256 + q) * 256 + r
    ensures [Pick(buffer, 0), Pick(buffer, 1), Pick(buffer, 2), Pick(buffer, 3)] == UnpackTriple(p, q, r)
  {
    SextetsOfBuffer(p, q, r, buffer);
  }

  /** The decoder's full buffer holds the sextets of its group. */
  lemma PicksAreGroup(data: seq<byte>, size: nat, m: nat, x: seq<sextet>, buffer: nat)
    requires m < size && 3 * size <= |data| && x == Unpack(data, size)
    requires buffer == (data[3 * m] as nat * 256 + data[3 * m + 1]) * 256 + data[3 * m + 2]
    ensures x[4 * m..4 * m + 4] == [Pick(buffer, 0), Pick(buffer, 1), Pick(buffer, 2), Pick(buffer, 3)]
  {
    UnpackAt(data, size, m, x);
    PicksAreTriple(data[3 * m], data[3 * m + 1], data[3 * m + 2], buffer);
  }

  /** The first `k` sextets, none of them a terminator, are in place at `at`; the rest is as before. */
  ghost predicate Stored(now: seq<byte>, before: seq<byte>, at: nat, x: seq<sextet>, k: nat) {
    && k <= |x| && at + |x| <= |now| == |before|
    && (forall i :: 0 <= i < k ==> x[i] != TERMINATOR)
    && forall i :: 0 <= i < |now| ==> now[i] == if at <= i < at + k then FromSextet(x[i - at]) else before[i]
  }

  /** The field is in place with its closing 0, and no byte outside the field's slot has changed. */
  ghost predicate Closed(now: seq<byte>, before: seq<byte>, at: nat, x: seq<sextet>) {
    var n := NameLength(x);
    && n < |x| && at + |x| <= |now| == |before| && now[at + n] == 0
    && (forall i :: at <= i < at + n ==> now[i] == FromSextet(x[i - at]))
    && forall i :: 0 <= i < |now| && !(at <= i < at + |x|) ==> now[i] == before[i]
  }

  /** The inner loop of the decoder: the characters of group `m`, up to the 0 of a terminator. */
  method DecodeGroup(buffer: nat, text: array<byte>, at: nat, m: nat, ghost before: seq<byte>, ghost x: seq<sextet>)
    returns (more: bool)
    requires 4 * m + 4 <= |x|
    requires x[4 * m..4 * m + 4] == [Pick(buffer, 0), Pick(buffer, 1), Pick(buffer, 2), Pick(buffer, 3)]
    requires Stored(text[..], before, at, x, 4 * m)
    modifies text
    ensures more ==> Stored(text[..], before, at, x, 4 * m + 4)
    ensures !more ==> Closed(text[..], before, at, x)
  {
    hide Pick, NameLength;
    var k := at + 4 * m;
    for p := 0 to 4
      invariant k == at + 4 * m + p && Stored(text[..], before, at, x, 4 * m + p)
    {
      var base := Pick(buffer, p);
      assert base == x[4 * m..4 * m + 4][p];
      SextetRoundTrip(0, base);
      text[k] := FromSextet(base);
      if text[k] == 0 {
        NameLengthIs(x, 4 * m + p);
        return false;
      }
      k := k + 1;
    }
    more := true;
  }

  /**
   The C decoder, writing into `text` from `at` on. It stores the text of the field and its closing 0;
   without a terminator it stores all characters and reports so.
   */
  method From64ToBytes(data: seq<byte>, size: nat, text: array<byte>, at: nat) returns (unterminated: bool)
    requires size <= |data| && at + size / 3 * 4 <= text.Length
    modifies text
    ensures var x := Unpack(data, size / 3);
            if unterminated then Stored(text[..], old(text[..]), at, x, |x|)
            else Closed(text[..], old(text[..]), at, x)
  {
    hide UnpackTriple, Closed, Pick;
    var buffer: nat, index: nat, group: nat := 0, 0, 0;
    ghost var x := Unpack(data, size / 3);
    for n := 0 to size
      invariant index < 3 && n == 3 * group + index
      invariant index == 0 ==> buffer == 0
      invariant index == 1 ==> buffer == data[n - 1]
      invariant index == 2 ==> buffer == data[n - 2] as nat * 256 + data[n - 1]
      invariant Stored(text[..], old(text[..]), at, x, 4 * group)
    {
      buffer := buffer * 256 + data[n];
      index := index + 1;
      if index == 3 {
        PicksAreGroup(data, size / 3, group, x, buffer);
        var more := DecodeGroup(buffer, text, at, group, old(text[..]), x);
        if !more {
          return false;
        }
        group, index, buffer := group + 1, 0, 0;
      }
    }
    unterminated := true;
  }

  // ---- The Python decoder ----

  /** Every group's text up to its own first terminator, one after the other. */
  function ReadGroups(data: seq<byte>, m: nat): (t: seq<byte>)
    requires 3 * m <= |data|
  {
    if m == 0 then []
    else ReadGroups(data, m - 1) + TextOf(UnpackTriple(data[3 * m - 3], data[3 * m - 2], data[3 * m - 1]))
  }

  /** The inner loop of the Python decoder, which leaves only its own group at a terminator. */
  method ReadGroup(text0: seq<byte>, buffer: nat, ghost x: seq<sextet>) returns (text: seq<byte>)
    requires x == [Pick(buffer, 0), Pick(buffer, 1), Pick(buffer, 2), Pick(buffer, 3)]
    ensures text == text0 + TextOf(x)
  {
    hide Pick, NameLength;
    text := text0;
    for n := 0 to 4
      invariant text == text0 + Characters(x[..n]) && forall i :: 0 <= i < n ==> x[i] != TERMINATOR
    {
      var chara := Pick(buffer, n);
      assert chara == x[n];
      SextetRoundTrip(0, chara);
      if FromSextet(chara) == 0 {
        NameLengthIs(x, n);
        return;
      }
      assert x[..n + 1][..n] == x[..n];
      text := text + [FromSextet(chara)];
    }
    NameLengthIs(x, 4);
  }

  /** The Python decoder. */
  method ReadBase64(data: seq<byte>) returns (text: seq<byte>)
    ensures text == ReadGroups(data, |data| / 3)
  {
    hide Pick, TextOf, UnpackTriple;
    var buffer: nat, index: nat, group: nat := 0, 0, 0;
    text := [];
    for n := 0 to |data|
      invariant index < 3 && n == 3 * group + index
      invariant index == 0 ==> buffer == 0
      invariant index == 1 ==> buffer == data[n - 1]
      invariant index == 2 ==> buffer == data[n - 2] as nat * 256 + data[n - 1]
      invariant text == ReadGroups(data, group)
    {
      buffer := buffer * 256 + data[n];
      index := index + 1;
      if index == 3 {
        PicksAreTriple(data[n - 2], data[n - 1], data[n], buffer);
        text := ReadGroup(text, buffer, UnpackTriple(data[n - 2], data[n - 1], data[n]));
        group, index, buffer := group + 1, 0, 0;
      }
    }
  }

  function Min(a: nat, b: nat): (m: nat) {
    if a < b then a else b
  }

  lemma TextIs(g: seq<sextet>, part: Text)
    requires |part| <= |g| && (forall i :: 0 <= i < |part| ==> g[i] != TERMINATOR && FromSextet(g[i]) == part[i])
    requires |part| < |g| ==> g[|part|] == TERMINATOR
    ensures TextOf(g) == part
  {
    NameLengthIs(g, |part|);
  }

  lemma PaddedAt(s: Text, size: int, i: nat)
    requires i < |Padded(s, size)|
    ensures Padded(s, size)[i] == if i < |s| then ToSextet(s[i]) else TERMINATOR
  {
  }

  /** The text of one group of a padded name. */
  lemma GroupText(s: Text, size: int, g: seq<sextet>, m: nat)
    requires IsName(s) && 4 * m + 4 <= |Padded(s, size)| && g == Padded(s, size)[4 * m..4 * m + 4]
    ensures TextOf(g) == s[Min(4 * m, |s|)..Min(4 * m + 4, |s|)]
  {
    hide Padded, TextOf, ToSextet, FromSextet;
    var lo, hi := Min(4 * m, |s|), Min(4 * m + 4, |s|);
    forall i | 0 <= i < hi - lo
      ensures g[i] != TERMINATOR && FromSextet(g[i]) == s[lo..hi][i]
    {
      PaddedAt(s, size, 4 * m + i);
      SextetRoundTrip(s[4 * m + i], 0);
    }
    if hi - lo < 4 {
      PaddedAt(s, size, 4 * m + (hi - lo));
    }
    TextIs(g, s[lo..hi]);
  }

  lemma {:induction false} ReadGroupsOfName(s: Text, size: int, data: seq<byte>, groups: nat, m: nat)
    requires IsName(s) && m <= groups && |data| == 3 * groups && Unpack(data, groups) == Padded(s, size)
    ensures ReadGroups(data, m) == s[..Min(4 * m, |s|)]
  {
    hide TextOf, UnpackTriple, Padded, Unpack;
    if m != 0 {
      ReadGroupsOfName(s, size, data, groups, m - 1);
      UnpackAt(data, groups, m - 1, Padded(s, size));
      GroupText(s, size, UnpackTriple(data[3 * m - 3], data[3 * m - 2], data[3 * m - 1]), m - 1);
      var lo, hi := Min(4 * (m - 1), |s|), Min(4 * m, |s|);
      assert s[..lo] + s[lo..hi] == s[..hi];
    }
  }

  /** What the writer stores for a name, the Python decoder reads back too. */
  lemma PythonRoundTrip(s: Text, size: int)
    requires IsName(s)
    ensures ReadGroups(Encode(s, size), |Encode(s, size)| / 3) == s
  {
    hide Pack, Unpack, ReadGroups;
    var x := Padded(s, size);
    var groups := |x| / 4;
    PackRoundTrip(x, groups);
    ReadGroupsOfName(s, size, Encode(s, size), groups, groups);
    assert |Encode(s, size)| / 3 == groups;
    assert s[..|s|] == s;
  }
}
