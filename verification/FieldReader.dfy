/** How the C readers take packed names out of a page. */
module FieldReader {
  import opened Bytes
  import opened NameCodec
  import opened CStrings
  import opened Pages

  /** What a decoded field leaves in memory, in terms of the text it packs. */
  lemma ClosedHoldsText(now: seq<byte>, before: seq<byte>, at: nat, data: seq<byte>, m: nat)
    requires |data| == 3 * m && Closed(now, before, at, Unpack(data, m))
    ensures Decode(data).Some? && Holds(now, at, Decode(data).value) && |Decode(data).value| < 4 * m
    ensures forall i :: 0 <= i < |now| && !(at <= i < at + 4 * m) ==> now[i] == before[i]
  {
    hide Unpack;
    var x := Unpack(data, m);
    DecodeIs(data, x, m);
    var n := NameLength(x);
    forall i | 0 <= i < n ensures now[at + i] == TextOf(x)[i] != 0 {
      SextetRoundTrip(0, x[i]);
    }
  }

  lemma StoredHasNoText(now: seq<byte>, before: seq<byte>, at: nat, data: seq<byte>, m: nat)
    requires |data| == 3 * m && Stored(now, before, at, Unpack(data, m), 4 * m)
    ensures Decode(data).None?
  {
    hide Unpack;
    DecodeIs(data, Unpack(data, m), m);
    NameLengthIs(Unpack(data, m), 4 * m);
  }

  /** Decodes the packed field of `size` bytes at `index` into the memory at `at`. */
  method DecodeField(read: seq<byte>, index: nat, size: nat, text: array<byte>, at: nat) returns (unterminated: bool)
    requires size % 3 == 0 && index + size <= |read| && at + size / 3 * 4 <= text.Length
    modifies text
    ensures unterminated <==> Decode(read[index..index + size]).None?
    ensures !unterminated ==> Holds(text[..], at, Decode(read[index..index + size]).value)
    ensures !unterminated ==> |Decode(read[index..index + size]).value| < size / 3 * 4
    ensures forall i :: 0 <= i < text.Length && !(at <= i < at + size / 3 * 4) ==> text[i] == old(text[i])
  {
    hide Unpack, Decode, Closed, Stored;
    ghost var before := text[..];
    var data := read[index..index + size];
    unterminated := From64ToBytes(data, size, text, at);
    if unterminated {
      StoredHasNoText(text[..], before, at, data, size / 3);
      StoredFrame(text[..], before, at, Unpack(data, size / 3));
    } else {
      ClosedHoldsText(text[..], before, at, data, size / 3);
    }
  }

  lemma StoredFrame(now: seq<byte>, before: seq<byte>, at: nat, x: seq<sextet>)
    requires Stored(now, before, at, x, |x|)
    ensures forall i :: 0 <= i < |now| && !(at <= i < at + |x|) ==> now[i] == before[i]
  {
  }

  /** Decodes a field into a buffer of its own and compares it with an expected string. */
  method FieldStartsWith(read: seq<byte>, index: nat, size: nat, expected: seq<byte>) returns (r: bool)
    requires size % 3 == 0 && index + size <= |read| && |expected| < size / 3 * 4
    requires forall i :: 0 <= i < |expected| ==> expected[i] != 0
    ensures r <==> Decode(read[index..index + size]).Some? && expected <= Decode(read[index..index + size]).value
  {
    hide Decode;
    var length := size / 3 * 4;
    var buffer := new byte[length];
    var unterminated := DecodeField(read, index, size, buffer, 0);
    if unterminated {
      return false;
    }
    var constant := expected + [0];
    CStringIs(constant, length, expected);
    r := Compare(constant, buffer[..], length);
    PrefixOfHeld(expected, buffer[..], Decode(read[index..index + size]).value);
  }

  lemma PrefixOfHeld(query: seq<byte>, buffer: seq<byte>, text: seq<byte>)
    requires Holds(buffer, 0, text) && forall i :: 0 <= i < |query| ==> query[i] != 0
    ensures query <= buffer <==> query <= text
  {
    PrefixOfString(query, buffer, text);
  }

  /** Names in other slots stay what they are. */
  lemma NameStays(now: seq<byte>, before: seq<byte>, i: nat, slot: nat, text: seq<byte>)
    requires |now| == |before| && Holds(before, 16 * i, text) && |text| < 16 && i != slot
    requires forall k :: 0 <= k < |now| && !(16 * slot <= k < 16 * slot + 16) ==> now[k] == before[k]
    ensures Holds(now, 16 * i, text)
  {
  }
}
