/** The bit-count checksum of the disk pages: its C reader, its Python writer, and what it detects. */
module Checksum {
  import opened Bits
  import opened Bytes

  /** The number of set bits. */
  function Ones(n: nat): nat {
    if n == 0 then 0 else n % 2 + Ones(n / 2)
  }

  function TotalOnes(data: seq<byte>): nat {
    if data == [] then 0 else TotalOnes(data[..|data| - 1]) + Ones(data[|data| - 1])
  }

  /** The checksum as a function of the number of set bits. */
  function Sum(data: seq<byte>): (r: byte) {
    255 - TotalOnes(data) % 256
  }

  /** No set bit gives the largest checksum, and every set bit one less, around the end of a byte. */
  lemma SumCounts(data: seq<byte>)
    ensures (Sum(data) + TotalOnes(data)) % 256 == 255 && Sum([]) == 255 && Sum([0xFF]) == 247
  {
    assert [0xFF][..0] == [];
    assert Ones(1) == 1 && Ones(3) == 2 && Ones(7) == 3 && Ones(15) == 4 && Ones(31) == 5 && Ones(63) == 6;
    assert Ones(127) == 7 && Ones(255) == 8;
    assert TotalOnes([0xFF]) == 8;
  }

  /** The bits of `b` from `k` up are bit `k` and the bits from `k + 1` up. */
  lemma OnesFromBit(b: nat, k: nat)
    ensures Ones(Shr(b, k)) == And(Shr(b, k), 1) + Ones(Shr(b, k + 1))
  {
    ShrNext(b, k);
    AndOne(Shr(b, k));
  }

  lemma AddWraps(x: nat, y: nat)
    ensures (x % 256 + y) % 256 == (x + y) % 256
  {
  }

  /** The inner loop of the C routine, from the top bit down, with its wrapping 8-bit accumulator. */
  method AddBits(b: byte, counted0: byte) returns (counted: byte)
    ensures counted == (counted0 + Ones(b)) % 256
  {
    counted := counted0;
    var bit := 8;
    Shr8(b);
    while bit > 0
      invariant 0 <= bit <= 8
      invariant counted == (counted0 + Ones(Shr(b, bit))) % 256
    {
      bit := bit - 1;
      OnesFromBit(b, bit);
      var one := And(Shr(b, bit), 1);
      AddWraps(counted0 + Ones(Shr(b, bit + 1)), one);
      counted := (counted + one) % 256;
    }
    assert Shr(b, 0) == b;
  }

  /** The C routine. */
  method ControlCountSum(data: seq<byte>, size: nat) returns (r: byte)
    requires size <= |data|
    ensures r == Sum(data[..size])
  {
    var counted: byte := 0;
    for n := 0 to size
      invariant counted == TotalOnes(data[..n]) % 256
    {
      AddWraps(TotalOnes(data[..n]), Ones(data[n]));
      counted := AddBits(data[n], counted);
      assert data[..n + 1][..n] == data[..n];
    }
    r := 255 - counted;
  }

  lemma Shr8(b: byte)
    ensures Ones(Shr(b, 8)) == 0
  {
    WordSizes();
    ShrIsDiv(b, 8);
  }

  /** The Python writer, which reduces an unbounded count once, at the end. */
  method WriterSum(data: seq<byte>) returns (r: byte)
    ensures r == Sum(data)
  {
    var csum: nat := 0;
    for c := 0 to |data|
      invariant csum == TotalOnes(data[..c])
    {
      Shr8(data[c]);
      for n := 0 to 8
        invariant csum == TotalOnes(data[..c]) + Ones(Shr(data[c], 8 - n))
      {
        var index := 7 - n;
        OnesFromBit(data[c], index);
        csum := csum + And(Shr(data[c], index), 1);
      }
      assert Shr(data[c], 0) == data[c];
      assert data[..c + 1][..c] == data[..c];
    }
    assert data[..|data|] == data;
    WordSizes();
    AndMask(csum, 8);
    csum := And(csum, 0xFF);
    ShlOfPow2(0, 8);
    r := Shl(1, 8) - 1 - csum;
  }

  /** Bit `k` inverted. */
  function Flip(b: nat, k: nat): (r: nat)
    ensures r != b && (Ones(r) == Ones(b) + 1 || Ones(r) + 1 == Ones(b))
  {
    if k == 0 then if b % 2 == 1 then b - 1 else b + 1
    else 2 * Flip(b / 2, k - 1) + b % 2
  }

  lemma {:induction false} FlipStaysInRange(b: nat, k: nat, width: nat)
    requires b < Pow2(width) && k < width
    ensures Flip(b, k) < Pow2(width)
  {
    hide Pow2;
    Pow2Next(width - 1);
    var p := Pow2(width - 1);
    if k == 0 {
      OddEnd(b, p);
    } else {
      FlipStaysInRange(b / 2, k - 1, width - 1);
      assert Flip(b, k) == 2 * Flip(b / 2, k - 1) + b % 2;
    }
  }

  /** An even number below an even bound has room for its low bit. */
  lemma OddEnd(b: nat, p: nat)
    requires b < 2 * p
    ensures b % 2 == 0 ==> b + 1 < 2 * p
  {
  }

  /** The page with bit `k` of byte `i` inverted. */
  function Corrupt(page: seq<byte>, i: nat, k: nat): (r: seq<byte>)
    requires i < |page| && k < 8
  {
    WordSizes();
    FlipStaysInRange(page[i], k, 8);
    page[i := Flip(page[i], k)]
  }

  /** The check that every reader makes: the last byte is the sum of those before it. */
  predicate Accepts(page: seq<byte>)
    requires page != []
  {
    Sum(page[..|page| - 1]) == page[|page| - 1]
  }

  lemma {:induction false} TotalOnesUpdate(data: seq<byte>, i: nat, b: byte)
    requires i < |data|
    ensures TotalOnes(data[i := b]) == TotalOnes(data) - Ones(data[i]) + Ones(b)
  {
    var init := data[..|data| - 1];
    if i == |init| {
      assert data[i := b][..|init|] == init;
    } else {
      TotalOnesUpdate(init, i, b);
      assert data[i := b][..|init|] == init[i := b];
    }
  }

  /** A single inverted bit, in the payload or in the checksum byte, is always noticed. */
  lemma SingleBitErrorsAreDetected(page: seq<byte>, i: nat, k: nat)
    requires i < |page| && k < 8 && Accepts(page)
    ensures !Accepts(Corrupt(page, i, k))
  {
    var payload, bad := page[..|page| - 1], Corrupt(page, i, k);
    if i < |payload| {
      TotalOnesUpdate(payload, i, bad[i]);
      assert bad[..|payload|] == payload[i := bad[i]];
    } else {
      assert bad[..|payload|] == payload;
    }
  }
}
