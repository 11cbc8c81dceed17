/** The 32-step shift-subtract division of model/divison.py. */
module Division {
  import opened Bits
  import opened Bytes

  /** Shifts the top bit of one 32-bit register into another. */
  method ShiftIn(x: nat, top: nat) returns (r: nat)
    ensures r == (2 * x + top / 0x8000_0000 % 2) % TWO_32
  {
    var b := And(Shr(top, 31), 1);
    r := And(Or(Shl(x, 1), b), 0xFFFF_FFFF);
    WordSizes();
    ShrIsDiv(top, 31);
    AndOne(Shr(top, 31));
    OrLow(x, b, 1);
    AndMask(2 * x + b, 32);
  }

  /** Shifts a zero into a 32-bit register. */
  method ShiftLeft(x: nat) returns (r: nat)
    ensures r == 2 * x % TWO_32
  {
    r := And(Or(Shl(x, 1), 0), 0xFFFF_FFFF);
    WordSizes();
    OrLow(x, 0, 1);
    AndMask(2 * x, 32);
  }

  method SetLowBit(x: nat) returns (r: nat)
    requires x % 2 == 0
    ensures r == x + 1
  {
    OrLow(x / 2, 1, 1);
    r := Or(x, 1);
  }

  /**
   After `n` steps the bits consumed so far are `prefix`, and prefix and rest together are the dividend
   shifted up by `n`: the prefix is still short enough that doubling it loses nothing.
   */
  lemma PrefixIsShort(dividend: u32, prefix: nat, a: u32, n: nat)
    requires n <= 31 && prefix * TWO_32 + a == Shl(dividend, n)
    ensures prefix < 0x8000_0000
  {
    WordSizes();
    ShlGrows(dividend, n, 31);
    ShlMono(dividend, Pow2(32), 31);
    ShlOfPow2(32, 31);
  }

  /** One shift of the three registers; none of the masks drops a set bit of ACC or QUO. */
  method Shift(a0: u32, acc0: nat, quo0: nat) returns (acc: nat, a: u32, quo: nat)
    requires acc0 < 0x8000_0000 && quo0 < 0x8000_0000
    ensures acc * TWO_32 + a == 2 * (acc0 * TWO_32 + a0) && quo == 2 * quo0 && acc <= 2 * acc0 + 1
  {
    acc := ShiftIn(acc0, a0);
    a := ShiftIn(a0, quo0);
    quo := ShiftLeft(quo0);
  }

  /** The conditional subtraction keeps the value consumed so far, and makes the remainder a remainder again. */
  method Subtract(divisor: nat, acc0: nat, quo0: nat) returns (acc: nat, quo: nat)
    requires acc0 < 2 * divisor && quo0 % 2 == 0
    ensures divisor * quo + acc == divisor * quo0 + acc0 && acc < divisor
  {
    acc, quo := acc0, quo0;
    if acc >= divisor {
      acc := acc - divisor;
      quo := SetLowBit(quo);
    }
  }

  lemma QuotientIsShort(divisor: nat, quo: nat)
    requires divisor > 0
    ensures quo <= divisor * quo
  {
    if divisor > 1 {
      MulMono(quo, 1, divisor);
    }
  }

  lemma ShlNext(x: nat, n: nat)
    ensures Shl(x, n + 1) == 2 * Shl(x, n)
  {
  }

  /** Shifting the registers doubles what they stand for. */
  lemma StepDoubles(divisor: nat, quo0: nat, acc0: nat, a0: nat, quo: nat, acc: nat, a: nat, prefix: nat)
    requires quo == 2 * quo0 && acc * TWO_32 + a == 2 * (acc0 * TWO_32 + a0) && prefix == divisor * quo0 + acc0
    ensures (divisor * quo + acc) * TWO_32 + a == 2 * (prefix * TWO_32 + a0)
  {
    var product := divisor * quo0;
    assert divisor * quo == 2 * product;
  }

  /** One iteration: from the bits consumed after `n` steps to those after `n + 1`. */
  method Iterate(dividend: u32, divisor: nat, n: nat, a0: u32, acc0: nat, quo0: nat)
    returns (a: u32, acc: nat, quo: nat)
    requires n < 32 && acc0 < divisor && (divisor * quo0 + acc0) * TWO_32 + a0 == Shl(dividend, n)
    ensures acc < divisor && (divisor * quo + acc) * TWO_32 + a == Shl(dividend, n + 1)
  {
    hide Shl;
    ghost var prefix := divisor * quo0 + acc0;
    PrefixIsShort(dividend, prefix, a0, n);
    QuotientIsShort(divisor, quo0);
    acc, a, quo := Shift(a0, acc0, quo0);
    StepDoubles(divisor, quo0, acc0, a0, quo, acc, a, prefix);
    ghost var doubled := divisor * quo + acc;
    acc, quo := Subtract(divisor, acc, quo);
    assert divisor * quo + acc == doubled;
    ShlNext(dividend, n);
  }

  /** Quotient and remainder, for every 32-bit dividend and every positive divisor. */
  method Divide(dividend: u32, divisor: nat) returns (quo: nat, acc: nat)
    requires divisor > 0
    ensures quo == dividend / divisor && acc == dividend % divisor
  {
    acc, quo := 0, 0;
    var a: u32 := dividend;
    for n := 0 to 32
      invariant acc < divisor && (divisor * quo + acc) * TWO_32 + a == Shl(dividend, n)
    {
      a, acc, quo := Iterate(dividend, divisor, n, a, acc, quo);
    }
    Finish(dividend, divisor * quo + acc, a);
    DivModUnique(dividend, divisor, quo, acc);
  }

  lemma Finish(dividend: u32, prefix: nat, a: u32)
    requires prefix * TWO_32 + a == Shl(dividend, 32)
    ensures prefix == dividend
  {
    WordSizes();
    ShlIsMul(dividend, 32);
  }

  lemma {:induction false} ShlIsMul(x: nat, n: nat)
    ensures Shl(x, n) == x * Pow2(n)
  {
    if n != 0 {
      ShlIsMul(x, n - 1);
    }
  }
}
