/** The integer conversion of the log output, for any base, on 32-bit values. */
module Printing {
  import opened Bits
  import opened Bytes
  import opened Wrappers

  type Digits = seq<nat>

  // ---- Numerals ----

  function Power(base: nat, k: nat): (p: nat)
    ensures base > 0 ==> p > 0
  {
    if k == 0 then 1 else base * Power(base, k - 1)
  }

  /** The number that a row of digits stands for. */
  function Value(d: Digits, base: nat): (v: nat) {
    if d == [] then 0 else Value(d[..|d| - 1], base) * base + d[|d| - 1]
  }

  /** A numeral in a base, without leading zeros but for 0 itself. */
  predicate Canonical(d: Digits, base: nat) {
    d != [] && (forall i :: 0 <= i < |d| ==> d[i] < base) && (d[0] == 0 ==> |d| == 1)
  }

  lemma DivShrinks(v: nat, base: nat)
    requires base >= 2
    ensures v >= base ==> 0 < v / base < v
    ensures v % base < base && (v < base ==> v / base == 0 && v % base == v)
  {
    if v < base {
      DivModUnique(v, base, 0, v);
    }
  }

  /** The numeral of a number. */
  function Numeral(v: nat, base: nat): (d: Digits)
    requires base >= 2
    ensures Canonical(d, base) && (d[0] == 0 ==> v == 0)
    decreases v
  {
    DivShrinks(v, base);
    if v < base then [v] else Numeral(v / base, base) + [v % base]
  }

  lemma NumeralStep(v: nat, base: nat)
    requires base >= 2
    ensures Numeral(v, base) == if v < base then [v] else Numeral(v / base, base) + [v % base]
  {
  }

  lemma DivMod(v: nat, base: nat)
    requires base > 0
    ensures v == v / base * base + v % base
  {
  }

  lemma ValueAppend(d: Digits, x: nat, base: nat)
    ensures Value(d + [x], base) == Value(d, base) * base + x
  {
    assert (d + [x])[..|d|] == d;
  }

  lemma Nothing(base: nat)
    ensures Value([], base) == 0
  {
  }

  /** The numeral stands for its number. */
  lemma {:induction false} NumeralValue(v: nat, base: nat)
    requires base >= 2
    ensures Value(Numeral(v, base), base) == v
    decreases v
  {
    hide Numeral, Value;
    NumeralStep(v, base);
    DivShrinks(v, base);
    if v < base {
      Nothing(base);
      ValueAppend([], v, base);
      assert [] + [v] == [v];
    } else {
      NumeralValue(v / base, base);
      ValueAppend(Numeral(v / base, base), v % base, base);
      DivMod(v, base);
    }
  }

  /** No other canonical row of digits stands for the same number. */
  lemma {:induction false} NumeralIsUnique(d: Digits, base: nat)
    requires base >= 2 && Canonical(d, base)
    ensures Numeral(Value(d, base), base) == d
  {
    hide Numeral, Value;
    var n := |d| - 1;
    var init, last := d[..n], d[n];
    var v, high := Value(d, base), Value(init, base);
    assert d == init + [last];
    ValueAppend(init, last, base);
    NumeralStep(v, base);
    if n == 0 {
      Nothing(base);
      assert init == [];
    } else {
      NumeralIsUnique(init, base);
      NotZero(init, base);
      DivModUnique(v, base, high, last);
      AtLeastBase(high, last, base);
    }
  }

  lemma AtLeastBase(a: nat, x: nat, base: nat)
    requires a > 0
    ensures a * base + x >= base
  {
  }

  lemma {:induction false} NotZero(d: Digits, base: nat)
    requires base >= 2 && Canonical(d, base) && d[0] != 0
    ensures Value(d, base) > 0
  {
    hide Value;
    var n := |d| - 1;
    ValueAppend(d[..n], d[n], base);
    assert d == d[..n] + [d[n]];
    if n > 0 {
      NotZero(d[..n], base);
      AtLeastBase(Value(d[..n], base), d[n], base);
    }
  }

  // ---- The digit loops ----

  /** The low `k` digits of a number, with leading zeros. */
  function Row(v: nat, base: nat, k: nat): (d: Digits)
    requires base >= 2
    ensures |d| == k
    decreases k
  {
    if k == 0 then [] else Row(v / base, base, k - 1) + [v % base]
  }

  /** The numeral is the row of as many digits as it has. */
  lemma {:induction false} NumeralIsRow(v: nat, base: nat)
    requires base >= 2
    ensures Numeral(v, base) == Row(v, base, |Numeral(v, base)|)
    decreases v
  {
    hide Numeral, Row;
    NumeralStep(v, base);
    DivShrinks(v, base);
    RowStep(v, base, |Numeral(v, base)|);
    if v >= base {
      NumeralIsRow(v / base, base);
      RowStep(v, base, |Numeral(v / base, base)| + 1);
    }
  }

  lemma {:induction false} NumeralBelow(v: nat, base: nat)
    requires base >= 2
    ensures v < Power(base, |Numeral(v, base)|)
    decreases v
  {
    hide Numeral, Power;
    var k := |Numeral(v, base)|;
    NumeralStep(v, base);
    DivShrinks(v, base);
    RowStep(v, base, k);
    if v >= base {
      var h := v / base;
      NumeralBelow(h, base);
      BelowTimes(v, base, Power(base, k - 1));
    }
  }

  lemma BelowTimes(v: nat, base: nat, p: nat)
    requires base > 0 && v / base < p
    ensures v < base * p
  {
    DivMod(v, base);
    MulMono(base, v / base, p);
  }

  /** Dividing by the place value splits off the first digit. */
  lemma {:induction false} FirstDigit(v: nat, base: nat, k: nat, p: nat)
    requires base >= 2 && k > 0 && p == Power(base, k - 1) && v < base * p
    ensures v / p < base && Row(v, base, k) == [v / p] + Row(v % p, base, k - 1)
    decreases k
  {
    hide Row, Power;
    RowStep(v, base, k);
    if k == 1 {
      SingleDigit(v, base);
    } else {
      var q := Power(base, k - 2);
      var a, r, l := Places(v, base, p, q);
      var h := v / base;
      FirstDigit(h, base, k - 1, q);
      RowStep(v % p, base, k - 1);
      Regrouped(a, Row(r, base, k - 2), l);
    }
  }

  lemma Regrouped(a: nat, row: Digits, l: nat)
    ensures [a] + row + [l] == [a] + (row + [l])
  {
  }

  lemma SingleDigit(v: nat, base: nat)
    requires v < base
    ensures v / base == 0 && v % base == v && v / 1 == v && v % 1 == 0
    ensures base >= 2 ==> Row(v, base, 1) == [v] && Row(0, base, 0) == []
  {
    DivModUnique(v, base, 0, v);
  }

  /** The first digit, the last one, and what is between them. */
  lemma Places(v: nat, base: nat, p: nat, q: nat) returns (a: nat, r: nat, l: nat)
    requires base >= 2 && q > 0 && p == base * q && v < base * p
    ensures v / base < p && v % base == l && v / base / q == a && v / base % q == r
    ensures v / p == a && v % p / base == r && v % p % base == l
  {
    var h := v / base;
    BelowPower(v, base, p);
    a, r, l := SplitNumber(v, base, q, h);
    SplitPlaces(v, base, q, h, a, r, l);
  }

  lemma SplitNumber(v: nat, base: nat, q: nat, h: nat) returns (a: nat, r: nat, l: nat)
    requires base >= 2 && q > 0 && h == v / base
    ensures a == h / q && r == h % q && l == v % base && r < q && l < base
    ensures h == a * q + r && v == h * base + l
  {
    a, r, l := h / q, h % q, v % base;
    DivMod(v, base);
    DivMod(h, q);
  }

  lemma RowStep(v: nat, base: nat, k: nat)
    requires base >= 2 && k > 0
    ensures Row(v, base, k) == Row(v / base, base, k - 1) + [v % base]
    ensures Row(v, base, 0) == []
    ensures Power(base, k) == base * Power(base, k - 1) && Power(base, 0) == 1 && Power(base, 1) == base
    ensures k > 1 ==> Power(base, k - 1) == base * Power(base, k - 2)
  {
    assert Power(base, 1) == base * Power(base, 0);
  }

  lemma BelowPower(v: nat, base: nat, p: nat)
    requires base > 0 && v < base * p
    ensures v / base < p
  {
    DivMod(v, base);
    if v / base >= p {
      if v / base > p {
        MulMono(base, p, v / base);
      }
    }
  }

  /** Quotient and remainder by a place value, from those by the next lower one. */
  lemma SplitPlaces(v: nat, base: nat, q: nat, h: nat, a: nat, r: nat, l: nat)
    requires base > 0 && q > 0 && h == a * q + r && v == h * base + l && r < q && l < base
    ensures v / (base * q) == a && v % (base * q) == base * r + l
    ensures (base * r + l) / base == r && (base * r + l) % base == l
  {
    MulMono(base, r, q);
    Expand(a, q, r, base, h);
    DivModUnique(v, base * q, a, base * r + l);
    DivModUnique(base * r + l, base, r, l);
  }

  lemma Expand(a: int, q: int, r: int, base: int, h: int)
    requires h == a * q + r
    ensures h * base == base * q * a + base * r
  {
    assert h * base == (a * q) * base + r * base;
    assert (a * q) * base == base * q * a;
  }

  lemma PlaceBelow(base: nat, k: nat)
    requires k > 0
    ensures Power(base, k) == base * Power(base, k - 1)
  {
  }

  lemma NextPlace(base: nat, k: nat)
    requires base >= 2
    ensures if k == 0 then Power(base, 0) / base == 0 else Power(base, k) / base == Power(base, k - 1)
  {
    if k > 0 {
      DivModUnique(Power(base, k), base, Power(base, k - 1), 0);
    } else {
      DivModUnique(1, base, 0, 1);
    }
  }

  /** The counting loop: the number of digits and the largest place value, which fits 32 bits. */
  method CountDigits(v: u32, base: nat) returns (p: nat, digitCount: nat)
    requires 2 <= base
    ensures digitCount == |Numeral(v, base)| && p == Power(base, digitCount - 1) && p < TWO_32
  {
    var vShrink: nat := v;
    p, digitCount := 1, 1;
    while vShrink / base > 0
      invariant |Numeral(v, base)| == digitCount - 1 + |Numeral(vShrink, base)|
      invariant digitCount >= 1 && p == Power(base, digitCount - 1) && p * vShrink <= v && (digitCount > 1 ==> p <= v)
      decreases vShrink
    {
      PlaceFits(p, vShrink, base, v);
      vShrink := vShrink / base;
      digitCount := digitCount + 1;
      p := p * base % TWO_32;
    }
    BelowBase(vShrink, base);
  }

  lemma PlaceFits(p: nat, shrink: nat, base: nat, v: u32)
    requires base >= 2 && shrink / base > 0 && p * shrink <= v
    ensures p * base * (shrink / base) <= v && p * base <= v && shrink / base < shrink && p * base % TWO_32 == base * p
    ensures shrink >= base
  {
    var next := shrink / base;
    DivMod(shrink, base);
    Grows(2, base, next);
    Grows(next * base, shrink, p);
    Regroup(p, base, next);
    Grows(1, next, p * base);
  }

  lemma Grows(a: nat, b: nat, c: nat)
    requires a <= b
    ensures a * c <= b * c && c * a <= c * b
  {
  }

  lemma Regroup(a: nat, b: nat, c: nat)
    ensures a * b * c == a * (c * b)
  {
  }

  lemma BelowBase(v: nat, base: nat)
    requires base >= 2 && v / base == 0
    ensures v < base
  {
    DivMod(v, base);
  }

  /** The printing loop: the digits from the largest place on. */
  method EmitDigits(v0: u32, base: nat, p0: nat, ghost n: nat) returns (digits: Digits)
    requires base >= 2 && n == |Numeral(v0, base)| && p0 == Power(base, n - 1)
    ensures digits == Numeral(v0, base)
  {
    hide Numeral, Power, Row;
    var v: nat, p := v0, p0;
    ghost var k: nat := n;
    NumeralIsRow(v0, base);
    NumeralBelow(v0, base);
    digits := [];
    while p > 0
      invariant k <= n && (if k == 0 then p == 0 else p == Power(base, k - 1))
      invariant v < Power(base, k) && digits + Row(v, base, k) == Numeral(v0, base)
      decreases k
    {
      PlaceBelow(base, k);
      FirstDigit(v, base, k, p);
      var d := v / p;
      digits := digits + [d];
      v := v % p;
      NextPlace(base, k - 1);
      p := p / base;
      k := k - 1;
      assert digits + Row(v, base, k) == Numeral(v0, base);
    }
    NoRow(v, base);
  }

  lemma NoRow(v: nat, base: nat)
    requires base >= 2
    ensures Row(v, base, 0) == []
  {
  }

  // ---- Characters, sign and width ----

  type Text = seq<nat>

  const SPACE: nat := 32
  const MINUS: nat := 45
  const ZERO: nat := 48

  function CharOf(d: nat, upper: bool): (c: nat) {
    if d <= 9 then ZERO + d else d - 10 + if upper then 'A' as nat else 'a' as nat
  }

  /** The digit that a character stands for. */
  function DigitOf(c: nat): (d: nat) {
    if ZERO <= c <= ZERO + 9 then c - ZERO
    else if 'A' as nat <= c <= 'Z' as nat then c - 'A' as nat + 10
    else if 'a' as nat <= c <= 'z' as nat then c - 'a' as nat + 10
    else 0
  }

  function CharsOf(d: Digits, upper: bool): (t: Text)
    ensures |t| == |d| && forall i :: 0 <= i < |d| ==> t[i] == CharOf(d[i], upper)
  {
    if d == [] then [] else CharsOf(d[..|d| - 1], upper) + [CharOf(d[|d| - 1], upper)]
  }

  function DigitsOf(t: Text): (d: Digits)
    ensures |d| == |t| && forall i :: 0 <= i < |t| ==> d[i] == DigitOf(t[i])
  {
    if t == [] then [] else DigitsOf(t[..|t| - 1]) + [DigitOf(t[|t| - 1])]
  }

  function Repeat(c: nat, n: nat): (t: Text)
    ensures |t| == n && forall i :: 0 <= i < n ==> t[i] == c
  {
    if n == 0 then [] else Repeat(c, n - 1) + [c]
  }

  /** The number that a 32-bit argument stands for: the one in the range of its type that has the same low 32 bits. */
  function Meaning(v: u32, signed: bool): (x: int)
    ensures x % TWO_32 == v
    ensures if signed then -0x8000_0000 <= x < 0x8000_0000 else 0 <= x < TWO_32
  {
    if signed && v >= 0x8000_0000 then v - TWO_32 else v
  }

  function Magnitude(x: int): (m: nat) {
    if x < 0 then -x else x
  }

  /** What is printed for a number: sign and zeros, or spaces and sign, and the digits. */
  function Formatted(x: int, base: nat, upper: bool, zeros: bool, width: int): (t: Text)
    requires base >= 2
  {
    var digits := CharsOf(Numeral(Magnitude(x), base), upper);
    var sign := if x < 0 then [MINUS] else [];
    var fill := if width > |sign| + |digits| then width - |sign| - |digits| else 0;
    if zeros then sign + Repeat(ZERO, fill) + digits else Repeat(SPACE, fill) + sign + digits
  }

  predicate IsDigit(c: nat) {
    ZERO <= c <= ZERO + 9 || 'A' as nat <= c <= 'Z' as nat || 'a' as nat <= c <= 'z' as nat
  }

  /** A row of digits of the base, of either case. */
  predicate AreDigits(t: Text, base: nat) {
    t != [] && forall i :: 0 <= i < |t| ==> IsDigit(t[i]) && DigitOf(t[i]) < base
  }

  /** How a reader takes a number: after spaces and a sign, digits and nothing else. */
  function ReadNumber(t: Text, base: nat): (x: Option<int>) {
    if t == [] then None
    else if t[0] == SPACE then ReadNumber(t[1..], base)
    else if t[0] == MINUS then if AreDigits(t[1..], base) then Some(-(Value(DigitsOf(t[1..]), base) as int)) else None
    else if AreDigits(t, base) then Some(Value(DigitsOf(t), base)) else None
  }

  lemma {:induction false} ReadSpaces(n: nat, t: Text, base: nat)
    ensures ReadNumber(Repeat(SPACE, n) + t, base) == ReadNumber(t, base)
  {
    if n == 0 {
      assert Repeat(SPACE, 0) + t == t;
    } else {
      assert (Repeat(SPACE, n) + t)[1..] == Repeat(SPACE, n - 1) + t;
      ReadSpaces(n - 1, t, base);
    }
  }

  lemma {:induction false} LeadingZeros(n: nat, d: Digits, base: nat)
    ensures Value(Repeat(0, n) + d, base) == Value(d, base)
    decreases |d|, n
  {
    hide Value;
    if d != [] {
      var init, x := d[..|d| - 1], d[|d| - 1];
      LeadingZeros(n, init, base);
      ValueAppend(Repeat(0, n) + init, x, base);
      ValueAppend(init, x, base);
      assert Repeat(0, n) + d == Repeat(0, n) + init + [x] && d == init + [x];
    } else if n > 0 {
      LeadingZeros(n - 1, [], base);
      ValueAppend(Repeat(0, n - 1), 0, base);
      Nothing(base);
      assert Repeat(0, n) + [] == Repeat(0, n - 1) + [0] && Repeat(0, n - 1) + [] == Repeat(0, n - 1);
    } else {
      assert Repeat(0, 0) + d == d;
    }
  }

  lemma ZerosRead(n: nat, t: Text)
    ensures DigitsOf(Repeat(ZERO, n) + t) == Repeat(0, n) + DigitsOf(t)
  {
  }

  /** After the spaces, a sign and digits with any number of leading zeros read as the number. */
  lemma SignedRead(x: int, n: nat, digits: Text, base: nat)
    requires Value(DigitsOf(digits), base) == Magnitude(x)
    requires AreDigits(digits, base)
    ensures ReadNumber((if x < 0 then [MINUS] else []) + (Repeat(ZERO, n) + digits), base) == Some(x)
  {
    hide Value, DigitsOf, Repeat;
    assert IsDigit(digits[0]);
    LeadingZeros(n, DigitsOf(digits), base);
    ZerosRead(n, digits);
    var zeroed := Repeat(ZERO, n) + digits;
    assert zeroed[0] != SPACE && zeroed[0] != MINUS;
    assert ([MINUS] + zeroed)[1..] == zeroed && [] + zeroed == zeroed;
  }

  lemma CharsRead(d: Digits, base: nat, upper: bool)
    requires base <= 36 && d != [] && forall i :: 0 <= i < |d| ==> d[i] < base
    ensures DigitsOf(CharsOf(d, upper)) == d && AreDigits(CharsOf(d, upper), base)
  {
  }

  /** The letters among the digits are all of the case asked for. */
  lemma LettersHaveCase(x: int, base: nat, upper: bool, zeros: bool, width: int, i: nat)
    requires 2 <= base <= 36 && i < |Formatted(x, base, upper, zeros, width)|
    ensures var c := Formatted(x, base, upper, zeros, width)[i];
            if upper then !('a' as nat <= c <= 'z' as nat) else !('A' as nat <= c <= 'Z' as nat)
  {
    hide Numeral, CharsOf, Repeat;
  }

  /** The fill is zeros and no space, or spaces in front of what is printed without a width. */
  lemma FillIsAsAsked(x: int, base: nat, upper: bool, zeros: bool, width: int)
    requires 2 <= base <= 36
    ensures var t, bare := Formatted(x, base, upper, zeros, width), Formatted(x, base, upper, zeros, 0);
            && |t| >= |bare|
            && if zeros then SPACE !in t else t == Repeat(SPACE, |t| - |bare|) + bare
  {
    hide Numeral, CharsOf, Repeat;
    assert Repeat(SPACE, 0) == [];
    var digits := CharsOf(Numeral(Magnitude(x), base), upper);
    if !zeros {
      var sign := if x < 0 then [MINUS] else [];
      var fill := if width > |sign| + |digits| then width - |sign| - |digits| else 0;
      assert Repeat(SPACE, fill) + sign + digits == Repeat(SPACE, fill) + (Repeat(SPACE, 0) + sign + digits);
    }
  }

  /** The printed text is exactly as wide as asked for, or as it needs. */
  lemma FormattedWidth(x: int, base: nat, upper: bool, zeros: bool, width: int)
    requires base >= 2
    ensures var needed := |Numeral(Magnitude(x), base)| + if x < 0 then 1 else 0;
            |Formatted(x, base, upper, zeros, width)| == if width > needed then width else needed
  {
    hide Numeral, CharsOf, Repeat;
  }

  /** The printed text reads back as the number. */
  lemma FormattedReads(x: int, base: nat, upper: bool, zeros: bool, width: int)
    requires 2 <= base <= 36
    ensures ReadNumber(Formatted(x, base, upper, zeros, width), base) == Some(x)
  {
    hide Numeral, CharsOf, DigitsOf, Repeat, Value, ReadNumber, AreDigits;
    var numeral := Numeral(Magnitude(x), base);
    NumeralValue(Magnitude(x), base);
    CharsRead(numeral, base, upper);
    var digits := CharsOf(numeral, upper);
    var sign := if x < 0 then [MINUS] else [];
    var fill := if width > |sign| + |digits| then width - |sign| - |digits| else 0;
    if zeros {
      SignedRead(x, fill, digits, base);
      assert sign + Repeat(ZERO, fill) + digits == sign + (Repeat(ZERO, fill) + digits);
    } else {
      SignedRead(x, 0, digits, base);
      assert Repeat(ZERO, 0) + digits == digits;
      ReadSpaces(fill, sign + digits, base);
      assert Repeat(SPACE, fill) + sign + digits == Repeat(SPACE, fill) + (sign + digits);
    }
  }

  /** alt_log_repchar(). */
  method RepeatChar(out0: Text, c: nat, r: int) returns (out: Text)
    ensures out == out0 + Repeat(c, if r > 0 then r else 0)
  {
    out := out0;
    var left := r;
    ghost var n: nat := 0;
    while left > 0
      invariant n + left == r && (n == 0 || left >= 0) && out == out0 + Repeat(c, n)
      decreases left
    {
      left, n := left - 1, n + 1;
      out := out + [c];
    }
  }

  /** The digits as characters, behind what is already printed. */
  method EmitChars(out0: Text, digits: Digits, upper: bool) returns (out: Text)
    ensures out == out0 + CharsOf(digits, upper)
  {
    out := out0;
    for i := 0 to |digits|
      invariant out == out0 + CharsOf(digits[..i], upper)
    {
      var d := digits[i] + ZERO;
      if d > '9' as nat {
        d := d + (if upper then 'A' as nat else 'a' as nat) - ZERO - 10;
      }
      assert digits[..i + 1][..i] == digits[..i];
      out := out + [d];
    }
    assert digits[..|digits|] == digits;
  }

  /** The integer conversion: value, sign, digit count, fill, and digits. */
  method PrintInteger(out0: Text, v0: u32, signed: bool, base: nat, upper: bool, zeros: bool, width: int)
    returns (out: Text)
    requires base >= 2
    ensures out == out0 + Formatted(Meaning(v0, signed), base, upper, zeros, width)
  {
    hide Numeral, CharsOf, Repeat, Power;
    var v: u32, sign := v0, false;
    if signed && v >= 0x8000_0000 {
      v, sign := (0xFFFF_FFFF - v + 1) % TWO_32, true;
    }
    var p, digitCount := CountDigits(v, base);
    var digits := EmitDigits(v, base, p, digitCount);
    var fill := width - digitCount;
    if sign {
      fill := fill - 1;
    }
    out := out0;
    if zeros {
      if sign {
        out := out + [MINUS];
      }
      out := RepeatChar(out, ZERO, fill);
    } else {
      out := RepeatChar(out, SPACE, fill);
      if sign {
        out := out + [MINUS];
      }
    }
    ghost var before := out;
    out := EmitChars(out, digits, upper);
    Assemble(out0, before, CharsOf(digits, upper), Meaning(v0, signed), base, upper, zeros, width, fill);
  }

  lemma Assemble(out0: Text, before: Text, chars: Text, x: int, base: nat, upper: bool, zeros: bool, width: int, fill: int)
    requires base >= 2 && chars == CharsOf(Numeral(Magnitude(x), base), upper)
    requires fill == width - |chars| - if x < 0 then 1 else 0
    requires var f := Repeat(if zeros then ZERO else SPACE, if fill > 0 then fill else 0);
             var sign := if x < 0 then [MINUS] else [];
             before == out0 + if zeros then sign + f else f + sign
    ensures before + chars == out0 + Formatted(x, base, upper, zeros, width)
  {
    hide Numeral, CharsOf, Repeat, Magnitude, Formatted;
    FormattedIs(x, base, upper, zeros, width, chars, fill);
    var f := Repeat(if zeros then ZERO else SPACE, if fill > 0 then fill else 0);
    var sign := if x < 0 then [MINUS] else [];
    Append(out0, if zeros then sign + f else f + sign, chars);
  }

  lemma FormattedIs(x: int, base: nat, upper: bool, zeros: bool, width: int, chars: Text, fill: int)
    requires base >= 2 && chars == CharsOf(Numeral(Magnitude(x), base), upper)
    requires fill == width - |chars| - if x < 0 then 1 else 0
    ensures var f := Repeat(if zeros then ZERO else SPACE, if fill > 0 then fill else 0);
            var sign := if x < 0 then [MINUS] else [];
            Formatted(x, base, upper, zeros, width) == (if zeros then sign + f else f + sign) + chars
  {
    hide Numeral, CharsOf, Repeat, Magnitude;
  }

  lemma Append(a: Text, b: Text, c: Text)
    ensures a + b + c == a + (b + c)
  {
  }
}
