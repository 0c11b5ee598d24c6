/** The text that storage keys are made of: decimal numbers, zero padding and hexadecimal. */
module Text {
  import opened Bytes

  const ZERO: byte := 48
  const COLON: byte := 58

  // The bytes of a text in ASCII.
  predicate Spells(b: Bytes, s: string) {
    |b| == |s| && forall i | 0 <= i < |s| :: b[i] as int == s[i] as int
  }

  // ---------- decimal ----------

  function Pow10(w: nat): (p: nat)
    ensures 0 < p
  {
    if w == 0 then 1 else 10 * Pow10(w - 1)
  }

  // A number in decimal, without leading zeros, as `{}` formats it.
  function Decimal(n: nat): Bytes {
    if n < 10 then [ZERO + n] else Decimal(n / 10) + [ZERO + n % 10]
  }

  function Zeros(w: nat): (z: Bytes)
    ensures |z| == w
  {
    if w == 0 then [] else Zeros(w - 1) + [ZERO]
  }

  // Right alignment in a field of width w filled with zeros, as `{:0>w}` does it.
  // Text that is already longer is left alone.
  function PadZeros(text: Bytes, w: nat): Bytes {
    if |text| < w then Zeros(w - |text|) + text else text
  }

  // The last w decimal digits of n.
  function Digits(n: nat, w: nat): (d: Bytes)
    ensures |d| == w
  {
    if w == 0 then [] else Digits(n / 10, w - 1) + [ZERO + n % 10]
  }

  lemma {:induction false} ZeroDigits(w: nat)
    ensures Digits(0, w) == Zeros(w)
  {
    if w > 0 {
      ZeroDigits(w - 1);
    }
  }

  lemma {:induction false} DecimalLength(n: nat, w: nat)
    requires 0 < w && n < Pow10(w)
    ensures 0 < |Decimal(n)| <= w
  {
    if n >= 10 {
      assert w > 1;
      DecimalLength(n / 10, w - 1);
    }
  }

  // A padded number is the fixed-width digit string, for every number that fits the width.
  lemma {:induction false} PaddedIsDigits(n: nat, w: nat)
    requires 0 < w && n < Pow10(w)
    ensures PadZeros(Decimal(n), w) == Digits(n, w)
  {
    DecimalLength(n, w);
    if n < 10 {
      ZeroDigits(w - 1);
      assert PadZeros(Decimal(n), w) == Zeros(w - 1) + [ZERO + n];
    } else {
      assert w > 1;
      DecimalLength(n / 10, w - 1);
      PaddedIsDigits(n / 10, w - 1);
      assert PadZeros(Decimal(n), w) == PadZeros(Decimal(n / 10), w - 1) + [ZERO + n % 10];
    }
  }

  // Digit strings of one width sort bytewise as their numbers do.
  lemma {:induction false} DigitsOrder(m: nat, n: nat, w: nat)
    requires m < Pow10(w) && n < Pow10(w)
    ensures LexLt(Digits(m, w), Digits(n, w)) <==> m < n
    ensures Digits(m, w) == Digits(n, w) <==> m == n
  {
    if w > 0 {
      DigitsOrder(m / 10, n / 10, w - 1);
      var x, y := [ZERO + m % 10], [ZERO + n % 10];
      LexConcat(Digits(m / 10, w - 1), x, Digits(n / 10, w - 1), y);
      if Digits(m, w) == Digits(n, w) {
        SameSplit(Digits(m / 10, w - 1), x, Digits(n / 10, w - 1), y);
        assert x[0] == y[0];
      }
    }
  }

  // w decimal digits of n, the most significant first.
  predicate Numeral(d: Bytes, n: nat, w: nat) {
    |d| == w && forall i | 0 <= i < w :: d[i] as int == '0' as int + n / Pow10(w - 1 - i) % 10
  }

  lemma {:induction false} DigitsAre(n: nat, w: nat)
    ensures Numeral(Digits(n, w), n, w)
  {
    if w > 0 {
      DigitsAre(n / 10, w - 1);
      forall i | 0 <= i < w ensures Digits(n, w)[i] as int == '0' as int + n / Pow10(w - 1 - i) % 10 {
        if i < w - 1 {
          DivideTen(n, Pow10(w - 2 - i));
        } else {
          assert Pow10(0) == 1;
        }
      }
    }
  }

  // A padded number is written in exactly w decimal digits.
  lemma PaddedIs(d: Bytes, n: nat, w: nat)
    requires 0 < w && n < Pow10(w)
    ensures Numeral(d, n, w) <==> d == PadZeros(Decimal(n), w)
  {
    PaddedIsDigits(n, w);
    DigitsAre(n, w);
    hide PadZeros, Decimal, Digits;
  }

  lemma PaddedOrder(m: nat, n: nat, w: nat)
    requires 0 < w && m < Pow10(w) && n < Pow10(w)
    ensures |PadZeros(Decimal(m), w)| == w
    ensures LexLt(PadZeros(Decimal(m), w), PadZeros(Decimal(n), w)) <==> m < n
    ensures PadZeros(Decimal(m), w) == PadZeros(Decimal(n), w) <==> m == n
  {
    PaddedIsDigits(m, w);
    PaddedIsDigits(n, w);
    DigitsOrder(m, n, w);
  }

  lemma PowersOfTen()
    ensures U32_LIMIT <= Pow10(10)
    ensures U64_LIMIT <= Pow10(20)
  {
    assert Pow10(5) == 100_000;
    assert Pow10(10) == 100_000 * Pow10(5) by { assert Pow10(10) == 10_000_000_000; }
    assert Pow10(15) == 1_000_000_000_000_000;
  }

  // ---------- hexadecimal ----------

  function HexDigit(d: byte): (c: byte)
    requires d < 16
    ensures c != COLON
  {
    if d < 10 then ZERO + d else 97 + (d - 10)
  }

  function Hex(b: Bytes): (h: Bytes)
    ensures |h| == 2 * |b|
  {
    if b == [] then [] else [HexDigit(b[0] / 16), HexDigit(b[0] % 16)] + Hex(b[1..])
  }

  // Hexadecimal keeps the order of byte strings, so it is injective.
  lemma {:induction false} HexOrder(a: Bytes, b: Bytes)
    ensures LexLt(Hex(a), Hex(b)) <==> LexLt(a, b)
    ensures Hex(a) == Hex(b) <==> a == b
  {
    if a != [] && b != [] {
      HexOrder(a[1..], b[1..]);
      var x, y := [HexDigit(a[0] / 16), HexDigit(a[0] % 16)], [HexDigit(b[0] / 16), HexDigit(b[0] % 16)];
      LexConcat(x, Hex(a[1..]), y, Hex(b[1..]));
      HexPairOrder(a[0], b[0]);
      if Hex(a) == Hex(b) {
        SameSplit(x, Hex(a[1..]), y, Hex(b[1..]));
        assert a == [a[0]] + a[1..] && b == [b[0]] + b[1..];
      }
    }
  }

  lemma HexPairOrder(p: byte, q: byte)
    ensures LexLt([HexDigit(p / 16), HexDigit(p % 16)], [HexDigit(q / 16), HexDigit(q % 16)]) <==> p < q
    ensures [HexDigit(p / 16), HexDigit(p % 16)] == [HexDigit(q / 16), HexDigit(q % 16)] ==> p == q
  {
    var x, y := [HexDigit(p / 16), HexDigit(p % 16)], [HexDigit(q / 16), HexDigit(q % 16)];
    LexConcat([x[0]], [x[1]], [y[0]], [y[1]]);
    assert x == [x[0]] + [x[1]] && y == [y[0]] + [y[1]];
    assert x == y ==> x[0] == y[0] && x[1] == y[1];
  }

  const HEX_DIGITS := "0123456789abcdef"

  // Two lower-case digits for each byte, the high half first.
  predicate HexIs(h: Bytes, b: Bytes) {
    && |h| == 2 * |b|
    && forall i | 0 <= i < |b| ::
         h[2 * i] as int == HEX_DIGITS[b[i] / 16] as int && h[2 * i + 1] as int == HEX_DIGITS[b[i] % 16] as int
  }

  lemma HexDigitIs(d: byte)
    requires d < 16
    ensures HexDigit(d) as int == HEX_DIGITS[d] as int
  {
  }

  lemma {:induction false} HexOf(b: Bytes)
    ensures HexIs(Hex(b), b)
  {
    if b != [] {
      HexOf(b[1..]);
      HexDigitIs(b[0] / 16);
      HexDigitIs(b[0] % 16);
      forall i | 0 <= i < |b|
        ensures Hex(b)[2 * i] as int == HEX_DIGITS[b[i] / 16] as int
        ensures Hex(b)[2 * i + 1] as int == HEX_DIGITS[b[i] % 16] as int
      {
        if i > 0 {
          assert Hex(b)[2 * i] == Hex(b[1..])[2 * (i - 1)] && Hex(b)[2 * i + 1] == Hex(b[1..])[2 * (i - 1) + 1];
        }
      }
    }
  }

  lemma HexExact(h: Bytes, b: Bytes)
    ensures HexIs(h, b) <==> h == Hex(b)
  {
    HexOf(b);
    if HexIs(h, b) {
      forall j | 0 <= j < |h| ensures h[j] == Hex(b)[j] {
        var i := j / 2;
        assert h[2 * i] == Hex(b)[2 * i] && h[2 * i + 1] == Hex(b)[2 * i + 1];
        assert j == 2 * i || j == 2 * i + 1;
      }
    }
    hide Hex;
  }
}
