/**
 Positional numerals: what a row of digits denotes, how a value is written
 left to right, and how the kernel's digit loop produces it back to front.
 */
module Numerals {
  import opened CTypes

  ghost function Pow(base: nat, n: nat): (p: nat) {
    if n == 0 then 1 else base * Pow(base, n - 1)
  }

  /** The number denoted by a row of digit values, most significant first. */
  ghost function Value(digits: seq<int>, base: int): int {
    if digits == [] then 0
    else Value(digits[..|digits| - 1], base) * base + digits[|digits| - 1]
  }

  /** The digit character of d; hexadecimal digits are upper case. */
  function Digit(d: nat): char
    requires d < 16
  {
    if d < 10 then '0' + d as char else 'A' + (d - 10) as char
  }

  function DigitValue(c: char): int {
    if 'A' <= c <= 'F' then c as int - 'A' as int + 10 else c as int - '0' as int
  }

  ghost function DigitValues(s: string): (r: seq<int>) {
    seq(|s|, i requires 0 <= i < |s| => DigitValue(s[i]))
  }

  /** `*p - '0'` for every character of s: what atoi, atou_ and getsize add up. */
  ghost function Offsets(s: string): (r: seq<int>) {
    seq(|s|, i requires 0 <= i < |s| => SignedChar(s[i]) - '0' as int)
  }

  /** The value of v written left to right, without leading zeros. */
  function Numeral(v: nat, base: nat): (s: string)
    requires 2 <= base <= 16
    ensures s == "" <==> v == 0
  {
    if v == 0 then "" else
      Shrinks(v, base);
      Numeral(v / base, base) + [Digit(v % base)]
  }

  /** The order in which the digit loop of printInt stores the digits. */
  function LowDigits(v: nat, base: nat): (s: string)
    requires 2 <= base <= 16
    ensures s == "" <==> v == 0
  {
    if v == 0 then "" else
      Shrinks(v, base);
      [Digit(v % base)] + LowDigits(v / base, base)
  }

  lemma {:induction false} LowDigitsReversed(v: nat, base: nat)
    requires 2 <= base <= 16
    ensures Reverse(LowDigits(v, base)) == Numeral(v, base)
  {
    if v != 0 {
      Shrinks(v, base);
      LowDigitsReversed(v / base, base);
    }
  }

  lemma DigitRoundTrip(d: nat)
    requires d < 16
    ensures DigitValue(Digit(d)) == d
    ensures d < 10 ==> SignedChar(Digit(d)) - '0' as int == d && '0' <= Digit(d) <= '9'
  {
  }

  lemma {:induction false} NumeralDenotes(v: nat, base: nat)
    requires 2 <= base <= 16
    ensures Value(DigitValues(Numeral(v, base)), base) == v
  {
    if v != 0 {
      Shrinks(v, base);
      var high, low := v / base, v % base;
      NumeralDenotes(high, base);
      DigitRoundTrip(low);
      SnocDenotes(Numeral(high, base), Digit(low), base);
      DivMod(v, base);
    }
  }

  /** The digits are the characters 0 to 9 and A to F, in the order of their values. */
  lemma DigitCharacters(d: nat)
    requires d < 16
    ensures Digit(d) == "0123456789ABCDEF"[d] && DigitValue("0123456789ABCDEF"[d]) == d
  {
    if d < 10 {
      assert "0123456789ABCDEF"[d] == '0' + d as char;
    } else {
      assert "0123456789ABCDEF"[d] == 'A' + (d - 10) as char;
    }
  }

  /** In bases up to ten the digits of a numeral are decimal characters. */
  lemma {:induction false} NumeralDecimal(v: nat, base: nat)
    requires 2 <= base <= 10
    ensures Decimal(Numeral(v, base))
  {
    if v != 0 {
      Shrinks(v, base);
      NumeralDecimal(v / base, base);
      DigitRoundTrip(v % base);
    }
  }

  predicate Decimal(s: string) {
    forall i :: 0 <= i < |s| ==> '0' <= s[i] <= '9'
  }

  lemma DecimalOffsets(s: string)
    requires Decimal(s)
    ensures Offsets(s) == DigitValues(s)
  {
  }

  lemma DecimalOffsetsDenote(v: nat, base: nat)
    requires 2 <= base <= 10
    ensures Value(Offsets(Numeral(v, base)), base) == v
  {
    NumeralDecimal(v, base);
    DecimalOffsets(Numeral(v, base));
    NumeralDenotes(v, base);
  }

  /** The digits of v, at least one. */
  function Written(v: nat, base: nat): (s: string)
    requires 2 <= base <= 16
    ensures s != ""
  {
    if v == 0 then "0" else Numeral(v, base)
  }

  lemma WrittenDenotes(v: nat, base: nat)
    requires 2 <= base <= 16
    ensures Value(DigitValues(Written(v, base)), base) == v
    ensures base <= 10 ==> Decimal(Written(v, base)) && Value(Offsets(Written(v, base)), base) == v
    ensures v > 0 ==> Written(v, base)[0] != '0'
  {
    if v == 0 {
      assert DigitValues("0") == Offsets("0") == [0] == [0] + [];
      LeadingZeros([0], [], base);
    } else {
      NumeralDenotes(v, base);
      NumeralLead(v, base);
      if base <= 10 {
        NumeralDecimal(v, base);
        DecimalOffsetsDenote(v, base);
      }
    }
  }

  /** A numeral has at most n digits exactly when its value is below base^n. */
  lemma {:induction false} NumeralLength(v: nat, base: nat, n: nat)
    requires 2 <= base <= 16
    ensures |Numeral(v, base)| <= n <==> v < Pow(base, n)
  {
    PowPositive(base, n);
    if v != 0 && n != 0 {
      Shrinks(v, base);
      NumeralLength(v / base, base, n - 1);
      DivBelow(v, base, Pow(base, n - 1));
    }
  }

  lemma Shrinks(v: nat, b: nat)
    requires v > 0 && b >= 2
    ensures 0 <= v / b < v && 0 <= v % b < b
  {
    var q := v / b;
    assert v == b * q + v % b;
    if q < 0 {
      MulMono(b, q, -1);
    } else if q >= v {
      MulMono(b, v, q);
      MulMono(v, 2, b);
    }
  }

  lemma DivMod(v: nat, b: nat)
    requires b > 0
    ensures (v / b) * b + v % b == v
  {
  }

  lemma DivBelow(v: nat, b: nat, p: nat)
    requires b > 0
    ensures v / b < p <==> v < b * p
  {
    assert v == b * (v / b) + v % b;
    if v / b < p {
      MulMono(b, v / b + 1, p);
    } else {
      MulMono(b, p, v / b);
    }
  }

  lemma MulMono(a: nat, x: int, y: int)
    requires x <= y
    ensures a * x <= a * y
  {
  }

  lemma {:induction false} PowAdd(base: nat, m: nat, n: nat)
    ensures Pow(base, m + n) == Pow(base, m) * Pow(base, n)
  {
    if m != 0 {
      PowAdd(base, m - 1, n);
      calc {
        Pow(base, m + n);
        base * (Pow(base, m - 1) * Pow(base, n));
        (base * Pow(base, m - 1)) * Pow(base, n);
      }
    }
  }

  lemma {:induction false} PowPositive(base: nat, n: nat)
    requires base > 0
    ensures Pow(base, n) > 0
  {
    if n != 0 {
      PowPositive(base, n - 1);
    }
  }

  lemma PowMono(base: nat, m: nat, n: nat)
    requires base > 0 && m <= n
    ensures Pow(base, m) <= Pow(base, n)
  {
    PowAdd(base, m, n - m);
    PowPositive(base, n - m);
    MulMono(Pow(base, m), 1, Pow(base, n - m));
  }

  lemma PowDouble(base: nat, n: nat)
    ensures Pow(base, 2 * n) == Pow(base, n) * Pow(base, n)
  {
    PowAdd(base, n, n);
  }

  lemma PowConstants()
    ensures Pow(8, 11) == 0x2_0000_0000
    ensures Pow(8, 22) == 0x4_0000_0000_0000_0000
    ensures Pow(16, 16) == TWO64
    ensures Pow(2, 30) == 0x4000_0000 && Pow(2, 32) == TWO32
    ensures Pow(10, 10) == 10_000_000_000
  {
    assert Pow(2, 4) == 16 && Pow(2, 2) == 4 && Pow(10, 2) == 100;
    PowDouble(2, 4);
    PowDouble(2, 8);
    PowDouble(2, 16);
    PowAdd(2, 30, 2);
    PowDouble(10, 2);
    PowDouble(10, 4);
    PowAdd(10, 8, 2);
    assert Pow(8, 2) == 64;
    PowDouble(8, 2);
    PowDouble(8, 4);
    PowAdd(8, 8, 2);
    assert Pow(8, 11) == 8 * Pow(8, 10);
    PowDouble(8, 11);
    assert Pow(16, 2) == 256;
    PowDouble(16, 2);
    PowDouble(16, 4);
    PowDouble(16, 8);
  }

  /** Every 64-bit value has at most 22 digits in base 8, 10 or 16, and 16 in base 16. */
  lemma {:induction false} NumeralLength64(v: nat, base: nat)
    requires v < TWO64 && 8 <= base <= 16
    ensures |Numeral(v, base)| <= 22
    ensures base == 16 ==> |Numeral(v, base)| <= 16
  {
    PowConstants();
    NumeralLength(v, base, 22);
    PowBaseMono(8, base, 22);
    if base == 16 {
      NumeralLength(v, base, 16);
    }
  }

  lemma {:induction false} PowBaseMono(a: nat, b: nat, n: nat)
    requires a <= b
    ensures Pow(a, n) <= Pow(b, n)
  {
    if n != 0 {
      PowBaseMono(a, b, n - 1);
      MulMono(a, Pow(a, n - 1), Pow(b, n - 1));
      MulMono(Pow(b, n - 1), a, b);
    }
  }

  lemma {:induction false} LeadingZeros(zeros: seq<int>, digits: seq<int>, base: int)
    requires forall i :: 0 <= i < |zeros| ==> zeros[i] == 0
    ensures Value(zeros + digits, base) == Value(digits, base)
  {
    var all := zeros + digits;
    if digits != [] {
      assert all[..|all| - 1] == zeros + digits[..|digits| - 1];
      LeadingZeros(zeros, digits[..|digits| - 1], base);
    } else if zeros != [] {
      assert all == zeros && all[..|all| - 1] == zeros[..|zeros| - 1] + digits;
      LeadingZeros(zeros[..|zeros| - 1], digits, base);
    }
  }

  /** The low k digits of v, read left to right. */
  ghost function LastDigits(v: nat, base: nat, k: nat): (s: string)
    requires 2 <= base <= 16
  {
    var low := LowDigits(v, base);
    Reverse(low[..Min(|low|, k)])
  }

  lemma LastDigitsStep(v: nat, base: nat, k: nat)
    requires 2 <= base <= 16 && v != 0 && k != 0
    ensures LastDigits(v, base, k) == LastDigits(v / base, base, k - 1) + [Digit(v % base)]
  {
    var rest := LowDigits(v / base, base);
    assert LowDigits(v, base)[..Min(|rest| + 1, k)] == [Digit(v % base)] + rest[..Min(|rest|, k - 1)];
  }

  /** The first k digits the loop stores denote the value modulo base^k. */
  lemma {:induction false} LastDigitsDenote(v: nat, base: nat, k: nat)
    requires 2 <= base <= 16
    ensures Pow(base, k) > 0
    ensures Value(DigitValues(LastDigits(v, base, k)), base) == v % Pow(base, k)
  {
    PowPositive(base, k);
    if v == 0 {
      ModUnique(0, Pow(base, k), 0, 0);
    } else if k != 0 {
      Shrinks(v, base);
      LastDigitsDenote(v / base, base, k - 1);
      LastDigitsStep(v, base, k);
      DigitRoundTrip(v % base);
      SnocDenotes(LastDigits(v / base, base, k - 1), Digit(v % base), base);
      ModStep(v, base, Pow(base, k - 1));
    }
  }

  lemma SnocDenotes(s: string, c: char, base: int)
    ensures Value(DigitValues(s + [c]), base) == Value(DigitValues(s), base) * base + DigitValue(c)
  {
    var all := DigitValues(s + [c]);
    assert all[..|all| - 1] == DigitValues(s);
  }

  lemma ModStep(v: nat, b: nat, p: nat)
    requires b > 0 && p > 0
    ensures b * p > 0
    ensures (v / b % p) * b + v % b == v % (b * p)
  {
    var q := v / b;
    var lo := (q % p) * b + v % b;
    assert q == p * (q / p) + q % p;
    assert v == b * q + v % b;
    calc {
      b * q;
      b * (p * (q / p) + q % p);
      b * (p * (q / p)) + b * (q % p);
      (b * p) * (q / p) + b * (q % p);
    }
    MulMono(b, q % p + 1, p);
    ModUnique(v, b * p, q / p, lo);
  }

  lemma ModUnique(v: int, m: nat, q: int, r: int)
    requires m > 0 && v == m * q + r && 0 <= r < m
    ensures v % m == r && v / m == q
  {
    var d := v / m - q;
    assert v == m * (v / m) + v % m;
    assert m * d == r - v % m;
    if d > 0 {
      MulMono(m, 1, d);
    } else if d < 0 {
      MulMono(m, d, -1);
    }
  }

  lemma {:induction false} NumeralCharacters(v: nat, base: nat)
    requires 2 <= base <= 16
    ensures forall i :: 0 <= i < |Numeral(v, base)| ==> Numeral(v, base)[i] >= '0'
  {
    if v > 0 {
      Shrinks(v, base);
      NumeralCharacters(v / base, base);
    }
  }

  lemma {:induction false} NumeralLead(v: nat, base: nat)
    requires 2 <= base <= 16 && v > 0
    ensures Numeral(v, base)[0] != '0'
  {
    if v < base {
      ModUnique(v, base, 0, v);
      assert Numeral(v, base) == Numeral(0, base) + [Digit(v)];
    } else {
      Shrinks(v, base);
      DivBelow(v, base, 1);
      NumeralLead(v / base, base);
    }
  }

  lemma ModShift(w: int, m: nat, t: int)
    requires m > 0
    ensures (m * t + w) % m == w % m
  {
    assert w == m * (w / m) + w % m;
    assert m * t + w == m * (t + w / m) + w % m;
    ModUnique(m * t + w, m, t + w / m, w % m);
  }

  /** Congruent numbers less than m apart are the same. */
  lemma ModClose(a: int, b: int, m: nat)
    requires m > 0 && a % m == b % m && a - b < m && b - a < m
    ensures a == b
  {
    assert a == m * (a / m) + a % m && b == m * (b / m) + b % m;
    var d := a / m - b / m;
    assert a - b == m * d;
    if d > 0 {
      MulMono(m, 1, d);
    } else if d < 0 {
      MulMono(m, d, -1);
    }
  }

  /** One step of reading digits, in arithmetic modulo m. */
  lemma ModHorner(v: int, m: nat, k: int, d: int)
    requires m > 0
    ensures (v * k + d) % m == ((v % m) * k + d) % m
  {
    var q := v / m;
    assert v == m * q + v % m;
    calc {
      v * k;
      (m * q + v % m) * k;
      m * q * k + (v % m) * k;
      m * (q * k) + (v % m) * k;
    }
    ModShift((v % m) * k + d, m, q * k);
  }

  lemma ModAdd(a: int, b: int, m: nat)
    requires m > 0
    ensures (a + b) % m == (a % m + b) % m
  {
    assert a == m * (a / m) + a % m;
    ModShift(a % m + b, m, a / m);
  }

  /** One more digit in front of a row of digits. */
  lemma {:induction false} ValuePrepend(d: int, digits: seq<int>, base: nat)
    ensures Value([d] + digits, base) == d * Pow(base, |digits|) + Value(digits, base)
  {
    var all := [d] + digits;
    if digits == [] {
      assert all[..0] == [];
    } else {
      var n := |digits| - 1;
      assert all[..|all| - 1] == [d] + digits[..n];
      ValuePrepend(d, digits[..n], base);
      calc {
        (d * Pow(base, n) + Value(digits[..n], base)) * base;
        d * Pow(base, n) * base + Value(digits[..n], base) * base;
        d * (base * Pow(base, n)) + Value(digits[..n], base) * base;
      }
    }
  }
}
