/** Directives written as text, and what reading them back gives. */
module DirectiveText {
  import opened CTypes
  import opened Numerals
  import opened FormatSpec

  function WidthText(width: Width): string {
    match width
    case NoWidth => ""
    case Width(w) => Numeral(w, 10)
    case StarWidth => "*"
  }

  function PrecisionText(precision: Precision): string {
    match precision
    case NoPrecision => ""
    case Precision(p) => "." + Numeral(p, 10)
    case StarPrecision => ".*"
  }

  function LengthText(length: Length): string {
    match length
    case NoLength => ""
    case HH => "hh"
    case H => "h"
    case L => "l"
    case LL => "ll"
    case T => "t"
    case J => "j"
    case Z => "z"
  }

  /** A conversion character: none of the characters that belong to an earlier part. */
  predicate IsConversion(c: char) {
    !IsFlag(c) && !IsDigit(c) && c != '*' && c != '.' && c != 'l' && c != 'h' && c != 't' && c != 'j' && c != 'z'
  }

  /** The text behind the '%', with the flags in any order and number. */
  function Text(flags: string, width: Width, precision: Precision, length: Length, c: char): string {
    flags + (WidthText(width) + (PrecisionText(precision) + (LengthText(length) + [c])))
  }

  lemma {:induction false} FlagRunOf(flags: string, t: string)
    requires forall i :: 0 <= i < |flags| ==> IsFlag(flags[i])
    requires t != "" && !IsFlag(t[0])
    ensures FlagRun(flags + t) == |flags|
  {
    if flags == "" {
      assert flags + t == t;
    } else {
      assert (flags + t)[1..] == flags[1..] + t;
      FlagRunOf(flags[1..], t);
    }
  }

  lemma {:induction false} DigitRunOf(digits: string, t: string)
    requires Decimal(digits)
    requires t != "" && !IsDigit(t[0])
    ensures DigitRun(digits + t) == |digits|
  {
    if digits == "" {
      assert digits + t == t;
    } else {
      assert (digits + t)[1..] == digits[1..] + t;
      DigitRunOf(digits[1..], t);
    }
  }

  /** Every number is read back from its decimal numeral, and by atou_ every 32-bit number. */
  lemma NumeralReadBack(v: nat)
    ensures Decimal(Numeral(v, 10)) && DecimalNumber(Numeral(v, 10)) == v
    ensures v < TWO32 ==> Decimal32(Numeral(v, 10)) == v
  {
    NumeralDecimal(v, 10);
    DecimalOffsetsDenote(v, 10);
    if v < TWO32 {
      ModUnique(v, TWO32, 0, v);
    }
  }

  lemma LengthReadBack(flags: FlagSet, width: Width, precision: Precision, length: Length, c: char, rest: string)
    requires IsConversion(c)
    ensures ReadLength(flags, width, precision, LengthText(length) + [c] + rest)
            == Parsed(Directive(flags, width, precision, length, c), rest)
  {
    var s := LengthText(length) + [c] + rest;
    assert s[|LengthText(length)| + 1..] == rest;
  }

  lemma PrecisionReadBack(flags: FlagSet, width: Width, precision: Precision, t: string)
    requires t != "" && !IsDigit(t[0]) && t[0] != '*' && t[0] != '.'
    ensures ReadPrecision(flags, width, PrecisionText(precision) + t) == ReadLength(flags, width, precision, t)
  {
    hide ReadPrecision, ReadLength, Decimal, DecimalNumber, Numeral;
    PrecisionBareReadBack(flags, width, t);
    match precision
    case NoPrecision => assert "" + t == t;
    case StarPrecision =>
    case Precision(p) =>
      NumeralReadBack(p);
      if p == 0 {
        assert "." + "" == ".";
      } else {
        PrecisionDigitsReadBack(flags, width, Numeral(p, 10), t);
      }
  }

  lemma PrecisionBareReadBack(flags: FlagSet, width: Width, t: string)
    requires t != "" && !IsDigit(t[0]) && t[0] != '*' && t[0] != '.'
    ensures ReadPrecision(flags, width, t) == ReadLength(flags, width, NoPrecision, t)
    ensures ReadPrecision(flags, width, ".*" + t) == ReadLength(flags, width, StarPrecision, t)
    ensures ReadPrecision(flags, width, "." + t) == ReadLength(flags, width, Precision(0), t)
  {
    hide ReadLength, DigitRun, DecimalNumber;
    assert (".*" + t)[2..] == t && ("." + t)[1..] == t;
  }

  lemma PrecisionDigitsReadBack(flags: FlagSet, width: Width, digits: string, t: string)
    requires Decimal(digits) && digits != "" && t != "" && !IsDigit(t[0])
    ensures ReadPrecision(flags, width, "." + digits + t) == ReadLength(flags, width, Precision(DecimalNumber(digits)), t)
  {
    hide ReadLength, DigitRun, DecimalNumber;
    var s := "." + digits + t;
    DigitRunOf(digits, t);
    assert s[1..] == digits + t;
    assert s[1..][..|digits|] == digits && s[1..][|digits|..] == t;
  }

  lemma WidthReadBack(flags: FlagSet, width: Width, t: string)
    requires t != "" && !IsDigit(t[0]) && t[0] != '*'
    requires width.Width? ==> width.columns > 0
    ensures ReadWidth(flags, WidthText(width) + t) == ReadPrecision(flags, width, t)
  {
    hide ReadPrecision, DigitRun, DecimalNumber;
    var s := WidthText(width) + t;
    match width
    case NoWidth => assert s == t;
    case StarWidth => assert s[1..] == t;
    case Width(w) =>
      var digits := Numeral(w, 10);
      NumeralReadBack(w);
      DigitRunOf(digits, t);
      assert IsDigit(s[0]);
      assert s[..|digits|] == digits && s[|digits|..] == t;
  }

  /** Writing a directive and reading it back gives the same directive, whatever follows. */
  lemma DirectiveReadBack(flags: string, width: Width, precision: Precision, length: Length, c: char, rest: string)
    requires forall i :: 0 <= i < |flags| ==> IsFlag(flags[i])
    requires width.Width? ==> width.columns > 0
    requires IsConversion(c)
    ensures ReadDirective(Text(flags, width, precision, length, c) + rest)
            == Parsed(Directive(FlagsIn(flags), width, precision, length, c), rest)
  {
    var t3 := LengthText(length) + [c] + rest;
    var t2 := PrecisionText(precision) + t3;
    var t1 := WidthText(width) + t2;
    var s := Text(flags, width, precision, length, c) + rest;
    Regroup(flags, WidthText(width), PrecisionText(precision), LengthText(length) + [c], rest);
    assert s == flags + t1;
    FirstCharacters(width, precision, length, c, rest);
    hide ReadWidth, ReadPrecision, ReadLength, FlagRun, FlagsIn, Text, WidthText, PrecisionText, LengthText;
    FlagRunOf(flags, t1);
    assert s[..|flags|] == flags && s[|flags|..] == t1;
    WidthReadBack(FlagsIn(flags), width, t2);
    PrecisionReadBack(FlagsIn(flags), width, precision, t3);
    LengthReadBack(FlagsIn(flags), width, precision, length, c, rest);
  }

  lemma Regroup(a: string, b: string, c: string, d: string, e: string)
    ensures a + (b + (c + d)) + e == a + (b + (c + (d + e)))
  {
    assert c + d + e == c + (d + e);
    assert b + (c + d) + e == b + (c + d + e);
    assert a + (b + (c + d)) + e == a + (b + (c + d) + e);
  }

  /** No part of a directive starts with a character its predecessors would swallow. */
  lemma FirstCharacters(width: Width, precision: Precision, length: Length, c: char, rest: string)
    requires IsConversion(c) && (width.Width? ==> width.columns > 0)
    ensures var t3 := LengthText(length) + [c] + rest;
            var t2 := PrecisionText(precision) + t3;
            var t1 := WidthText(width) + t2;
            && !IsDigit(t3[0]) && t3[0] != '*' && t3[0] != '.' && !IsFlag(t3[0])
            && !IsDigit(t2[0]) && t2[0] != '*' && !IsFlag(t2[0])
            && !IsFlag(t1[0])
  {
    if width.Width? {
      NumeralDecimal(width.columns, 10);
      NumeralLead(width.columns, 10);
    }
  }

  /**
   A star width means the argument's width, and a negative argument means left
   justification in its absolute value.
   */
  lemma StarWidthMeans(p: Printer, d: Directive, word: uint32, args: seq<Arg>, pos: nat)
    requires d.width == StarWidth
    ensures var w: int := Int32(word);
            var literal := d.(width := Width(if w < 0 then -w else w), flags := d.flags.(left := d.flags.left || w < 0));
            Expand(p, d, [Word32(word)] + args, pos) == Expand(p, literal, args, pos)
  {
    hide Convert, Resolve;
    StarResolves(p, d, word, args);
    StarResolves(Kernel, d, word, args);
  }

  lemma StarResolves(p: Printer, d: Directive, word: uint32, args: seq<Arg>)
    requires d.width == StarWidth
    ensures var w: int := Int32(word);
            var literal := d.(width := Width(if w < 0 then -w else w), flags := d.flags.(left := d.flags.left || w < 0));
            Resolve(p, d, [Word32(word)] + args) == Resolve(p, literal, args)
  {
    hide ResolvePrecision;
    assert ([Word32(word)] + args)[1..] == args;
  }
}
