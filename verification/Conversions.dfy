/**
 What the conversions print, said of formats as they are written: every
 character of a directive stands here as itself.
 */
module Conversions {
  import opened CTypes
  import opened Numerals
  import opened CStrings
  import opened IntegerSpec
  import opened IntegerLaws
  import opened FormatSpec
  import opened FormatLaws
  import opened DirectiveText
  import opened FieldLaws

  // -------------------------------------------------------- ordinary text

  /** A format without '%' prints itself. */
  lemma {:induction false} PlainFormat(s: string, args: seq<Arg>, pos: nat)
    requires '%' !in s
    ensures Run(Kernel, s, args, pos) == Effect(s, [], args)
    decreases |s|
  {
    hide Run;
    if s == "" {
      RunEmpty(Kernel, args, pos);
    } else {
      assert s[0] in s;
      RunCharacter(Kernel, s, args, pos);
      PlainFormat(s[1..], args, pos + 1);
      assert [s[0]] + s[1..] == s;
    }
  }

  // ------------------------------------------------------ whole directives

  predicate AreFlags(flags: string) {
    forall i :: 0 <= i < |flags| ==> flags[i] == '0' || flags[i] == '-' || flags[i] == '+' || flags[i] == ' ' || flags[i] == '#'
  }

  /** The width w, where 0 is none: a '0' would be read as a flag. */
  function WidthOf(w: nat): Width {
    if w == 0 then NoWidth else Width(w)
  }

  /** A format of one directive has the effect of the directive. */
  lemma OneDirective(flags: string, width: Width, precision: Precision, length: Length, c: char, args: seq<Arg>)
    requires AreFlags(flags) && (width.Width? ==> width.columns > 0) && IsConversion(c)
    ensures Run(Kernel, "%" + Text(flags, width, precision, length, c), args, 0)
            == Expand(Kernel, Directive(FlagsIn(flags), width, precision, length, c), args, 0)
  {
    hide Text, ReadDirective, Expand, Run;
    var s := Text(flags, width, precision, length, c);
    DirectiveReadBack(flags, width, precision, length, c, "");
    assert s + "" == s && ("%" + s)[1..] == s;
    RunDirective(Kernel, "%" + s, args, 0);
    var step := Expand(Kernel, Directive(FlagsIn(flags), width, precision, length, c), args, 0);
    if step.Effect? {
      RunEmpty(Kernel, step.rest, |step.text|);
      assert step.text + "" == step.text && step.writes + [] == step.writes;
    }
  }

  lemma WidthWritten(w: nat)
    ensures WidthText(WidthOf(w)) == Numeral(w, 10)
    ensures WidthOf(w).Width? ==> WidthOf(w).columns > 0
  {
  }

  /** The numbers of a directive as the kernel computes them. */
  function Numbers(flags: string, w: nat, precision: Precision): Resolved {
    Resolved(FlagsIn(flags), w, precision.Precision?, if precision.Precision? then precision.digits else 0)
  }

  predicate Small(w: nat, precision: Precision) {
    w < TWO32 && precision != StarPrecision && (precision.Precision? ==> precision.digits < TWO32)
  }

  lemma ExpandsTo(flags: string, w: nat, precision: Precision, length: Length, c: char, args: seq<Arg>)
    requires Small(w, precision) && c != 'p'
    ensures Expand(Kernel, Directive(FlagsIn(flags), WidthOf(w), precision, length, c), args, 0)
            == Convert(Kernel, Numbers(flags, w, precision), args, length, c, 0)
  {
    hide Convert, FlagsIn;
  }

  /** An integer directive prints its field. */
  lemma IntegerDirective(flags: string, w: nat, precision: Precision, length: Length, c: char, arg: Arg)
    requires AreFlags(flags) && IsInteger(c) && FitsInteger(length, arg) && Small(w, precision)
    ensures Run(Kernel, "%" + (flags + (Numeral(w, 10) + (PrecisionText(precision) + (LengthText(length) + [c])))), [arg], 0)
            == Effect(Printed(IntegerField(Numbers(flags, w, precision), length, c, Word(arg))), [], [])
  {
    hide Run, Numeral, Printed, IntegerField, FlagsIn, Expand, WidthText, PrecisionText, LengthText;
    ExpandsTo(flags, w, precision, length, c, [arg]);
    assert [arg][1..] == [];
    WidthWritten(w);
    OneDirective(flags, WidthOf(w), precision, length, c, [arg]);
  }

  // ------------------------------------------------------- rendered fields

  /** Without a precision there is at least one digit, and with '#' an octal numeral has a zero in front. */
  lemma DigitsOfNumber(f: IntField)
    requires Base(f.base) && !f.flags.precision
    ensures Digits(f) == if f.base == 8 && f.flags.hash && f.value != 0 then "0" + Written(f.value, 8) else Written(f.value, f.base)
  {
    DigitsShape(f);
    hide Digits, Numeral;
    assert Repeat('0', 0) == "" && Repeat('0', 1) == "0";
    assert "" + Numeral(f.value, f.base) == Numeral(f.value, f.base);
    assert f.value != 0 ==> |Numeral(f.value, f.base)| >= 1;
  }

  /** The lead, the digits, and zeros or spaces around them. */
  lemma RenderedNumber(f: IntField, lead: string, digits: string)
    requires Base(f.base) && !f.flags.precision
    requires lead == Sign(f.negative, f.flags) + Prefix(f) && digits == Digits(f)
    ensures var fill := f.width - |lead| - |digits|;
            Rendered(f) == if f.flags.left then lead + digits + Repeat(' ', fill)
                           else if f.flags.zeroPad then lead + Repeat('0', fill) + digits
                           else Repeat(' ', fill) + lead + digits
  {
    hide Digits, Prefix, Sign, Repeat;
    var fill := f.width - |lead| - |digits|;
    var core := Core(f);
    if f.flags.zeroPad && !f.flags.left {
      assert core == lead + Repeat('0', fill) + digits;
      assert Repeat(' ', f.width - |core|) == "";
      assert "" + core == core;
    } else {
      assert Repeat('0', 0) == "" && lead + "" + digits == lead + digits;
      assert core == lead + digits;
      assert Repeat(' ', fill) + (lead + digits) == Repeat(' ', fill) + lead + digits;
    }
  }

  // ----------------------------------------------------- integer directives

  /** A length modifier as written, and the number of values of its argument's type. */
  predicate IsLength(l: string, modulus: nat) {
    || (l == "hh" && modulus == 0x100)
    || (l == "h" && modulus == 0x1_0000)
    || (l == "" && modulus == 0x1_0000_0000)
    || ((l == "l" || l == "ll" || l == "t" || l == "j" || l == "z") && modulus == 0x1_0000_0000_0000_0000)
  }

  /** The argument passed for such a value: a `long` and its like have 64 bits, all others 32. */
  predicate Carries(arg: Arg, l: string, bits: uint64) {
    if l == "" || l == "h" || l == "hh" then arg.Word32? && arg.bits == bits else arg.Word64? && arg.bits64 == bits
  }

  lemma LengthOf(l: string, modulus: nat, arg: Arg, bits: uint64) returns (length: Length)
    requires IsLength(l, modulus) && Carries(arg, l, bits)
    ensures LengthText(length) == l && Modulus(length) == modulus && FitsInteger(length, arg) && Word(arg) == bits
  {
    length := LengthNamed(l, modulus);
  }

  lemma LengthNamed(l: string, modulus: nat) returns (length: Length)
    requires IsLength(l, modulus)
    ensures LengthText(length) == l && Modulus(length) == modulus
  {
    length := if l == "hh" then HH else if l == "h" then H else if l == "" then NoLength else if l == "l" then L
              else if l == "ll" then LL else if l == "t" then T else if l == "j" then J else Z;
  }

  function FieldFlags(zero: bool, left: bool, plus: bool, space: bool, hash: bool, upper: bool, precision: bool): Flags {
    Flags(zero, left, plus, space, hash, upper, precision, false)
  }

  lemma SignedField(flags: string, w: nat, length: Length, c: char, bits: uint64, v: int)
    requires c == 'd' || c == 'i'
    requires -(Modulus(length) / 2) <= v < Modulus(length) / 2 && v % Modulus(length) == bits % Modulus(length)
    ensures -0x8000_0000_0000_0000 <= v < 0x8000_0000_0000_0000
    ensures IntegerField(Numbers(flags, w, NoPrecision), length, c, bits)
         == IntField(if v < 0 then -v else v, v < 0, 10, 0, w,
                     FieldFlags('0' in flags, '-' in flags, '+' in flags, ' ' in flags, false, false, false))
  {
    IntegerValueIs(length, true, bits, v);
  }

  lemma UnsignedField(flags: string, w: nat, length: Length, c: char, base: nat, bits: uint64)
    requires (c == 'u' && base == 10) || ((c == 'x' || c == 'X') && base == 16) || (c == 'o' && base == 8) || (c == 'b' && base == 2)
    ensures IntegerField(Numbers(flags, w, NoPrecision), length, c, bits)
         == IntField(bits % Modulus(length), false, base, 0, w,
                     FieldFlags('0' in flags, '-' in flags, false, false, '#' in flags && c != 'u', c == 'X', false))
  {
    hide Modulus;
  }

  /** The printed field of a number without a precision. */
  lemma PrintedNumber(f: IntField, lead: string)
    requires Producible(f) && !f.flags.precision && (f.flags.zeroPad ==> f.width <= 32)
    requires f.base == 2 ==> f.value < 0x4000_0000
    requires lead == Sign(f.negative, f.flags) + Prefix(f)
    ensures var digits := if f.base == 8 && f.flags.hash && f.value != 0 then "0" + Written(f.value, 8) else Written(f.value, f.base);
            var fill := f.width - |lead| - |digits|;
            Printed(f) == if f.flags.left then lead + digits + Repeat(' ', fill)
                          else if f.flags.zeroPad then lead + Repeat('0', fill) + digits
                          else Repeat(' ', fill) + lead + digits
  {
    assert Base(f.base);
    hide Printed, Rendered, Producible, Digits, Written, Repeat, Sign, Prefix;
    WithinBounds(f);
    DigitsOfNumber(f);
    RenderedNumber(f, lead, Digits(f));
  }

  lemma SignedRun(flags: string, w: nat, length: Length, c: char, arg: Arg, v: int)
    requires AreFlags(flags) && w < TWO32 && ('0' in flags ==> w <= 32) && (c == 'd' || c == 'i') && FitsInteger(length, arg)
    requires -0x8000_0000_0000_0000 <= v < 0x8000_0000_0000_0000
    requires IntegerField(Numbers(flags, w, NoPrecision), length, c, Word(arg))
          == IntField(if v < 0 then -v else v, v < 0, 10, 0, w,
                      FieldFlags('0' in flags, '-' in flags, '+' in flags, ' ' in flags, false, false, false))
    ensures var sign := if v < 0 then "-" else if '+' in flags then "+" else if ' ' in flags then " " else "";
            var digits := Written(if v < 0 then -v else v, 10);
            var fill := w - |sign| - |digits|;
            Run(Kernel, "%" + (flags + (Numeral(w, 10) + ("" + (LengthText(length) + [c])))), [arg], 0)
            == Effect(if '-' in flags then sign + digits + Repeat(' ', fill)
                      else if '0' in flags then sign + Repeat('0', fill) + digits
                      else Repeat(' ', fill) + sign + digits, [], [])
  {
    hide Run, Printed, IntegerField, Numeral, Written, LengthText, Repeat, AreFlags, Numbers;
    var f := IntegerField(Numbers(flags, w, NoPrecision), length, c, Word(arg));
    IntegerDirective(flags, w, NoPrecision, length, c, arg);
    var sign := if v < 0 then "-" else if '+' in flags then "+" else if ' ' in flags then " " else "";
    assert Sign(f.negative, f.flags) == sign && Prefix(f) == "" && sign + "" == sign;
    SignedPrinted(f, sign);
  }

  lemma SignedPrinted(f: IntField, sign: string)
    requires f.base == 10 && f.precision == 0 && !f.flags.precision && !f.flags.pointer && !f.flags.hash
    requires f.flags.zeroPad ==> f.width <= 32
    requires sign == Sign(f.negative, f.flags)
    ensures var digits := Written(f.value, 10);
            var fill := f.width - |sign| - |digits|;
            Printed(f) == if f.flags.left then sign + digits + Repeat(' ', fill)
                          else if f.flags.zeroPad then sign + Repeat('0', fill) + digits
                          else Repeat(' ', fill) + sign + digits
  {
    assert Prefix(f) == "" && sign + "" == sign;
    hide Printed, Written, Repeat, Sign, Prefix;
    PrintedNumber(f, sign);
  }

  lemma UnsignedRun(flags: string, w: nat, length: Length, c: char, base: nat, arg: Arg, v: uint64)
    requires AreFlags(flags) && w < TWO32 && ('0' in flags ==> w <= 32) && FitsInteger(length, arg)
    requires (c == 'u' && base == 10) || ((c == 'x' || c == 'X') && base == 16) || (c == 'o' && base == 8)
             || (c == 'b' && base == 2 && v < 0x4000_0000)
    requires IntegerField(Numbers(flags, w, NoPrecision), length, c, Word(arg))
          == IntField(v, false, base, 0, w,
                      FieldFlags('0' in flags, '-' in flags, false, false, '#' in flags && c != 'u', c == 'X', false))
    ensures var alt := '#' in flags && v != 0;
            var prefix := if alt && c == 'x' then "0x" else if alt && c == 'X' then "0X" else if alt && c == 'b' then "0b" else "";
            var digits := if alt && c == 'o' then "0" + Written(v, 8) else Written(v, base);
            var fill := w - |prefix| - |digits|;
            Run(Kernel, "%" + (flags + (Numeral(w, 10) + ("" + (LengthText(length) + [c])))), [arg], 0)
            == Effect(if '-' in flags then prefix + digits + Repeat(' ', fill)
                      else if '0' in flags then prefix + Repeat('0', fill) + digits
                      else Repeat(' ', fill) + prefix + digits, [], [])
  {
    hide Run, Printed, IntegerField, Numeral, Written, LengthText, PrecisionText, Repeat, Prefix, AreFlags, Numbers;
    var f := IntegerField(Numbers(flags, w, NoPrecision), length, c, Word(arg));
    IntegerDirective(flags, w, NoPrecision, length, c, arg);
    assert PrecisionText(NoPrecision) == "" by { NoPrecisionText(); }
    UnsignedPrefix(f, '#' in flags && v != 0, c);
    UnsignedPrinted(f, Prefix(f));
  }

  lemma NoPrecisionText()
    ensures PrecisionText(NoPrecision) == ""
  {
  }

  lemma UnsignedPrefix(f: IntField, alt: bool, c: char)
    requires !f.flags.pointer && f.flags.upper == (c == 'X') && (c != 'u' ==> alt == (f.flags.hash && f.value != 0))
    requires (c == 'u' && f.base == 10) || ((c == 'x' || c == 'X') && f.base == 16) || (c == 'o' && f.base == 8) || (c == 'b' && f.base == 2)
    ensures Prefix(f) == if alt && c == 'x' then "0x" else if alt && c == 'X' then "0X" else if alt && c == 'b' then "0b" else ""
  {
  }

  lemma UnsignedPrinted(f: IntField, prefix: string)
    requires Base(f.base) && f.precision == 0 && !f.flags.precision && !f.flags.pointer && (f.base == 10 ==> !f.flags.hash)
    requires !f.negative && !f.flags.plus && !f.flags.space && (f.flags.zeroPad ==> f.width <= 32)
    requires f.base == 2 ==> f.value < 0x4000_0000
    requires prefix == Prefix(f)
    ensures var digits := if f.base == 8 && f.flags.hash && f.value != 0 then "0" + Written(f.value, 8) else Written(f.value, f.base);
            var fill := f.width - |prefix| - |digits|;
            Printed(f) == if f.flags.left then prefix + digits + Repeat(' ', fill)
                          else if f.flags.zeroPad then prefix + Repeat('0', fill) + digits
                          else Repeat(' ', fill) + prefix + digits
  {
    assert Sign(f.negative, f.flags) == "" && "" + prefix == prefix;
    hide Printed, Written, Repeat, Sign, Prefix;
    PrintedNumber(f, prefix);
  }

  /**
   `%d` and `%i`, with any flags, width and length: the sign, the digits of the
   magnitude, and spaces behind, zeros between or spaces in front of them.
   */
  lemma SignedLayout(flags: string, w: nat, l: string, modulus: nat, c: char, arg: Arg, bits: uint64, v: int)
    requires AreFlags(flags) && w < TWO32 && ('0' in flags ==> w <= 32) && (c == 'd' || c == 'i')
    requires IsLength(l, modulus) && Carries(arg, l, bits)
    requires -(modulus / 2) <= v < modulus / 2 && v % modulus == bits % modulus
    ensures var sign := if v < 0 then "-" else if '+' in flags then "+" else if ' ' in flags then " " else "";
            var digits := Written(if v < 0 then -v else v, 10);
            var fill := w - |sign| - |digits|;
            Run(Kernel, "%" + (flags + (Numeral(w, 10) + ("" + (l + [c])))), [arg], 0)
            == Effect(if '-' in flags then sign + digits + Repeat(' ', fill)
                      else if '0' in flags then sign + Repeat('0', fill) + digits
                      else Repeat(' ', fill) + sign + digits, [], [])
  {
    var length := LengthOf(l, modulus, arg, bits);
    SignedField(flags, w, length, c, bits, v);
    hide *;
    SignedRun(flags, w, length, c, arg, v);
  }

  /**
   The unsigned conversions, with any flags, width and length: prefix, digits
   and padding. The octal '#' is a zero in front of the digits; no prefix is
   printed for zero, and signs never are.
   */
  lemma UnsignedLayout(flags: string, w: nat, l: string, modulus: nat, c: char, base: nat, arg: Arg, bits: uint64, v: uint64)
    requires AreFlags(flags) && w < TWO32 && ('0' in flags ==> w <= 32)
    requires IsLength(l, modulus) && Carries(arg, l, bits) && modulus > 0 && v == bits % modulus
    requires (c == 'u' && base == 10) || ((c == 'x' || c == 'X') && base == 16) || (c == 'o' && base == 8)
             || (c == 'b' && base == 2 && v < 0x4000_0000)
    ensures var alt := '#' in flags && v != 0;
            var prefix := if alt && c == 'x' then "0x" else if alt && c == 'X' then "0X" else if alt && c == 'b' then "0b" else "";
            var digits := if alt && c == 'o' then "0" + Written(v, 8) else Written(v, base);
            var fill := w - |prefix| - |digits|;
            Run(Kernel, "%" + (flags + (Numeral(w, 10) + ("" + (l + [c])))), [arg], 0)
            == Effect(if '-' in flags then prefix + digits + Repeat(' ', fill)
                      else if '0' in flags then prefix + Repeat('0', fill) + digits
                      else Repeat(' ', fill) + prefix + digits, [], [])
  {
    var length := LengthOf(l, modulus, arg, bits);
    UnsignedField(flags, w, length, c, base, bits);
    hide *;
    UnsignedRun(flags, w, length, c, base, arg, v);
  }

  lemma PreciseField(flags: string, w: nat, n: nat, c: int)
    requires -0x8000_0000 <= c < 0x8000_0000
    ensures IntegerField(Numbers(flags, w, Precision(n)), NoLength, 'd', c % 0x1_0000_0000)
         == IntField(if c < 0 then -c else c, c < 0, 10, n, w,
                     FieldFlags(false, '-' in flags, '+' in flags, ' ' in flags, false, false, true))
  {
    IntegerValueIs(NoLength, true, c % 0x1_0000_0000, c);
  }

  /** A precision is the least number of digits; it cancels the flag '0', and zero has no digits at precision 0. */
  lemma PrecisionLayout(flags: string, w: nat, n: nat, c: int)
    requires AreFlags(flags) && w < TWO32 && n <= 30 && -0x8000_0000 <= c < 0x8000_0000
    ensures var sign := if c < 0 then "-" else if '+' in flags then "+" else if ' ' in flags then " " else "";
            var digits := Numeral(if c < 0 then -c else c, 10);
            var body := sign + Repeat('0', n - |digits|) + digits;
            Run(Kernel, "%" + (flags + (Numeral(w, 10) + (("." + Numeral(n, 10)) + ("" + "d")))), [Word32(c % 0x1_0000_0000)], 0)
            == Effect(if '-' in flags then body + Repeat(' ', w - |body|) else Repeat(' ', w - |body|) + body, [], [])
  {
    hide Run, Printed, IntegerField, Numeral, Repeat;
    PreciseField(flags, w, n, c);
    var f := IntegerField(Numbers(flags, w, Precision(n)), NoLength, 'd', c % 0x1_0000_0000);
    IntegerDirective(flags, w, Precision(n), NoLength, 'd', Word32(c % 0x1_0000_0000));
    PrecisePrinted(f, Sign(f.negative, f.flags));
  }

  lemma PrecisePrinted(f: IntField, sign: string)
    requires f.base == 10 && f.precision <= 30 && f.flags.precision && !f.flags.zeroPad && !f.flags.pointer && !f.flags.hash
    requires sign == Sign(f.negative, f.flags)
    ensures var digits := Numeral(f.value, 10);
            var body := sign + Repeat('0', f.precision - |digits|) + digits;
            Printed(f) == if f.flags.left then body + Repeat(' ', f.width - |body|) else Repeat(' ', f.width - |body|) + body
  {
    PreciseCore(f, sign);
    assert Producible(f);
    hide Printed, Numeral, Repeat, Sign, Producible, Core;
    WithinBounds(f);
  }

  lemma PreciseCore(f: IntField, sign: string)
    requires f.base == 10 && f.flags.precision && !f.flags.pointer && !f.flags.hash && sign == Sign(f.negative, f.flags)
    ensures Core(f) == sign + Repeat('0', f.precision - |Numeral(f.value, 10)|) + Numeral(f.value, 10)
  {
    hide Numeral, Repeat, Sign;
    var zeros, digits := Repeat('0', f.precision - |Numeral(f.value, 10)|), Numeral(f.value, 10);
    assert Prefix(f) == "" && Repeat('0', 0) == "" && sign + "" == sign;
    assert Core(f) == sign + (zeros + digits) == sign + zeros + digits;
  }

  // ---------------------------------------------- the numbers they denote

  lemma NothingAround(l: string, c: char, lead: string, digits: string)
    ensures "%" + ("" + (Numeral(0, 10) + ("" + (l + [c])))) == "%" + l + [c]
    ensures Repeat(' ', 0 - |lead| - |digits|) + lead + digits == lead + digits
  {
    assert "" + (l + [c]) == l + [c] && Numeral(0, 10) + (l + [c]) == l + [c];
    assert Repeat(' ', 0 - |lead| - |digits|) == "";
  }

  /** `%u`, `%x`, `%X` and `%o`, of any length, print digits that denote the argument, reduced to that length. */
  lemma UnsignedDenotes(l: string, modulus: nat, arg: Arg, bits: uint64, v: uint64)
    requires IsLength(l, modulus) && Carries(arg, l, bits) && modulus > 0 && v == bits % modulus
    ensures var e := Run(Kernel, "%" + l + "u", [arg], 0); e.Effect? && e.rest == [] && Value(Offsets(e.text), 10) == v
    ensures var e := Run(Kernel, "%" + l + "x", [arg], 0); e.Effect? && e.rest == [] && Value(DigitValues(e.text), 16) == v
    ensures var e := Run(Kernel, "%" + l + "X", [arg], 0); e.Effect? && e.rest == [] && Value(DigitValues(e.text), 16) == v
    ensures var e := Run(Kernel, "%" + l + "o", [arg], 0); e.Effect? && e.rest == [] && Value(DigitValues(e.text), 8) == v
  {
    UnsignedPlain(l, modulus, 'u', 10, arg, bits, v);
    UnsignedPlain(l, modulus, 'x', 16, arg, bits, v);
    UnsignedPlain(l, modulus, 'X', 16, arg, bits, v);
    UnsignedPlain(l, modulus, 'o', 8, arg, bits, v);
    hide *;
    WrittenDenotes(v, 10);
    WrittenDenotes(v, 16);
    WrittenDenotes(v, 8);
  }

  /** Without flags and width there are just the digits. */
  lemma UnsignedPlain(l: string, modulus: nat, c: char, base: nat, arg: Arg, bits: uint64, v: uint64)
    requires (c == 'u' && base == 10) || ((c == 'x' || c == 'X') && base == 16) || (c == 'o' && base == 8)
             || (c == 'b' && base == 2 && v < 0x4000_0000)
    requires IsLength(l, modulus) && Carries(arg, l, bits) && modulus > 0 && v == bits % modulus
    ensures Run(Kernel, "%" + l + [c], [arg], 0) == Effect(Written(v, base), [], [])
  {
    UnsignedLayout("", 0, l, modulus, c, base, arg, bits, v);
    hide *;
    NothingAround(l, c, "", Written(v, base));
    assert "" + Written(v, base) == Written(v, base);
  }

  lemma SignedPlain(l: string, modulus: nat, c: char, arg: Arg, bits: uint64, v: int)
    requires (c == 'd' || c == 'i') && IsLength(l, modulus) && Carries(arg, l, bits)
    requires -(modulus / 2) <= v < modulus / 2 && v % modulus == bits % modulus
    ensures Run(Kernel, "%" + l + [c], [arg], 0)
            == Effect(if v < 0 then "-" + Written(-v, 10) else Written(v, 10), [], [])
  {
    var length := LengthOf(l, modulus, arg, bits);
    SignedField("", 0, length, c, bits, v);
    hide *;
    SignedPlainRun(length, c, arg, v);
  }

  lemma SignedPlainRun(length: Length, c: char, arg: Arg, v: int)
    requires (c == 'd' || c == 'i') && FitsInteger(length, arg) && -0x8000_0000_0000_0000 <= v < 0x8000_0000_0000_0000
    requires IntegerField(Numbers("", 0, NoPrecision), length, c, Word(arg))
          == IntField(if v < 0 then -v else v, v < 0, 10, 0, 0,
                      FieldFlags('0' in "", '-' in "", '+' in "", ' ' in "", false, false, false))
    ensures Run(Kernel, "%" + LengthText(length) + [c], [arg], 0)
            == Effect(if v < 0 then "-" + Written(-v, 10) else Written(v, 10), [], [])
  {
    hide Run, IntegerField, Numeral, Written, LengthText, Repeat;
    SignedRun("", 0, length, c, arg, v);
    var digits := Written(if v < 0 then -v else v, 10);
    NothingAround(LengthText(length), c, if v < 0 then "-" else "", digits);
    assert "" + digits == digits;
  }

  lemma SignTextDenotes(v: int)
    ensures v < 0 ==> var s := "-" + Written(-v, 10); s[0] == '-' && Value(Offsets(s[1..]), 10) == -v
    ensures v >= 0 ==> Value(Offsets(Written(v, 10)), 10) == v
  {
    hide Value, Offsets, Written;
    WrittenDenotes(if v < 0 then -v else v, 10);
    if v < 0 {
      assert ("-" + Written(-v, 10))[1..] == Written(-v, 10);
    }
  }

  /** `%d` and `%i`, of any length, print a sign and digits that denote the argument. */
  lemma SignedDenotes(l: string, modulus: nat, c: char, arg: Arg, bits: uint64, v: int)
    requires (c == 'd' || c == 'i') && IsLength(l, modulus) && Carries(arg, l, bits)
    requires -(modulus / 2) <= v < modulus / 2 && v % modulus == bits % modulus
    ensures var e := Run(Kernel, "%" + l + [c], [arg], 0);
            && e.Effect? && e.rest == [] && e.text != ""
            && if v < 0 then e.text[0] == '-' && Value(Offsets(e.text[1..]), 10) == -v else Value(Offsets(e.text), 10) == v
  {
    SignedPlain(l, modulus, c, arg, bits, v);
    hide *;
    SignTextDenotes(v);
  }

  /** All 64 bits of an argument of `%lx`. */
  lemma LongHex(v: uint64)
    ensures Run(Kernel, "%lx", [Word64(v)], 0) == Effect(Written(v, 16), [], [])
  {
    ModUnique(v, TWO64, 0, v);
    UnsignedPlain("l", 0x1_0000_0000_0000_0000, 'x', 16, Word64(v), v, v);
    assert "%" + "l" + ['x'] == "%lx";
  }

  // ------------------------------------------------- characters and strings

  lemma BareFormat(flags: string, w: nat, c: char)
    ensures "%" + Text(flags, WidthOf(w), NoPrecision, NoLength, c) == "%" + (flags + (Numeral(w, 10) + ("" + ("" + [c]))))
  {
    hide Numeral;
  }

  lemma CutFormat(flags: string, w: nat, n: nat, c: char)
    ensures "%" + Text(flags, WidthOf(w), Precision(n), NoLength, c)
         == "%" + (flags + (Numeral(w, 10) + (("." + Numeral(n, 10)) + ("" + [c]))))
  {
    hide Numeral;
  }

  lemma FlagsAre(flags: string)
    ensures FlagsIn(flags).left == ('-' in flags)
  {
  }

  /** `%c`: the argument as a byte, and spaces on the side that '-' chooses. */
  lemma CharacterLayout(flags: string, w: nat, bits: uint32)
    requires AreFlags(flags) && w < TWO32
    ensures var c := (bits % 0x100) as char;
            Run(Kernel, "%" + (flags + (Numeral(w, 10) + ("" + ("" + "c")))), [Word32(bits)], 0)
            == Effect(if '-' in flags then [c] + Repeat(' ', w - 1) else Repeat(' ', w - 1) + [c], [], [])
  {
    hide Run, Numeral, Expand, Repeat, FlagsIn, Text, WidthOf;
    FlagsAre(flags);
    BareFormat(flags, w, 'c');
    ExpandsTo(flags, w, NoPrecision, NoLength, 'c', [Word32(bits)]);
    assert [Word32(bits)][1..] == [];
    WidthWritten(w);
    OneDirective(flags, WidthOf(w), NoPrecision, NoLength, 'c', [Word32(bits)]);
  }

  lemma StringConverted(r: Resolved, s: CString)
    ensures var cut := if r.hasPrecision && r.precision < |s| then s[..r.precision] else s;
            Convert(Kernel, r, [Str(s)], NoLength, 's', 0)
            == Effect(if r.flags.left then cut + Repeat(' ', r.width - |cut|) else Repeat(' ', r.width - |cut|) + cut, [], [])
  {
    assert [Str(s)][1..] == [] && s[..|s|] == s;
  }

  /** `%s`: the string, and spaces on the side that '-' chooses. */
  lemma StringLayout(flags: string, w: nat, s: CString)
    requires AreFlags(flags) && w < TWO32
    ensures Run(Kernel, "%" + (flags + (Numeral(w, 10) + ("" + ("" + "s")))), [Str(s)], 0)
            == Effect(if '-' in flags then s + Repeat(' ', w - |s|) else Repeat(' ', w - |s|) + s, [], [])
  {
    hide Run, Numeral, Expand, Repeat, FlagsIn, Text, WidthOf, Convert;
    FlagsAre(flags);
    BareFormat(flags, w, 's');
    StringRun(flags, w, NoPrecision, s);
    StringConverted(Numbers(flags, w, NoPrecision), s);
  }

  /** With a precision, at most that many of its characters. */
  lemma CutStringLayout(flags: string, w: nat, n: nat, s: CString)
    requires AreFlags(flags) && w < TWO32 && n < TWO32
    ensures var cut := if n < |s| then s[..n] else s;
            Run(Kernel, "%" + (flags + (Numeral(w, 10) + (("." + Numeral(n, 10)) + ("" + "s")))), [Str(s)], 0)
            == Effect(if '-' in flags then cut + Repeat(' ', w - |cut|) else Repeat(' ', w - |cut|) + cut, [], [])
  {
    hide Run, Numeral, Repeat, FlagsIn, Text, WidthOf, Convert, AreFlags;
    FlagsAre(flags);
    CutFormat(flags, w, n, 's');
    StringRun(flags, w, Precision(n), s);
    StringConverted(Numbers(flags, w, Precision(n)), s);
  }

  lemma StringRun(flags: string, w: nat, precision: Precision, s: CString)
    requires AreFlags(flags) && Small(w, precision)
    ensures Run(Kernel, "%" + Text(flags, WidthOf(w), precision, NoLength, 's'), [Str(s)], 0)
            == Convert(Kernel, Numbers(flags, w, precision), [Str(s)], NoLength, 's', 0)
  {
    hide Run, Numeral, Expand, FlagsIn, Text, WidthOf, Convert, Numbers;
    ExpandsTo(flags, w, precision, NoLength, 's', [Str(s)]);
    WidthWritten(w);
    OneDirective(flags, WidthOf(w), precision, NoLength, 's', [Str(s)]);
  }

  /** A null pointer is printed in words. */
  lemma NullString()
    ensures Run(Kernel, "%s", [NullStr], 0) == Effect("(null)", [], [])
  {
    hide Run, Expand;
    ExpandsTo("", 0, NoPrecision, NoLength, 's', [NullStr]);
    assert [NullStr][1..] == [];
    OneDirective("", NoWidth, NoPrecision, NoLength, 's', [NullStr]);
    assert "%" + ("" + ("" + ("" + ("" + ['s'])))) == "%s";
    assert Reverse(")llun(") == "(null)" && Repeat(' ', -6) == "" && "" + "(null)" == "(null)";
  }

  /** `%%` prints '%', and a character that is no conversion prints itself. */
  lemma OtherCharacter(c: char, args: seq<Arg>)
    requires !('0' <= c <= '9')
    requires c !in {'d', 'i', 'u', 'x', 'X', 'o', 'b', 'c', 's', 'p', 'n', '-', '+', ' ', '#', '*', '.', 'l', 'h', 't', 'j', 'z'}
    ensures Run(Kernel, "%" + [c], args, 0) == Effect([c], [], args)
  {
    assert IsConversion(c) && !IsInteger(c) && c != 'c' && c != 's' && c != 'p' && c != 'n';
    hide Run, Expand, IsConversion, IsInteger;
    ExpandsTo("", 0, NoPrecision, NoLength, c, args);
    OneDirective("", NoWidth, NoPrecision, NoLength, c, args);
    assert "%" + ("" + ("" + ("" + ("" + [c])))) == "%" + [c];
  }

  // ------------------------------------------------------------- stars

  lemma StarWidthDirective(n: int, length: Length, c: char, rest: seq<Arg>)
    requires -0x8000_0000 <= n < 0x8000_0000 && n != 0 && IsConversion(c)
    ensures Run(Kernel, "%*" + LengthText(length) + [c], [Word32(n % 0x1_0000_0000)] + rest, 0)
            == if n < 0 then Run(Kernel, "%-" + Numeral(-n, 10) + LengthText(length) + [c], rest, 0)
               else Run(Kernel, "%" + Numeral(n, 10) + LengthText(length) + [c], rest, 0)
  {
    hide Run, Expand, Numeral, LengthText, IsConversion, Text, Int32;
    WordInt(n);
    var word: uint32 := n % 0x1_0000_0000;
    IntOf(word);
    StarWidthMeans(Kernel, Directive(NoFlags, StarWidth, NoPrecision, length, c), word, rest, 0);
    assert FlagsIn("") == NoFlags && FlagsIn("-") == NoFlags.(left := true);
    OneDirective("", StarWidth, NoPrecision, length, c, [Word32(word)] + rest);
    var w: nat := if n < 0 then -n else n;
    OneDirective(if n < 0 then "-" else "", Width(w), NoPrecision, length, c, rest);
    StarWidthTexts(w, length, c);
  }

  lemma StarWidthTexts(w: nat, length: Length, c: char)
    ensures "%" + Text("", StarWidth, NoPrecision, length, c) == "%*" + LengthText(length) + [c]
    ensures "%" + Text("-", Width(w), NoPrecision, length, c) == "%-" + Numeral(w, 10) + LengthText(length) + [c]
    ensures "%" + Text("", Width(w), NoPrecision, length, c) == "%" + Numeral(w, 10) + LengthText(length) + [c]
  {
    hide Numeral, LengthText;
    var l := LengthText(length);
    assert "%" + ("" + ("*" + ("" + (l + [c])))) == "%*" + l + [c];
    assert "%" + ("-" + (Numeral(w, 10) + ("" + (l + [c])))) == "%-" + Numeral(w, 10) + l + [c];
    assert "%" + ("" + (Numeral(w, 10) + ("" + (l + [c])))) == "%" + Numeral(w, 10) + l + [c];
  }

  /** `%*d` with an int argument n is `%nd`, and with a negative one `%-md`, m being its magnitude; so for every conversion. */
  lemma StarWidthRun(n: int, l: string, modulus: nat, c: char, rest: seq<Arg>)
    requires -0x8000_0000 <= n < 0x8000_0000 && n != 0 && IsLength(l, modulus) && IsConversion(c)
    ensures Run(Kernel, "%*" + l + [c], [Word32(n % 0x1_0000_0000)] + rest, 0)
            == if n < 0 then Run(Kernel, "%-" + Numeral(-n, 10) + l + [c], rest, 0)
               else Run(Kernel, "%" + Numeral(n, 10) + l + [c], rest, 0)
  {
    var length := LengthNamed(l, modulus);
    hide *;
    StarWidthDirective(n, length, c, rest);
  }

  /** A star precision means the argument's precision, and 0 for a negative argument. */
  lemma StarPrecisionMeans(d: Directive, word: uint32, args: seq<Arg>, pos: nat)
    requires d.precision == StarPrecision && d.width != StarWidth
    ensures var n := if word < 0x8000_0000 then word else 0;
            Expand(Kernel, d, [Word32(word)] + args, pos) == Expand(Kernel, d.(precision := Precision(n)), args, pos)
  {
    hide Convert, Resolve;
    StarPrecisionResolves(d, word, args);
  }

  lemma StarPrecisionResolves(d: Directive, word: uint32, args: seq<Arg>)
    requires d.precision == StarPrecision && d.width != StarWidth
    ensures var n := if word < 0x8000_0000 then word else 0;
            Resolve(Kernel, d, [Word32(word)] + args) == Resolve(Kernel, d.(precision := Precision(n)), args)
  {
    hide Int32;
    assert ([Word32(word)] + args)[1..] == args;
    IntOf(word);
  }

  lemma IntOf(word: uint32)
    ensures Int32(word) == if word < 0x8000_0000 then word else word - 0x1_0000_0000
  {
  }

  /** The int n as it is passed. */
  lemma WordInt(n: int)
    requires -0x8000_0000 <= n < 0x8000_0000
    ensures n % 0x1_0000_0000 == if n < 0 then n + 0x1_0000_0000 else n
  {
  }

  lemma StarPrecisionDirective(n: int, length: Length, c: char, rest: seq<Arg>)
    requires -0x8000_0000 <= n < 0x8000_0000 && IsConversion(c)
    ensures Run(Kernel, "%.*" + LengthText(length) + [c], [Word32(n % 0x1_0000_0000)] + rest, 0)
            == Run(Kernel, "%." + Numeral(if n < 0 then 0 else n, 10) + LengthText(length) + [c], rest, 0)
  {
    hide Run, Expand, Numeral, LengthText, IsConversion, FlagsIn, Text;
    WordInt(n);
    var word: uint32 := n % 0x1_0000_0000;
    var p: nat := if n < 0 then 0 else n;
    StarPrecisionMeans(Directive(FlagsIn(""), NoWidth, StarPrecision, length, c), word, rest, 0);
    OneDirective("", NoWidth, StarPrecision, length, c, [Word32(word)] + rest);
    OneDirective("", NoWidth, Precision(p), length, c, rest);
    StarPrecisionTexts(p, length, c);
  }

  lemma StarPrecisionTexts(p: nat, length: Length, c: char)
    ensures "%" + Text("", NoWidth, StarPrecision, length, c) == "%.*" + LengthText(length) + [c]
    ensures "%" + Text("", NoWidth, Precision(p), length, c) == "%." + Numeral(p, 10) + LengthText(length) + [c]
  {
    hide Numeral, LengthText;
    var l := LengthText(length);
    assert "%" + ("" + ("" + (".*" + (l + [c])))) == "%.*" + l + [c];
    assert "%" + ("" + ("" + (("." + Numeral(p, 10)) + (l + [c])))) == "%." + Numeral(p, 10) + l + [c];
  }

  /** `%.*s` with an int argument n is `%.ns`, and with a negative one `%.s`; so for every conversion. */
  lemma StarPrecisionRun(n: int, l: string, modulus: nat, c: char, rest: seq<Arg>)
    requires -0x8000_0000 <= n < 0x8000_0000 && IsLength(l, modulus) && IsConversion(c)
    ensures Run(Kernel, "%.*" + l + [c], [Word32(n % 0x1_0000_0000)] + rest, 0)
            == Run(Kernel, "%." + Numeral(if n < 0 then 0 else n, 10) + l + [c], rest, 0)
  {
    var length := LengthNamed(l, modulus);
    hide *;
    StarPrecisionDirective(n, length, c, rest);
  }

  /** A format that ends behind a star has used up the star's argument and prints nothing. */
  lemma StarAtEnd(word: uint32, rest: seq<Arg>)
    ensures Run(Kernel, "%*", [Word32(word)] + rest, 0) == Effect("", [], rest)
    ensures Run(Kernel, "%.*", [Word32(word)] + rest, 0) == Effect("", [], rest)
  {
    var args := [Word32(word)] + rest;
    assert args[1..] == rest && ConsumeStars(0, rest) == Effect("", [], rest);
    assert "%*"[1..] == "*" && FlagRun("*") == 0 && "*"[0..] == "*";
    assert "%.*"[1..] == ".*" && FlagRun(".*") == 0 && ".*"[0..] == ".*";
  }

  // ---------------------------------------------------------------- %n

  lemma PositionDirective(d: Directive, id: nat, pos: nat)
    requires d.conversion == 'n' && d.width == NoWidth && d.precision == NoPrecision
    ensures Expand(Kernel, d, [Dest(id)], pos) == Effect("", [WriteBack(id, pos % Modulus(d.length))], [])
  {
    assert [Dest(id)][1..] == [];
  }

  lemma PositionRun(format: string, args: seq<Arg>, length: Length, id: nat)
    requires WellFormed(format) && Run(Kernel, format, args, 0).Effect? && Run(Kernel, format, args, 0).rest == []
    ensures var first := Run(Kernel, format, args, 0);
            Run(Kernel, format + ("%" + LengthText(length) + "n"), args + [Dest(id)], 0)
            == Effect(first.text, first.writes + [WriteBack(id, |first.text| % Modulus(length))], [])
  {
    hide Run, Expand, WellFormed, FlagsIn, Modulus, ReadDirective, LengthText;
    var l := LengthText(length);
    var first := Run(Kernel, format, args, 0);
    PositionDirective(Directive(FlagsIn(""), NoWidth, NoPrecision, length, 'n'), id, |first.text|);
    JoinedRuns(Kernel, format, args, "%" + l + "n", [Dest(id)], 0);
    DirectiveReadBack("", NoWidth, NoPrecision, length, 'n', "");
    assert "" + ("" + ("" + (l + ['n']))) + "" == l + "n" && ("%" + l + "n")[1..] == l + "n";
    RunDirective(Kernel, "%" + l + "n", [Dest(id)], |first.text|);
    RunEmpty(Kernel, [], |first.text|);
    assert first.text + ("" + "") == first.text;
  }

  /** `%n` behind a format stores how many characters the format has printed, in the width its length gives. */
  lemma PositionStored(format: string, args: seq<Arg>, l: string, modulus: nat, id: nat)
    requires IsLength(l, modulus) && modulus > 0
    requires WellFormed(format) && Run(Kernel, format, args, 0).Effect? && Run(Kernel, format, args, 0).rest == []
    ensures var first := Run(Kernel, format, args, 0);
            Run(Kernel, format + ("%" + l + "n"), args + [Dest(id)], 0)
            == Effect(first.text, first.writes + [WriteBack(id, |first.text| % modulus)], [])
  {
    var length := LengthNamed(l, modulus);
    hide *;
    PositionRun(format, args, length, id);
  }
}
