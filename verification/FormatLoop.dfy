/**
 formatStringLoop, vsnprintf and vprintf of kernel/video/printf.c. The format
 and argument pointers are the running indices `i` and `a`.
 */
module FormatLoop {
  import opened CTypes
  import opened Numerals
  import opened IntegerSpec
  import opened Gadget
  import opened IntegerPrinter
  import opened FormatSpec

  lemma FlagsStep(format: string, start: nat, i: nat)
    requires start <= i < |format|
    ensures var flags, c := FlagsIn(format[start..i]), format[i];
            FlagsIn(format[start..i + 1])
            == FlagSet(flags.zeroPad || c == '0', flags.left || c == '-', flags.plus || c == '+',
                       flags.space || c == ' ', flags.hash || c == '#')
    ensures var c := format[i];
            FlagRun(format[i..])
            == if c == '0' || c == '-' || c == '+' || c == ' ' || c == '#' then 1 + FlagRun(format[i + 1..]) else 0
  {
    assert format[i..][1..] == format[i + 1..];
    assert format[start..i + 1] == format[start..i] + [format[i]];
  }

  lemma NoFlagsYet(format: string, start: nat)
    requires start <= |format|
    ensures FlagsIn(format[start..start]) == FlagSet(false, false, false, false, false)
    ensures FlagRun(format[|format|..]) == 0
  {
  }

  method ParseFlags(format: CString, start: nat) returns (flags: FlagSet, i: nat)
    requires start <= |format|
    ensures i == start + FlagRun(format[start..]) && flags == FlagsIn(format[start..i])
  {
    hide *;
    flags, i := FlagSet(false, false, false, false, false), start;
    NoFlagsYet(format, start);
    while true
      invariant start <= i <= |format|
      invariant FlagRun(format[start..]) == i - start + FlagRun(format[i..])
      invariant flags == FlagsIn(format[start..i])
      decreases |format| - i
    {
      if i == |format| {
        return;
      }
      FlagsStep(format, start, i);
      match format[i] {
        case '0' => flags := flags.(zeroPad := true);
        case '-' => flags := flags.(left := true);
        case '+' => flags := flags.(plus := true);
        case ' ' => flags := flags.(space := true);
        case '#' => flags := flags.(hash := true);
        case _ => return;
      }
      i := i + 1;
    }
  }

  lemma DigitsStep(format: string, start: nat, i: nat)
    requires start <= i < |format|
    ensures DigitRun(format[i..]) == if '0' <= format[i] <= '9' then 1 + DigitRun(format[i + 1..]) else 0
    ensures '0' <= format[i] <= '9' ==>
              Decimal32(format[start..i + 1])
              == (Decimal32(format[start..i]) * 10 + (format[i] as int - '0' as int)) % 0x1_0000_0000
  {
    assert format[i..][1..] == format[i + 1..];
    var all, before := Offsets(format[start..i + 1]), Offsets(format[start..i]);
    assert all[..|all| - 1] == before;
    var d := all[|all| - 1];
    assert IsDigit(format[i]) ==> d == format[i] as int - '0' as int;
    ModHorner(Value(before, 10), TWO32, 10, d);
  }

  lemma NoDigitsYet(format: string, start: nat)
    requires start <= |format|
    ensures Decimal32(format[start..start]) == 0 && DigitRun(format[|format|..]) == 0
  {
    assert Offsets(format[start..start]) == [];
  }

  /** Reads digits in 32-bit unsigned arithmetic. */
  method Atou(format: CString, start: nat) returns (value: uint32, i: nat)
    requires start <= |format|
    ensures i == start + DigitRun(format[start..]) && value == Decimal32(format[start..i])
  {
    hide *;
    value, i := 0, start;
    NoDigitsYet(format, start);
    while i < |format| && '0' <= format[i] <= '9'
      invariant start <= i <= |format|
      invariant DigitRun(format[start..]) == i - start + DigitRun(format[i..])
      invariant value == Decimal32(format[start..i])
    {
      DigitsStep(format, start, i);
      value := (value * 10 + (format[i] as int - '0' as int)) % 0x1_0000_0000;
      i := i + 1;
    }
    if i < |format| {
      DigitsStep(format, start, i);
    }
  }

  /** Evaluates the width field; `more` is false when the format ends behind a star. */
  method EvaluateWidth(format: CString, start: nat, args: seq<Arg>, first: nat, given: FlagSet)
    returns (more: bool, r: Resolved32, i: nat, a: nat, ghost width: Width)
    requires start <= |format| && first <= |args|
    requires Supplied(ReadWidth(given, format[start..]), args[first..])
    ensures start <= i <= |format| && first <= a <= |args|
    ensures !more ==> ReadWidth(given, format[start..]) == Truncated(1)
                      && ConsumeStars(1, args[first..]) == Effect("", [], args[a..])
    ensures more ==> ReadWidth(given, format[start..]) == ReadPrecision(given, width, format[i..])
                     && ResolveWidth(Kernel, width, given, args[first..]) == Some((r, args[a..]))
  {
    hide ReadPrecision, DigitRun, Decimal32, DecimalNumber, Computed;
    more, r, i, a, width := true, Resolved(given, 0, false, 0), start, first, NoWidth;
    if i < |format| && IsDigit(format[i]) {
      var w;
      w, i := Atou(format, i);
      r := r.(width := w);
      ghost var digits := format[start..][..i - start];
      assert digits == format[start..i] && format[start..][i - start..] == format[i..];
      DigitsComputed(digits);
      width := Width(DecimalNumber(digits));
    } else if i < |format| && format[i] == '*' {
      var w: int := Int32(args[a].bits);
      assert args[first..][1..] == args[a + 1..];
      assert format[start..][1..] == format[i + 1..];
      a := a + 1;
      if w < 0 {
        r := r.(flags := r.flags.(left := true), width := -w);
      } else {
        r := r.(width := w);
      }
      width := StarWidth;
      i := i + 1;
      if i == |format| {
        more := false;
      }
    }
  }

  /** Evaluates the precision field, given the resolved width. */
  method EvaluatePrecision(format: CString, start: nat, args: seq<Arg>, first: nat, given: Resolved32,
                           ghost flags: FlagSet, ghost width: Width, ghost all: seq<Arg>)
    returns (more: bool, r: Resolved32, i: nat, a: nat, ghost precision: Precision)
    requires start <= |format| && first <= |args|
    requires ResolveWidth(Kernel, width, flags, all) == Some((given, args[first..]))
    requires Supplied(ReadPrecision(flags, width, format[start..]), all)
    ensures start <= i <= |format| && first <= a <= |args|
    ensures !more ==> var reading := ReadPrecision(flags, width, format[start..]);
                      reading.Truncated? && ConsumeStars(reading.stars, all) == Effect("", [], args[a..])
    ensures more ==> ReadPrecision(flags, width, format[start..]) == ReadLength(flags, width, precision, format[i..])
                     && ResolvePrecision(Kernel, precision, given, args[first..]) == Some((r, args[a..]))
  {
    hide ReadLength, DigitRun, Decimal32, DecimalNumber, ResolveWidth;
    more, r, i, a, precision := true, given, start, first, NoPrecision;
    if i < |format| && format[i] == '.' {
      r := r.(hasPrecision := true);
      assert format[start..][1..] == format[i + 1..];
      i := i + 1;
      if i == |format| {
        more := false;
        StarConsumed(width, flags, all, given, args[first..]);
        return;
      }
      precision := Precision(0);
      if IsDigit(format[i]) {
        var p;
        ghost var dot := i;
        p, i := Atou(format, i);
        r := r.(precision := p);
        ghost var digits := format[dot..][..i - dot];
        assert digits == format[dot..i] && format[dot..][i - dot..] == format[i..];
        DigitsComputed(digits);
        precision := Precision(DecimalNumber(digits));
      } else if format[i] == '*' {
        PrecisionStar(flags, width, format[start..], all, given, args[first..]);
        var p: int := Int32(args[a].bits);
        assert args[first..][1..] == args[a + 1..];
        assert format[start..][2..] == format[i + 1..];
        a := a + 1;
        r := r.(precision := if p > 0 then p else 0);
        precision := StarPrecision;
        i := i + 1;
        if i == |format| {
          more := false;
          return;
        }
      } else {
        r := r.(precision := 0);
      }
    }
  }

  lemma StarConsumed(width: Width, flags: FlagSet, all: seq<Arg>, r: Resolved, rest: seq<Arg>)
    requires ResolveWidth(Kernel, width, flags, all) == Some((r, rest))
    ensures ConsumeStars(StarsOf(width), all) == Effect("", [], rest)
  {
    if width == StarWidth {
      assert ConsumeStars(0, all[1..]) == Effect("", [], rest);
    }
  }

  lemma {:induction false} ConsumeOneMore(n: nat, all: seq<Arg>)
    ensures var before := ConsumeStars(n, all);
            ConsumeStars(n + 1, all) == if before.Effect? then ConsumeStars(1, before.rest) else Undefined
  {
    if n > 0 && all != [] {
      ConsumeOneMore(n - 1, all[1..]);
    }
  }

  /** A star in the precision has its argument. */
  lemma PrecisionStar(flags: FlagSet, width: Width, s: string, all: seq<Arg>, r: Resolved, rest: seq<Arg>)
    requires ResolveWidth(Kernel, width, flags, all) == Some((r, rest))
    requires Supplied(ReadPrecision(flags, width, s), all)
    requires |s| >= 2 && s[0] == '.' && s[1] == '*'
    ensures rest != [] && rest[0].Word32?
    ensures |s| == 2 ==> ConsumeStars(StarsOf(width) + 1, all) == Effect("", [], rest[1..])
  {
    StarConsumed(width, flags, all, r, rest);
    ConsumeOneMore(StarsOf(width), all);
    assert rest != [] && rest[0].Word32? ==> ConsumeStars(1, rest) == ConsumeStars(0, rest[1..]);
    hide ResolveWidth;
    if |s| > 2 {
      var reading := ReadLength(flags, width, StarPrecision, s[2..]);
      match reading
      case Truncated(stars) =>
      case Parsed(d, _) =>
        assert ResolvePrecision(Kernel, StarPrecision, r, rest).Some?;
    }
  }

  /** Evaluates the length field and stops at the conversion character. */
  method EvaluateLength(format: CString, start: nat, ghost flags: FlagSet, ghost width: Width, ghost precision: Precision)
    returns (more: bool, length: Length, i: nat)
    requires start <= |format|
    requires ReadLength(flags, width, precision, format[start..]) != Overrun
    ensures start <= i <= |format|
    ensures !more ==> ReadLength(flags, width, precision, format[start..]) == Truncated(AllStars(width, precision))
    ensures more ==> i < |format|
                     && ReadLength(flags, width, precision, format[start..])
                        == Parsed(Directive(flags, width, precision, length, format[i]), format[i + 1..])
  {
    ghost var s := format[start..];
    assert forall k :: 0 <= k <= |s| ==> s[k..] == format[start + k..];
    more, length, i := true, NoLength, start;
    match format[i] {
      case 'l' =>
        length, i := L, i + 1;
        if i < |format| && format[i] == 'l' {
          length, i := LL, i + 1;
        }
      case 'h' =>
        length, i := H, i + 1;
        if i < |format| && format[i] == 'h' {
          length, i := HH, i + 1;
        }
      case 't' => length, i := T, i + 1;
      case 'j' => length, i := J, i + 1;
      case 'z' => length, i := Z, i + 1;
      case _ =>
    }
    more := i < |format|;
  }

  // -------------------------------------------------------------- conversions

  /** Pads with spaces while l++ < width. */
  method PadTo(g: OutputGadget, used: nat, width: nat)
    requires g.Valid() && |g.log| + Max(0, width - used) <= g.budget
    modifies g, g.buffer
    ensures g.Valid() && g.log == old(g.log) + Repeat(' ', width - used)
  {
    hide Repeat;
    var l := used;
    while l < width
      invariant used <= l <= Max(used, width)
      invariant g.Valid() && g.log == old(g.log) + Repeat(' ', l - used)
    {
      l := l + 1;
      g.Putchar(' ');
    }
  }

  /** The value of an integer argument's type that is congruent to the word passed for it. */
  method IntegerArgument(length: Length, signed: bool, word: uint64) returns (value: int)
    ensures InRange(length, signed, value)
    ensures value % Modulus(length) == word % Modulus(length)
  {
    IntegerValueIs(length, signed, word, IntegerValue(length, signed, word));
    if signed {
      value := if IsLong(length) then Signed(word, TWO64)
               else if length == HH then Signed(word, 0x100)
               else if length == H then Signed(word, 0x1_0000)
               else Signed(word, TWO32);
    } else {
      value := if IsLong(length) then word % TWO64
               else if length == HH then word % 0x100
               else if length == H then word % 0x1_0000
               else word % TWO32;
    }
  }

  /** The base and the flags of an integer conversion. */
  method IntegerFormat(r: Resolved32, c: char) returns (base: nat, flags: Flags)
    requires IsInteger(c)
    ensures base == BaseOf(c) && flags == IntegerFlags(r, c)
  {
    flags := Flags(r.flags.zeroPad, r.flags.left, r.flags.plus, r.flags.space, r.flags.hash, false, r.hasPrecision, false);
    if c == 'x' || c == 'X' {
      base := 16;
    } else if c == 'o' {
      base := 8;
    } else if c == 'b' {
      base := 2;
    } else {
      base := 10;
      flags := flags.(hash := false);
    }
    if c == 'X' {
      flags := flags.(upper := true);
    }
    if r.hasPrecision {
      flags := flags.(zeroPad := false);
    }
    if !(c == 'd' || c == 'i') {
      flags := flags.(plus := false, space := false);
    }
  }

  method PrintInteger(g: OutputGadget, r: Resolved32, length: Length, c: char, word: uint64)
    requires g.Valid() && IsInteger(c)
    requires |g.log| + |Printed(IntegerField(r, length, c, word))| <= g.budget
    modifies g, g.buffer
    ensures g.Valid() && g.log == old(g.log) + Printed(IntegerField(r, length, c, word))
  {
    hide Printed, IntegerValue, IntegerFlags, BaseOf;
    var base, flags := IntegerFormat(r, c);
    var value := IntegerArgument(length, c == 'd' || c == 'i', word);
    IntegerValueIs(length, IsSigned(c), word, value);
    IntegerValueRange(length, IsSigned(c), word);
    var magnitude := if value > 0 then value else -value;
    PrintInt(g, IntField(magnitude, value < 0, base, r.precision, r.width, flags));
  }

  method PrintChar(g: OutputGadget, r: Resolved32, bits: uint32)
    requires g.Valid() && |g.log| + |CharText(r, bits)| <= g.budget
    modifies g, g.buffer
    ensures g.Valid() && g.log == old(g.log) + CharText(r, bits)
  {
    hide Repeat;
    var c := (bits % 0x100) as char;
    ghost var before, spaces := g.log, Repeat(' ', r.width - 1);
    if !r.flags.left {
      PadTo(g, 1, r.width);
      assert before + spaces + [c] == before + (spaces + [c]);
    }
    g.Putchar(c);
    if r.flags.left {
      PadTo(g, 1, r.width);
      assert before + [c] + spaces == before + ([c] + spaces);
    }
  }

  /** The length of s, at most size. */
  method StrnlenS(s: CString, size: nat) returns (l: nat)
    ensures l == Min(|s|, size)
  {
    l := 0;
    var rest := size;
    while l < |s| && rest > 0
      invariant l <= |s| && l + rest == size
    {
      rest := rest - 1;
      l := l + 1;
    }
  }

  /** Prints s, or its first `precision` characters when a precision is given. */
  method PutString(g: OutputGadget, s: CString, hasPrecision: bool, given: uint32)
    requires g.Valid()
    requires |g.log| + (if hasPrecision then Min(|s|, given) else |s|) <= g.budget
    modifies g, g.buffer
    ensures g.Valid() && g.log == old(g.log) + if hasPrecision then s[..Min(|s|, given)] else s
  {
    var p := 0;
    var precision: int := given;
    while p < |s| && (!hasPrecision || precision != 0)
      invariant 0 <= p <= |s|
      invariant hasPrecision ==> p <= given && precision == given - p
      invariant g.Valid() && g.log == old(g.log) + s[..p]
    {
      g.Putchar(s[p]);
      p := p + 1;
      precision := (precision - 1) % 0x1_0000_0000;
    }
    assert s[..|s|] == s;
  }

  lemma StringTextIs(r: Resolved, s: CString, text: string)
    requires text == if r.hasPrecision then s[..Min(|s|, r.precision)] else s
    ensures var spaces := Repeat(' ', r.width - |text|);
            StringText(r, s) == if r.flags.left then text + spaces else spaces + text
  {
  }

  method PrintString(g: OutputGadget, r: Resolved32, s: CString)
    requires g.Valid() && (r.hasPrecision || r.precision == 0)
    requires |g.log| + |StringText(r, s)| <= g.budget
    modifies g, g.buffer
    ensures g.Valid() && g.log == old(g.log) + StringText(r, s)
  {
    hide Repeat, StringText, Padded, OutputGadget.Valid;
    var l := StrnlenS(s, if r.precision != 0 then r.precision else INT_MAX);
    if r.hasPrecision {
      l := if l < r.precision then l else r.precision;
    }
    ghost var text := if r.hasPrecision then s[..Min(|s|, r.precision)] else s;
    StringTextIs(r, s, text);
    PutPadded(g, r, s, l, text);
  }

  /** The l characters of s that are shown, with the padding on the side the flags choose. */
  method PutPadded(g: OutputGadget, r: Resolved32, s: CString, l: nat, ghost text: string)
    requires g.Valid() && l == |text| && text == if r.hasPrecision then s[..Min(|s|, r.precision)] else s
    requires |g.log| + Max(r.width, l) <= g.budget
    modifies g, g.buffer
    ensures g.Valid()
    ensures var spaces := Repeat(' ', r.width - l);
            g.log == old(g.log) + if r.flags.left then text + spaces else spaces + text
  {
    hide Repeat, OutputGadget.Valid;
    ghost var before, spaces := g.log, Repeat(' ', r.width - l);
    if !r.flags.left {
      PadTo(g, l, r.width);
      assert before + spaces + text == before + (spaces + text);
    }
    PutString(g, s, r.hasPrecision, r.precision);
    if r.flags.left {
      PadTo(g, l, r.width);
      assert before + text + spaces == before + (text + spaces);
    }
  }

  /** What a defined conversion amounts to, one conversion character at a time. */
  lemma ConvertCases(r: Resolved, args: seq<Arg>, length: Length, c: char, pos: nat)
    requires Convert(Kernel, r, args, length, c, pos).Effect?
    ensures var e := Convert(Kernel, r, args, length, c, pos);
            if IsInteger(c) then
              args != [] && FitsInteger(length, args[0])
              && e == Effect(Printed(IntegerField(r, length, c, Word(args[0]))), [], args[1..])
            else if c == 'c' then args != [] && args[0].Word32? && e == Effect(CharText(r, args[0].bits), [], args[1..])
            else if c == 's' then
              args != [] && (args[0].NullStr? || args[0].Str?)
              && e == Effect(if args[0].NullStr? then NullText(r) else StringText(r, args[0].text), [], args[1..])
            else if c == 'p' then
              args != [] && args[0].Pointer? && e == Effect(Printed(AddressField(r, args[0].address)), [], args[1..])
            else if c == 'n' then
              args != [] && args[0].Dest? && e == Effect("", [WriteBack(args[0].id, Position(length, pos))], args[1..])
            else e == Effect([c], [], args)
  {
    hide Printed, IntegerField, AddressField, StringText, CharText, NullText, Position;
  }

  /** The conversion switch: prints one argument, or writes the position back. */
  method PrintConversion(g: OutputGadget, r: Resolved32, args: seq<Arg>, first: nat, length: Length, c: char)
    returns (a: nat, writes: seq<WriteBack>)
    requires g.Valid() && first <= |args| && (r.hasPrecision || r.precision == 0)
    requires Convert(Kernel, r, args[first..], length, c, g.pos).Effect?
    requires |g.log| + |Convert(Kernel, r, args[first..], length, c, g.pos).text| <= g.budget
    modifies g, g.buffer
    ensures g.Valid() && first <= a <= |args|
    ensures var e := Convert(Kernel, r, args[first..], length, c, old(g.pos));
            g.log == old(g.log) + e.text && writes == e.writes && args[a..] == e.rest
  {
    hide Convert, Printed, IntegerField, AddressField, StringText, CharText, NullText, Position;
    writes, a := [], first + 1;
    assert first < |args| ==> args[first..][1..] == args[a..];
    ConvertCases(r, args[first..], length, c, g.pos);
    if c == 'd' || c == 'i' || c == 'u' || c == 'x' || c == 'X' || c == 'o' || c == 'b' {
      PrintInteger(g, r, length, c, Word(args[first]));
    } else if c == 'c' {
      PrintChar(g, r, args[first].bits);
    } else if c == 's' {
      if args[first].NullStr? {
        PrintNull(g, r);
      } else {
        PrintString(g, r, args[first].text);
      }
    } else if c == 'p' {
      PrintInt(g, AddressField(r, args[first].address));
    } else if c == 'n' {
      writes := [WriteBack(args[first].id, Position(length, g.pos))];
    } else {
      g.Putchar(c);
      a := first;
    }
  }

  method PrintNull(g: OutputGadget, r: Resolved32)
    requires g.Valid() && |g.log| + |NullText(r)| <= g.budget
    modifies g, g.buffer
    ensures g.Valid() && g.log == old(g.log) + NullText(r)
  {
    hide Reversed;
    var flags := Flags(r.flags.zeroPad, r.flags.left, r.flags.plus, r.flags.space, r.flags.hash, false, r.hasPrecision, false);
    assert ")llun("[..6] == ")llun(";
    OutRev(g, ")llun(", 6, r.width, flags);
  }

  /** Everything behind a '%'; `more` is false when the format ends within the directive. */
  method FormatDirective(g: OutputGadget, format: CString, start: nat, args: seq<Arg>, first: nat)
    returns (more: bool, i: nat, a: nat, writes: seq<WriteBack>)
    requires g.Valid() && start <= |format| && first <= |args|
    requires Supplied(ReadDirective(format[start..]), args[first..])
    requires ReadDirective(format[start..]).Parsed? ==>
               var e := Expand(Kernel, ReadDirective(format[start..]).directive, args[first..], g.pos);
               e.Effect? && |g.log| + |e.text| <= g.budget
    modifies g, g.buffer
    ensures g.Valid() && start <= i <= |format| && first <= a <= |args|
    ensures !more ==> g.log == old(g.log) && writes == [] && ReadDirective(format[start..]).Truncated?
                      && ConsumeStars(ReadDirective(format[start..]).stars, args[first..]) == Effect("", [], args[a..])
    ensures more ==> var reading := ReadDirective(format[start..]);
                     && reading.Parsed? && reading.rest == format[i..]
                     && var e := Expand(Kernel, reading.directive, args[first..], old(g.pos));
                        g.log == old(g.log) + e.text && writes == e.writes && args[a..] == e.rest
  {
    hide ReadWidth, ReadPrecision, ReadLength, FlagRun, FlagsIn, Convert, ResolveWidth, ResolvePrecision, ConsumeStars,
      Expand, OutputGadget.Valid;
    i, a, writes := start, first, [];
    if i == |format| {
      more := false;
      assert ConsumeStars(0, args[first..]) == Effect("", [], args[first..]) by { ConsumeNone(args[first..]); }
      return;
    }
    var flags;
    flags, i := ParseFlags(format, i);
    assert format[start..][..i - start] == format[start..i] && format[start..][i - start..] == format[i..];
    var r, length;
    ghost var width, precision;
    more, r, i, a, width := EvaluateWidth(format, i, args, a, flags);
    if !more {
      return;
    }
    more, r, i, a, precision := EvaluatePrecision(format, i, args, a, r, flags, width, args[first..]);
    if !more {
      return;
    }
    ghost var conversion := ReadLength(flags, width, precision, format[i..]);
    assert ReadDirective(format[start..]) == conversion;
    more, length, i := EvaluateLength(format, i, flags, width, precision);
    if !more {
      AllStarsConsumed(conversion, flags, width, precision, args[first..], r, args[a..]);
      return;
    }
    PrecisionOrZero(flags, width, precision, args[first..]);
    KernelExpands(Directive(flags, width, precision, length, format[i]), args[first..], g.pos);
    a, writes := PrintConversion(g, r, args, a, length, format[i]);
    i := i + 1;
  }

  lemma KernelExpands(d: Directive, args: seq<Arg>, pos: nat)
    ensures Expand(Kernel, d, args, pos)
            == match Resolve(Kernel, d, args)
               case None => Undefined
               case Some((r, rest)) => Convert(Kernel, r, rest, d.length, d.conversion, pos)
  {
    hide Convert, Resolve;
  }

  lemma ConsumeNone(args: seq<Arg>)
    ensures ConsumeStars(0, args) == Effect("", [], args)
  {
  }

  lemma AllStarsConsumed(reading: Reading, flags: FlagSet, width: Width, precision: Precision, all: seq<Arg>,
                         r: Resolved, rest: seq<Arg>)
    requires reading == Truncated(AllStars(width, precision))
    requires Resolve(Kernel, Directive(flags, width, precision, NoLength, 'd'), all) == Some((r, rest))
    ensures ConsumeStars(reading.stars, all) == Effect("", [], rest)
  {
    var (w, middle) := ResolveWidth(Kernel, width, flags, all).value;
    StarConsumed(width, flags, all, w, middle);
    if precision == StarPrecision {
      ConsumeOneMore(StarsOf(width), all);
      assert ConsumeStars(1, middle) == ConsumeStars(0, middle[1..]);
    }
  }

  lemma PrecisionOrZero(flags: FlagSet, width: Width, precision: Precision, args: seq<Arg>)
    ensures var d := Directive(flags, width, precision, NoLength, 'd');
            Resolve(Kernel, d, args).Some? ==> var r := Resolve(Kernel, d, args).value.0; r.hasPrecision || r.precision == 0
  {
  }

  // ------------------------------------------------------------ whole formats

  /** The run `all` has printed `text` and collected `writes`, and has `format` and `args` to go. */
  ghost predicate Reached(all: Effect, text: string, writes: seq<WriteBack>, format: string, args: seq<Arg>, pos: nat) {
    all.Effect? && all == Then(Effect(text, writes, []), Run(Kernel, format, args, pos))
  }

  lemma AtStart(format: string, args: seq<Arg>, pos: nat)
    requires Run(Kernel, format, args, pos).Effect?
    ensures Reached(Run(Kernel, format, args, pos), "", [], format, args, pos)
  {
    hide Run;
    var all := Run(Kernel, format, args, pos);
    assert "" + all.text == all.text && [] + all.writes == all.writes;
  }

  lemma AtEnd(all: Effect, text: string, writes: seq<WriteBack>, args: seq<Arg>, pos: nat)
    requires Reached(all, text, writes, "", args, pos)
    ensures all.text == text && all.writes == writes
  {
    RunEmpty(Kernel, args, pos);
  }

  lemma NextCharacter(all: Effect, text: string, writes: seq<WriteBack>, format: string, args: seq<Arg>, pos: nat)
    requires Reached(all, text, writes, format, args, pos) && format != "" && format[0] != '%'
    ensures |text| < |all.text|
    ensures Reached(all, text + [format[0]], writes, format[1..], args, pos + 1)
  {
    hide Run;
    RunCharacter(Kernel, format, args, pos);
    ThenAssociates(Effect(text, writes, []), Effect([format[0]], [], args), Run(Kernel, format[1..], args, pos + 1));
    assert writes + [] == writes;
  }

  lemma NextDirective(all: Effect, text: string, writes: seq<WriteBack>, format: string, args: seq<Arg>, pos: nat)
    requires Reached(all, text, writes, format, args, pos) && format != "" && format[0] == '%'
    requires ReadDirective(format[1..]).Parsed?
    ensures var Parsed(d, rest) := ReadDirective(format[1..]);
            var step := Expand(Kernel, d, args, pos);
            && step.Effect? && |text| + |step.text| <= |all.text|
            && Reached(all, text + step.text, writes + step.writes, rest, step.rest, pos + |step.text|)
  {
    hide Run, Expand, ReadDirective;
    RunDirective(Kernel, format, args, pos);
    var Parsed(d, rest) := ReadDirective(format[1..]);
    var step := Expand(Kernel, d, args, pos);
    ThenAssociates(Effect(text, writes, []), step, Run(Kernel, rest, step.rest, pos + |step.text|));
  }

  lemma NextTruncated(all: Effect, text: string, writes: seq<WriteBack>, format: string, args: seq<Arg>, pos: nat)
    requires Reached(all, text, writes, format, args, pos) && format != "" && format[0] == '%'
    requires !ReadDirective(format[1..]).Parsed?
    ensures ReadDirective(format[1..]).Truncated? && all.text == text && all.writes == writes
    ensures ConsumeStars(ReadDirective(format[1..]).stars, args).Effect?
  {
    hide ReadDirective;
    match ReadDirective(format[1..])
    case Truncated(stars) => StarsAreSilent(stars, args);
    case Overrun =>
  }

  lemma ExpandResolves(d: Directive, args: seq<Arg>, pos: nat)
    requires Expand(Kernel, d, args, pos).Effect?
    ensures Resolve(Kernel, d, args).Some?
  {
  }

  lemma NextSupplied(all: Effect, text: string, writes: seq<WriteBack>, format: string, args: seq<Arg>, pos: nat)
    requires Reached(all, text, writes, format, args, pos) && format != "" && format[0] == '%'
    ensures Supplied(ReadDirective(format[1..]), args)
  {
    hide ReadDirective, Run, Expand, Reached;
    var reading := ReadDirective(format[1..]);
    if reading.Parsed? {
      NextDirective(all, text, writes, format, args, pos);
      ExpandResolves(reading.directive, args, pos);
    } else {
      NextTruncated(all, text, writes, format, args, pos);
    }
  }

  lemma {:induction false} StarsAreSilent(stars: nat, args: seq<Arg>)
    ensures var e := ConsumeStars(stars, args); e.Effect? ==> e.text == "" && e.writes == []
  {
    if stars > 0 && args != [] {
      StarsAreSilent(stars - 1, args[1..]);
    }
  }

  /** One directive of the run `all`, of which `printed` and `before` are done. */
  method NextField(g: OutputGadget, format: CString, start: nat, args: seq<Arg>, first: nat, before: seq<WriteBack>,
                   ghost all: Effect, ghost printed: string)
    returns (more: bool, i: nat, a: nat, writes: seq<WriteBack>, ghost text: string)
    requires g.Valid() && start < |format| && format[start] == '%' && first <= |args|
    requires Reached(all, printed, before, format[start..], args[first..], g.pos)
    requires |g.log| + |all.text| <= g.budget + |printed|
    modifies g, g.buffer
    ensures g.Valid() && start < i <= |format| && a <= |args| && g.log == old(g.log) + text
    ensures more ==> Reached(all, printed + text, writes, format[i..], args[a..], g.pos)
    ensures !more ==> all.text == printed + text && all.writes == writes
  {
    hide Run, Expand, ReadDirective, Reached, Supplied, ConsumeStars;
    ghost var rest, given, pos := format[start..], args[first..], g.pos;
    assert rest[1..] == format[start + 1..];
    NextSupplied(all, printed, before, rest, given, pos);
    if ReadDirective(rest[1..]).Parsed? {
      NextDirective(all, printed, before, rest, given, pos);
      text := Expand(Kernel, ReadDirective(rest[1..]).directive, given, pos).text;
    } else {
      NextTruncated(all, printed, before, rest, given, pos);
      text := "";
    }
    more, i, a, writes := FormatDirective(g, format, start + 1, args, first);
    writes := before + writes;
  }

  /** Prints the whole format; `writes` lists the `%n` write-backs in order. */
  method FormatStringLoop(g: OutputGadget, format: CString, args: seq<Arg>) returns (writes: seq<WriteBack>)
    requires g.Valid()
    requires Run(Kernel, format, args, g.pos).Effect?
    requires |g.log| + |Run(Kernel, format, args, g.pos).text| <= g.budget
    modifies g, g.buffer
    ensures g.Valid()
    ensures var e := Run(Kernel, format, args, old(g.pos));
            g.log == old(g.log) + e.text && writes == e.writes
  {
    hide Run, Reached, OutputGadget.Valid;
    ghost var all, printed := Run(Kernel, format, args, g.pos), "";
    var i, a := 0, 0;
    writes := [];
    assert format[0..] == format && args[0..] == args;
    AtStart(format, args, g.pos);
    while i < |format|
      invariant 0 <= i <= |format| && 0 <= a <= |args|
      invariant g.Valid() && g.log == old(g.log) + printed
      invariant Reached(all, printed, writes, format[i..], args[a..], g.pos)
      decreases |format| - i
    {
      if format[i] != '%' {
        NextCharacter(all, printed, writes, format[i..], args[a..], g.pos);
        assert format[i..][1..] == format[i + 1..];
        g.Putchar(format[i]);
        printed := printed + [format[i]];
        i := i + 1;
      } else {
        var more;
        ghost var text;
        more, i, a, writes, text := NextField(g, format, i, args, a, writes, all, printed);
        printed := printed + text;
        if !more {
          return;
        }
      }
    }
    assert format[i..] == "";
    AtEnd(all, printed, writes, args[a..], g.pos);
  }

  /** Formats into the gadget, terminates its buffer, and returns the number of characters. */
  method VsnprintfImpl(g: OutputGadget, format: CString, args: seq<Arg>) returns (count: nat, writes: seq<WriteBack>)
    requires g.Valid() && g.log == ""
    requires Run(Kernel, format, args, 0).Effect? && |Run(Kernel, format, args, 0).text| <= g.budget
    modifies g, g.buffer
    ensures var e := Run(Kernel, format, args, 0); count == |e.text| && writes == e.writes
    ensures g.toFunction ==> g.sent == Run(Kernel, format, args, 0).text
    ensures g.buffer != null && g.maxChars > 0 ==>
              var text := Run(Kernel, format, args, 0).text;
              var end := Min(|text|, g.maxChars - 1);
              g.buffer[..] == text[..end] + ['\0'] + g.before[end + 1..]
    ensures g.buffer != null && g.maxChars == 0 ==> g.buffer[..] == g.before
  {
    hide Run;
    ghost var text := Run(Kernel, format, args, 0).text;
    assert "" + text == text;
    writes := FormatStringLoop(g, format, args);
    g.AppendTerm();
    count := g.pos;
  }

  /**
   snprintf into s, which has room for the text and its terminator or for n
   characters, whichever is less. The text is cut off at n - 1 characters, one
   NUL follows, nothing behind it changes, and the count is that of the whole
   text, whatever n is.
   */
  method Vsnprintf(s: array?<char>, n: nat, format: CString, args: seq<Arg>) returns (count: nat, writes: seq<WriteBack>)
    requires var e := Run(Kernel, format, args, 0);
             e.Effect? && |e.text| <= INT_MAX && (s != null ==> Min(Min(n, INT_MAX), |e.text| + 1) <= s.Length)
    modifies s
    ensures var e := Run(Kernel, format, args, 0); count == |e.text| && writes == e.writes
    ensures s != null && n > 0 ==>
              var text := Run(Kernel, format, args, 0).text;
              var end := Min(|text|, Min(n, INT_MAX) - 1);
              s[..] == text[..end] + ['\0'] + old(s[..])[end + 1..]
    ensures s != null && n == 0 ==> s[..] == old(s[..])
  {
    hide Run;
    var g := new OutputGadget.ForBuffer(s, n, |Run(Kernel, format, args, 0).text|);
    count, writes := VsnprintfImpl(g, format, args);
  }

  /** vprintf: every character of the text goes to the output function, in order. */
  method Vprintf(format: CString, args: seq<Arg>) returns (sent: string, count: nat, writes: seq<WriteBack>)
    requires Run(Kernel, format, args, 0).Effect? && |Run(Kernel, format, args, 0).text| <= INT_MAX
    ensures var e := Run(Kernel, format, args, 0); sent == e.text && count == |e.text| && writes == e.writes
  {
    hide Run;
    var g := new OutputGadget.ForFunction(|Run(Kernel, format, args, 0).text|);
    count, writes := VsnprintfImpl(g, format, args);
    sent := g.sent;
  }
}
