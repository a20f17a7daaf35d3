/** Laws of format runs, for every format string and argument list. */
module FormatLaws {
  import opened CTypes
  import opened Numerals
  import opened IntegerSpec
  import opened IntegerLaws
  import opened FormatSpec

  // ------------------------------------------------- reading is prefix-stable

  lemma {:induction false} FlagRunExtends(s: string, t: string)
    requires FlagRun(s) < |s|
    ensures FlagRun(s + t) == FlagRun(s)
  {
    assert (s + t)[1..] == s[1..] + t;
    if IsFlag(s[0]) {
      FlagRunExtends(s[1..], t);
    }
  }

  lemma {:induction false} DigitRunExtends(s: string, t: string)
    requires DigitRun(s) < |s|
    ensures DigitRun(s + t) == DigitRun(s)
  {
    assert (s + t)[1..] == s[1..] + t;
    if IsDigit(s[0]) {
      DigitRunExtends(s[1..], t);
    }
  }

  /** The reading r with t behind it. */
  ghost function Extended(r: Reading, t: string): Reading {
    if r.Parsed? then r.(rest := r.rest + t) else r
  }

  lemma LengthExtends(flags: FlagSet, width: Width, precision: Precision, s: string, t: string)
    requires ReadLength(flags, width, precision, s).Parsed?
    ensures ReadLength(flags, width, precision, s + t) == Extended(ReadLength(flags, width, precision, s), t)
  {
    assert (s + t)[1..] == s[1..] + t;
    if |s| > 1 {
      assert (s + t)[2..] == s[2..] + t;
    }
    if |s| > 2 {
      assert (s + t)[3..] == s[3..] + t;
    }
  }

  lemma PrecisionExtends(flags: FlagSet, width: Width, s: string, t: string)
    requires ReadPrecision(flags, width, s).Parsed?
    ensures ReadPrecision(flags, width, s + t) == Extended(ReadPrecision(flags, width, s), t)
  {
    hide ReadLength, DigitRun, DecimalNumber;
    if s == "" || s[0] != '.' {
      assert s != "" by { NotEmpty(flags, width, s); }
      LengthExtends(flags, width, NoPrecision, s, t);
    } else {
      var u := s[1..];
      assert (s + t)[1..] == u + t;
      if IsDigit(u[0]) {
        var k := DigitRun(u);
        var p := Precision(DecimalNumber(u[..k]));
        assert k < |u| by { NotEmptyLength(flags, width, p, u[k..]); }
        DigitRunExtends(u, t);
        assert (u + t)[..k] == u[..k] && (u + t)[k..] == u[k..] + t;
        LengthExtends(flags, width, p, u[k..], t);
      } else if u[0] == '*' {
        assert (s + t)[2..] == s[2..] + t;
        LengthExtends(flags, width, StarPrecision, s[2..], t);
      } else {
        LengthExtends(flags, width, Precision(0), u, t);
      }
    }
  }

  lemma NotEmptyLength(flags: FlagSet, width: Width, precision: Precision, s: string)
    requires ReadLength(flags, width, precision, s).Parsed?
    ensures s != ""
  {
  }

  lemma NotEmpty(flags: FlagSet, width: Width, s: string)
    requires ReadPrecision(flags, width, s).Parsed?
    ensures s != ""
  {
  }

  lemma WidthExtends(flags: FlagSet, s: string, t: string)
    requires ReadWidth(flags, s).Parsed?
    ensures ReadWidth(flags, s + t) == Extended(ReadWidth(flags, s), t)
  {
    hide ReadPrecision, DigitRun, DecimalNumber;
    if s != "" && IsDigit(s[0]) {
      var k := DigitRun(s);
      var w := Width(DecimalNumber(s[..k]));
      assert k < |s| by { NotEmpty(flags, w, s[k..]); }
      DigitRunExtends(s, t);
      assert (s + t)[..k] == s[..k] && (s + t)[k..] == s[k..] + t;
      PrecisionExtends(flags, w, s[k..], t);
    } else if s != "" && s[0] == '*' {
      assert (s + t)[1..] == s[1..] + t;
      PrecisionExtends(flags, StarWidth, s[1..], t);
    } else {
      assert s != "" by { NotEmpty(flags, NoWidth, s); }
      PrecisionExtends(flags, NoWidth, s, t);
    }
  }

  /** A directive that is complete within s is read the same whatever follows s. */
  lemma DirectiveExtends(s: string, t: string)
    requires ReadDirective(s).Parsed?
    ensures ReadDirective(s + t) == Extended(ReadDirective(s), t)
  {
    hide ReadWidth, FlagRun;
    var k := FlagRun(s);
    assert k < |s| by { NotEmptyWidth(FlagsIn(s[..k]), s[k..]); }
    FlagRunExtends(s, t);
    assert (s + t)[..k] == s[..k] && (s + t)[k..] == s[k..] + t;
    WidthExtends(FlagsIn(s[..k]), s[k..], t);
  }

  lemma NotEmptyWidth(flags: FlagSet, s: string)
    requires ReadWidth(flags, s).Parsed?
    ensures s != ""
  {
  }

  // ----------------------------------------------------------- homomorphism

  /** Every directive of the format is complete. */
  ghost predicate WellFormed(format: string)
    decreases |format|
  {
    format == ""
    || (format[0] != '%' && WellFormed(format[1..]))
    || (format[0] == '%' && ReadDirective(format[1..]).Parsed? && WellFormed(ReadDirective(format[1..]).rest))
  }

  lemma ThenEmpty(e: Effect, args: seq<Arg>)
    ensures Then(Effect("", [], args), e) == e
  {
    if e.Effect? {
      assert "" + e.text == e.text && [] + e.writes == e.writes;
    }
  }

  /** Running first, then whatever k gives for the position and arguments first leaves. */
  ghost function Continued(p: Printer, first: Effect, f2: string, pos: nat): Effect {
    if first.Undefined? then Undefined else Then(first, Run(p, f2, first.rest, pos + |first.text|))
  }

  lemma ContinuedAfter(p: Printer, step: Effect, later: Effect, f2: string, pos: nat)
    requires step.Effect?
    ensures Then(step, Continued(p, later, f2, pos + |step.text|)) == Continued(p, Then(step, later), f2, pos)
  {
    hide Run;
    if later.Effect? {
      ThenAssociates(step, later, Run(p, f2, later.rest, pos + |step.text| + |later.text|));
    }
  }

  /** Running f1 + f2 is running f1, then f2 from where f1 stopped. */
  lemma {:induction false} RunConcat(p: Printer, f1: string, f2: string, args: seq<Arg>, pos: nat)
    requires WellFormed(f1)
    ensures Run(p, f1 + f2, args, pos) == Continued(p, Run(p, f1, args, pos), f2, pos)
    decreases |f1|
  {
    hide Run, Expand, ReadDirective;
    if f1 == "" {
      assert f1 + f2 == f2;
      RunEmpty(p, args, pos);
      ThenEmpty(Run(p, f2, args, pos), args);
    } else if f1[0] != '%' {
      assert (f1 + f2)[1..] == f1[1..] + f2;
      RunCharacter(p, f1, args, pos);
      RunCharacter(p, f1 + f2, args, pos);
      RunConcat(p, f1[1..], f2, args, pos + 1);
      ContinuedAfter(p, Effect([f1[0]], [], args), Run(p, f1[1..], args, pos + 1), f2, pos);
    } else {
      var Parsed(d, rest) := ReadDirective(f1[1..]);
      assert (f1 + f2)[1..] == f1[1..] + f2;
      DirectiveExtends(f1[1..], f2);
      RunDirective(p, f1, args, pos);
      RunDirective(p, f1 + f2, args, pos);
      var step := Expand(p, d, args, pos);
      if step.Effect? {
        RunConcat(p, rest, f2, step.rest, pos + |step.text|);
        ContinuedAfter(p, step, Run(p, rest, step.rest, pos + |step.text|), f2, pos);
      }
    }
  }

  /** The effect e with arguments more left over. */
  ghost function WithRest(e: Effect, more: seq<Arg>): Effect {
    if e.Effect? then e.(rest := e.rest + more) else e
  }

  lemma ResolveMoreArgs(p: Printer, d: Directive, args: seq<Arg>, more: seq<Arg>)
    requires Resolve(p, d, args).Some?
    ensures var (r, rest) := Resolve(p, d, args).value; Resolve(p, d, args + more) == Some((r, rest + more))
  {
    assert args != [] ==> (args + more)[1..] == args[1..] + more;
    var (w, rest) := ResolveWidth(p, d.width, d.flags, args).value;
    assert ResolveWidth(p, d.width, d.flags, args + more) == Some((w, rest + more));
    assert rest != [] ==> (rest + more)[1..] == rest[1..] + more;
  }

  /** The printers differ in the numbers, not in the arguments that are left. */
  lemma ResolvedRest(p: Printer, d: Directive, args: seq<Arg>)
    ensures Resolve(p, d, args).Some? == Resolve(Kernel, d, args).Some?
    ensures Resolve(p, d, args).Some? ==> Resolve(p, d, args).value.1 == Resolve(Kernel, d, args).value.1
  {
  }

  lemma ExpandMoreArgs(p: Printer, d: Directive, args: seq<Arg>, more: seq<Arg>, pos: nat)
    requires Expand(p, d, args, pos).Effect?
    ensures Expand(p, d, args + more, pos) == WithRest(Expand(p, d, args, pos), more)
  {
    hide Convert, Resolve;
    ResolvedRest(p, d, args);
    ResolveMoreArgs(Kernel, d, args, more);
    ResolveMoreArgs(p, d, args, more);
    var (r, rest) := Resolve(if LeftOpen(d, args) then Kernel else p, d, args).value;
    ConvertMoreArgs(p, r, rest, more, d.length, d.conversion, pos);
    if d.conversion == 's' {
      StringArgument(p, r, rest, d.length, pos);
    }
  }

  lemma StringArgument(p: Printer, r: Resolved, args: seq<Arg>, length: Length, pos: nat)
    requires Convert(p, r, args, length, 's', pos).Effect?
    ensures args != []
  {
  }

  lemma ConvertMoreArgs(p: Printer, r: Resolved, args: seq<Arg>, more: seq<Arg>, length: Length, c: char, pos: nat)
    requires Convert(p, r, args, length, c, pos).Effect?
    ensures Convert(p, r, args + more, length, c, pos) == WithRest(Convert(p, r, args, length, c, pos), more)
  {
    hide IntegerText, IntegerField, AddressField, StringText, NullText, CharacterText, IsInteger, FitsInteger, Word,
      Position, Printed;
    if args != [] {
      assert (args + more)[0] == args[0] && (args + more)[1..] == args[1..] + more;
    }
  }

  lemma {:induction false} StarsMoreArgs(stars: nat, args: seq<Arg>, more: seq<Arg>)
    requires ConsumeStars(stars, args).Effect?
    ensures ConsumeStars(stars, args + more) == WithRest(ConsumeStars(stars, args), more)
  {
    if stars > 0 {
      assert (args + more)[1..] == args[1..] + more;
      StarsMoreArgs(stars - 1, args[1..], more);
    }
  }

  /** A defined run leaves further arguments alone. */
  lemma {:induction false} RunMoreArgs(p: Printer, format: string, args: seq<Arg>, more: seq<Arg>, pos: nat)
    requires Run(p, format, args, pos).Effect?
    ensures Run(p, format, args + more, pos) == WithRest(Run(p, format, args, pos), more)
    decreases |format|
  {
    hide Run, Expand, ReadDirective;
    if format == "" {
      RunEmpty(p, args, pos);
      RunEmpty(p, args + more, pos);
    } else if format[0] != '%' {
      RunCharacter(p, format, args, pos);
      RunCharacter(p, format, args + more, pos);
      RunMoreArgs(p, format[1..], args, more, pos + 1);
    } else {
      RunDirectiveMoreArgs(p, format, args, more, pos);
    }
  }

  lemma {:induction false} RunDirectiveMoreArgs(p: Printer, format: string, args: seq<Arg>, more: seq<Arg>, pos: nat)
    requires format != "" && format[0] == '%' && Run(p, format, args, pos).Effect?
    ensures Run(p, format, args + more, pos) == WithRest(Run(p, format, args, pos), more)
    decreases |format|, 0
  {
    hide Expand, ReadDirective;
    match ReadDirective(format[1..])
    case Truncated(stars) => StarsMoreArgs(stars, args, more);
    case Parsed(d, rest) =>
      ExpandMoreArgs(p, d, args, more, pos);
      var step := Expand(p, d, args, pos);
      RunMoreArgs(p, rest, step.rest, more, pos + |step.text|);
  }

  /** Formatting is a homomorphism: joined formats on joined arguments give joined effects. */
  lemma JoinedRuns(p: Printer, f1: string, a1: seq<Arg>, f2: string, a2: seq<Arg>, pos: nat)
    requires WellFormed(f1) && Run(p, f1, a1, pos).Effect? && Run(p, f1, a1, pos).rest == []
    ensures var first := Run(p, f1, a1, pos);
            Run(p, f1 + f2, a1 + a2, pos) == Then(first, Run(p, f2, a2, pos + |first.text|))
  {
    hide Run, WellFormed;
    RunMoreArgs(p, f1, a1, a2, pos);
    RunConcat(p, f1, f2, a1 + a2, pos);
    assert [] + a2 == a2;
  }

  // ------------------------------------------------- formats that end early

  /** Some directive of the format makes the loop step past the terminating NUL. */
  ghost predicate Oversteps(format: string)
    decreases |format|
  {
    format != ""
    && if format[0] != '%' then Oversteps(format[1..])
       else match ReadDirective(format[1..])
         case Truncated(_) => false
         case Overrun => true
         case Parsed(_, rest) => Oversteps(rest)
  }

  predicate EndsInFlagOrDigit(s: string) {
    s != "" && (IsFlag(s[|s| - 1]) || IsDigit(s[|s| - 1]))
  }

  lemma LengthOverrun(flags: FlagSet, width: Width, precision: Precision, s: string)
    requires ReadLength(flags, width, precision, s) == Overrun
    ensures s == ""
  {
  }

  lemma PrecisionOverrun(flags: FlagSet, width: Width, s: string)
    requires ReadPrecision(flags, width, s) == Overrun
    ensures s == "" || EndsInFlagOrDigit(s)
  {
    hide DecimalNumber, ReadLength, DigitRun;
    if s == "" || s[0] != '.' {
      LengthOverrun(flags, width, NoPrecision, s);
    } else if |s| > 1 && IsDigit(s[1]) {
      var k := DigitRun(s[1..]);
      LengthOverrun(flags, width, Precision(DecimalNumber(s[1..][..k])), s[1..][k..]);
      assert s[1..][|s| - 2] == s[|s| - 1];
    } else if |s| > 2 && s[1] == '*' {
      LengthOverrun(flags, width, StarPrecision, s[2..]);
    } else if |s| > 1 && s[1] != '*' {
      LengthOverrun(flags, width, Precision(0), s[1..]);
    }
  }

  lemma WidthOverrun(flags: FlagSet, s: string)
    requires ReadWidth(flags, s) == Overrun
    ensures s == "" || EndsInFlagOrDigit(s)
  {
    hide DecimalNumber, ReadPrecision;
    if s != "" && IsDigit(s[0]) {
      var k := DigitRun(s);
      PrecisionOverrun(flags, Width(DecimalNumber(s[..k])), s[k..]);
    } else if s != "" && s[0] == '*' {
      PrecisionOverrun(flags, StarWidth, s[1..]);
    } else {
      PrecisionOverrun(flags, NoWidth, s);
    }
  }

  lemma DirectiveOverrun(s: string)
    requires ReadDirective(s) == Overrun
    ensures EndsInFlagOrDigit(s)
  {
    hide ReadWidth;
    var k := FlagRun(s);
    WidthOverrun(FlagsIn(s[..k]), s[k..]);
  }

  ghost predicate IsSuffix(rest: string, s: string) {
    |rest| <= |s| && rest == s[|s| - |rest|..]
  }

  lemma SuffixOfDrop(rest: string, s: string, k: nat)
    requires k <= |s| && IsSuffix(rest, s[k..])
    ensures IsSuffix(rest, s)
  {
  }

  lemma LengthSuffix(flags: FlagSet, width: Width, precision: Precision, s: string)
    requires ReadLength(flags, width, precision, s).Parsed?
    ensures IsSuffix(ReadLength(flags, width, precision, s).rest, s)
  {
  }

  lemma PrecisionSuffix(flags: FlagSet, width: Width, s: string)
    requires ReadPrecision(flags, width, s).Parsed?
    ensures IsSuffix(ReadPrecision(flags, width, s).rest, s)
  {
    hide ReadLength, IsSuffix, DecimalNumber;
    var rest := ReadPrecision(flags, width, s).rest;
    if s == "" || s[0] != '.' {
      LengthSuffix(flags, width, NoPrecision, s);
    } else if IsDigit(s[1]) {
      var k := DigitRun(s[1..]);
      LengthSuffix(flags, width, Precision(DecimalNumber(s[1..][..k])), s[1..][k..]);
      SuffixOfDrop(rest, s[1..], k);
      SuffixOfDrop(rest, s, 1);
    } else if s[1] == '*' {
      LengthSuffix(flags, width, StarPrecision, s[2..]);
      SuffixOfDrop(rest, s, 2);
    } else {
      LengthSuffix(flags, width, Precision(0), s[1..]);
      SuffixOfDrop(rest, s, 1);
    }
  }

  lemma WidthSuffix(flags: FlagSet, s: string)
    requires ReadWidth(flags, s).Parsed?
    ensures IsSuffix(ReadWidth(flags, s).rest, s)
  {
    hide ReadPrecision, IsSuffix, DecimalNumber;
    var rest := ReadWidth(flags, s).rest;
    if s != "" && IsDigit(s[0]) {
      var k := DigitRun(s);
      PrecisionSuffix(flags, Width(DecimalNumber(s[..k])), s[k..]);
      SuffixOfDrop(rest, s, k);
    } else if s != "" && s[0] == '*' {
      PrecisionSuffix(flags, StarWidth, s[1..]);
      SuffixOfDrop(rest, s, 1);
    } else {
      PrecisionSuffix(flags, NoWidth, s);
    }
  }

  /** What follows a directive is a proper suffix of the format. */
  lemma DirectiveSuffix(s: string)
    requires ReadDirective(s).Parsed?
    ensures |ReadDirective(s).rest| < |s| && IsSuffix(ReadDirective(s).rest, s)
  {
    hide ReadWidth, IsSuffix;
    var k := FlagRun(s);
    WidthSuffix(FlagsIn(s[..k]), s[k..]);
    SuffixOfDrop(ReadDirective(s).rest, s, k);
  }

  // A reading that stops where the code checks for the end stops behind a
  // star, a dot, a length modifier or the '%' itself.

  lemma LengthTruncated(flags: FlagSet, width: Width, precision: Precision, s: string)
    requires ReadLength(flags, width, precision, s).Truncated?
    ensures !EndsInFlagOrDigit(s)
  {
  }

  lemma PrecisionTruncated(flags: FlagSet, width: Width, s: string)
    requires ReadPrecision(flags, width, s).Truncated?
    ensures !EndsInFlagOrDigit(s)
  {
    hide ReadLength, DecimalNumber;
    if s == "" || s[0] != '.' {
      LengthTruncated(flags, width, NoPrecision, s);
    } else if |s| > 1 && IsDigit(s[1]) {
      var k := DigitRun(s[1..]);
      LengthTruncated(flags, width, Precision(DecimalNumber(s[1..][..k])), s[1..][k..]);
      NotEmptyTruncated(flags, width, Precision(DecimalNumber(s[1..][..k])), s[1..][k..]);
    } else if |s| > 2 && s[1] == '*' {
      LengthTruncated(flags, width, StarPrecision, s[2..]);
    } else if |s| > 1 && s[1] != '*' {
      LengthTruncated(flags, width, Precision(0), s[1..]);
    }
  }

  lemma NotEmptyTruncated(flags: FlagSet, width: Width, precision: Precision, s: string)
    requires ReadLength(flags, width, precision, s).Truncated?
    ensures s != ""
  {
  }

  lemma WidthTruncated(flags: FlagSet, s: string)
    requires ReadWidth(flags, s).Truncated?
    ensures s != "" && !EndsInFlagOrDigit(s)
  {
    hide DecimalNumber, DigitRun;
    if s != "" && IsDigit(s[0]) {
      var k := DigitRun(s);
      PrecisionTruncated(flags, Width(DecimalNumber(s[..k])), s[k..]);
    } else if |s| > 1 && s[0] == '*' {
      PrecisionTruncated(flags, StarWidth, s[1..]);
    } else if s == "" || s[0] != '*' {
      PrecisionTruncated(flags, NoWidth, s);
    }
  }

  lemma DirectiveTruncated(s: string)
    requires ReadDirective(s).Truncated?
    ensures !EndsInFlagOrDigit(s)
  {
    hide ReadWidth;
    if s != "" {
      var k := FlagRun(s);
      WidthTruncated(FlagsIn(s[..k]), s[k..]);
    }
  }

  /** The end of a format is the end of what follows a directive in it, if anything does. */
  lemma SameEnd(format: string, rest: string)
    requires rest != "" && IsSuffix(rest, format)
    ensures EndsInFlagOrDigit(format) <==> EndsInFlagOrDigit(rest)
  {
  }

  /**
   The loop steps past the NUL of a format if and only if some directive in it
   is incomplete and the format ends in a flag character or a digit. (So "5"
   and "id 0" are safe, and so is "%l".)
   */
  lemma {:induction false} OverstepsExactly(format: string)
    ensures Oversteps(format) <==> !WellFormed(format) && EndsInFlagOrDigit(format)
    decreases |format|
  {
    hide ReadDirective;
    if format != "" {
      var s := format[1..];
      if s != "" {
        SameEnd(format, s);
      }
      if format[0] != '%' {
        OverstepsExactly(s);
      } else {
        match ReadDirective(s)
        case Truncated(_) => DirectiveTruncated(s);
        case Overrun => DirectiveOverrun(s);
        case Parsed(_, rest) =>
          DirectiveSuffix(s);
          OverstepsExactly(rest);
          if rest != "" {
            SameEnd(s, rest);
          }
      }
    }
  }

  /** Whatever its arguments, a run of such a format is undefined. */
  lemma {:induction false} OversteppingRun(p: Printer, format: string, args: seq<Arg>, pos: nat)
    requires Oversteps(format)
    ensures Run(p, format, args, pos) == Undefined
    decreases |format|
  {
    hide ReadDirective, Expand;
    if format[0] != '%' {
      OversteppingRun(p, format[1..], args, pos + 1);
    } else {
      match ReadDirective(format[1..])
      case Overrun =>
      case Parsed(d, rest) =>
        var step := Expand(p, d, args, pos);
        if step.Effect? {
          OversteppingRun(p, rest, step.rest, pos + |step.text|);
        }
    }
  }

  /** In particular a format that does not end in a flag character or a digit is never left behind its NUL. */
  lemma SafeEnd(format: string)
    requires !EndsInFlagOrDigit(format)
    ensures !Oversteps(format)
  {
    OverstepsExactly(format);
  }

  /** One that does can be: the loop steps past the end of "%5". */
  lemma WidthAtEndOversteps()
    ensures Oversteps("%5")
  {
    assert "%5"[1..] == "5" && "5"[1..] == "";
    assert FlagRun("5") == 0 && "5"[0..] == "5";
    assert DigitRun("") == 0;
    assert DigitRun("5") == 1;
    assert "5"[1..] == "";
  }
}
