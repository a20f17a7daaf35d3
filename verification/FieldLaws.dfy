/** When a format run prints what ISO C asks for, and how long it is. */
module FieldLaws {
  import opened CTypes
  import opened Numerals
  import opened IntegerSpec
  import opened IntegerLaws
  import opened StandardLaws
  import opened FormatSpec
  import DirectiveText

  lemma IntegerFieldProducible(r: Resolved, length: Length, c: char, word: uint64)
    requires IsInteger(c) && (r.hasPrecision || r.precision == 0)
    ensures Producible(IntegerField(r, length, c, word))
  {
    IntegerValueRange(length, IsSigned(c), word);
  }

  lemma AddressFieldProducible(r: Resolved, address: uint64)
    requires !r.hasPrecision && r.precision == 0
    ensures Producible(AddressField(r, address))
  {
  }

  /** A directive without '.' has precision 0. */
  lemma ResolvedPrecision(p: Printer, d: Directive, args: seq<Arg>)
    requires Resolve(p, d, args).Some?
    ensures var r := Resolve(p, d, args).value.0; r.hasPrecision || r.precision == 0
  {
  }

  /** Sign and magnitude recombine to the argument, for every length and argument word. */
  lemma SignAndMagnitude(r: Resolved, length: Length, c: char, word: uint64)
    requires IsInteger(c)
    ensures var f := IntegerField(r, length, c, word);
            var magnitude: int := f.value;
            (if f.negative then -magnitude else magnitude) == IntegerValue(length, IsSigned(c), word)
  {
    IntegerValueRange(length, IsSigned(c), word);
  }

  // -------------------------------------------------------- standard output

  /** The numbers written in the directive fit into unsigned ints. */
  predicate Fits32(d: Directive) {
    (d.width.Width? ==> d.width.columns < TWO32) && (d.precision.Precision? ==> d.precision.digits < TWO32)
  }

  /** The precision of the directive is a negative argument. */
  predicate OmitsPrecision(d: Directive, args: seq<Arg>) {
    d.precision == StarPrecision
    && match ResolveWidth(Kernel, d.width, d.flags, args)
       case None => false
       case Some((_, rest)) => rest != [] && rest[0].Word32? && Int32(rest[0].bits) < 0
  }

  /** Only numbers that are too large and negative precision arguments are resolved in two ways. */
  lemma ResolvedAlike(d: Directive, args: seq<Arg>)
    ensures match (Resolve(Kernel, d, args), Resolve(Iso, d, args))
            case (Some((k, rest)), Some((i, rest'))) =>
              && rest == rest' && k.flags == i.flags && k.width < TWO32 && k.precision < TWO32
              && i.width == (if d.width.Width? then d.width.columns else k.width)
              && (d.width.Width? ==> k.width == d.width.columns % TWO32)
              && (if OmitsPrecision(d, args) then k.hasPrecision && k.precision == 0 && !i.hasPrecision && i.precision == 0
                  else i.hasPrecision == k.hasPrecision
                       && i.precision == if d.precision.Precision? then d.precision.digits else k.precision)
              && (d.precision.Precision? ==> k.hasPrecision && k.precision == d.precision.digits % TWO32)
            case (None, None) => true
            case _ => false
  {
  }

  predicate Spaces(s: string) {
    forall i :: 0 <= i < |s| ==> s[i] == ' '
  }

  /** How many characters of s are shown. */
  function Shown(r: Resolved, s: CString): nat {
    if r.hasPrecision then Min(|s|, r.precision) else |s|
  }

  /**
   The string gives the same text under both numbers: as much of it is shown,
   in the same or a needless width, or else what is missing looks like padding.
   */
  predicate ShownAlike(k: Resolved, i: Resolved, s: CString) {
    if Shown(k, s) == Shown(i, s) then k.width == i.width || i.width <= Shown(i, s)
    else k.width == i.width && Shown(i, s) <= i.width
         && Spaces(if i.flags.left then s[Min(Shown(k, s), Shown(i, s))..Shown(i, s)] else s[..Shown(i, s)])
  }

  /**
   The kernel treats the directive as ISO C asks: an integer field survives
   the buffer and shows no letter of the wrong case, `%lc` gets no null
   character, and neither a number that is too large for an unsigned int nor a
   negative precision argument makes a difference.
   */
  predicate Faithful(d: Directive, args: seq<Arg>) {
    match (Resolve(Kernel, d, args), Resolve(Iso, d, args))
    case (Some((k, rest)), Some((i, _))) =>
      if rest == [] then true
      else if IsInteger(d.conversion) && FitsInteger(d.length, rest[0]) then
        var f := IntegerField(k, d.length, d.conversion, Word(rest[0]));
        && Fits32(d) && Representable(f) && CaseAgrees(f)
        && (OmitsPrecision(d, args) ==> PrecisionIdle(f, k.flags.zeroPad))
      else if d.conversion == 'c' && rest[0].Word32? then
        (d.width.Width? ==> d.width.columns < TWO32) && !(d.length == L && rest[0].bits == 0)
      else if d.conversion == 's' && rest[0].Str? then ShownAlike(k, i, rest[0].text)
      else true
    case _ => true
  }

  // Numbers that are too large: the kernel's field is shorter than its number.

  lemma PrintedLength(f: IntField)
    requires Base(f.base)
    ensures |Printed(f)| <= Max(f.width, BUFFER_SIZE)
  {
    PrintedShape(f);
    hide Printed, Uncapped;
  }

  lemma StandardLength(f: IntField)
    requires Base(f.base)
    ensures |Standard(f)| >= f.width
    ensures f.flags.precision ==> |Standard(f)| >= f.precision
  {
    DigitsShape(f);
    hide Digits, Numeral;
  }

  lemma IntegerTooLong(d: Directive, args: seq<Arg>)
    requires Resolve(Kernel, d, args).Some? && Resolve(Iso, d, args).Some? && IsInteger(d.conversion) && !Fits32(d)
    requires var rest := Resolve(Kernel, d, args).value.1; rest != [] && FitsInteger(d.length, rest[0])
    ensures var (k, rest) := Resolve(Kernel, d, args).value;
            Printed(IntegerField(k, d.length, d.conversion, Word(rest[0])))
            != Standard(IntegerField(Resolve(Iso, d, args).value.0, d.length, d.conversion, Word(rest[0])))
  {
    hide Printed, Standard, Magnitude, IntegerValue, BaseOf;
    var (k, rest) := Resolve(Kernel, d, args).value;
    ResolvedAlike(d, args);
    PrintedLength(IntegerField(k, d.length, d.conversion, Word(rest[0])));
    StandardLength(IntegerField(Resolve(Iso, d, args).value.0, d.length, d.conversion, Word(rest[0])));
  }

  lemma IntegerIsStandard(d: Directive, args: seq<Arg>)
    requires Resolve(Kernel, d, args).Some? && Resolve(Iso, d, args).Some? && IsInteger(d.conversion)
    requires var rest := Resolve(Kernel, d, args).value.1; rest != [] && FitsInteger(d.length, rest[0])
    ensures var (k, rest) := Resolve(Kernel, d, args).value;
            Printed(IntegerField(k, d.length, d.conversion, Word(rest[0])))
            == Standard(IntegerField(Resolve(Iso, d, args).value.0, d.length, d.conversion, Word(rest[0])))
            <==> Faithful(d, args)
  {
    hide Printed, Standard, Representable, CaseAgrees, PrecisionIdle, Producible, Magnitude, IntegerValue;
    var (k, rest) := Resolve(Kernel, d, args).value;
    var f := IntegerField(k, d.length, d.conversion, Word(rest[0]));
    ResolvedPrecision(Kernel, d, args);
    ResolvedAlike(d, args);
    IntegerFieldProducible(k, d.length, d.conversion, Word(rest[0]));
    if !Fits32(d) {
      IntegerTooLong(d, args);
    } else if OmitsPrecision(d, args) {
      PrintedIsUnprecise(f, k.flags.zeroPad);
      assert Resolve(Iso, d, args).value.0 == k.(hasPrecision := false);
      assert IntegerField(k.(hasPrecision := false), d.length, d.conversion, Word(rest[0])) == Unprecise(f, k.flags.zeroPad);
    } else {
      PrintedIsStandard(f);
      assert Resolve(Iso, d, args).value.0 == k;
    }
  }

  // Strings: padding and cutting commute only with spaces.

  lemma PaddedAt(text: string, width: nat, left: bool, j: nat)
    requires j < |Padded(text, width, left)|
    ensures var at := if left then 0 else Max(width, |text|) - |text|;
            Padded(text, width, left)[j] == if at <= j < at + |text| then text[j - at] else ' '
  {
  }

  /** A text of spaces alone is padding. */
  lemma SpacesArePadding(s: string, n: nat, width: nat, left: bool)
    requires n <= |s| <= width && Spaces(if left then s[n..] else s)
    ensures Padded(s[..n], width, left) == Padded(s, width, left)
  {
    forall j | 0 <= j < width
      ensures Padded(s[..n], width, left)[j] == Padded(s, width, left)[j]
    {
      PaddedAt(s[..n], width, left, j);
      PaddedAt(s, width, left, j);
      if left && n <= j < |s| {
        assert s[j] == s[n..][j - n];
      }
    }
  }

  /** To the right of its padding, a cut text is the whole one only if both are blank. */
  lemma {:induction false} CutRight(s: string, n: nat, width: nat, j: nat)
    requires n < |s| <= width && j < |s|
    requires Padded(s[..n], width, false) == Padded(s, width, false)
    ensures s[j] == ' '
    decreases j
  {
    var all, m := Padded(s, width, false), |s| - n;
    assert all[width - |s| + j] == s[j];
    if j >= m {
      assert Padded(s[..n], width, false)[width - n + (j - m)] == s[..n][j - m] == s[j - m];
      CutRight(s, n, width, j - m);
    }
  }

  lemma CutLeft(s: string, n: nat, width: nat)
    requires n < |s| <= width && Padded(s[..n], width, true) == Padded(s, width, true)
    ensures Spaces(s[n..])
  {
    forall j | 0 <= j < |s| - n
      ensures s[n..][j] == ' '
    {
      assert Padded(s, width, true)[n + j] == s[n + j];
      assert Padded(s[..n], width, true)[n + j] == ' ';
    }
  }

  /** For a text s and its first n characters, in two widths. */
  lemma PaddedAlike(s: string, n: nat, kernel: nat, iso: nat, left: bool)
    requires n <= |s| && (kernel == iso || kernel < TWO32 <= iso)
    ensures Padded(s[..n], kernel, left) == Padded(s, iso, left) <==>
              if n == |s| then kernel == iso || iso <= |s|
              else kernel == iso && |s| <= iso && Spaces(if left then s[n..] else s)
  {
    assert s[..|s|] == s;
    if n < |s| && kernel == iso && |s| <= iso {
      if Padded(s[..n], kernel, left) == Padded(s, iso, left) {
        if left {
          CutLeft(s, n, iso);
        } else {
          forall j | 0 <= j < |s|
            ensures s[j] == ' '
          {
            CutRight(s, n, iso, j);
          }
        }
      } else if Spaces(if left then s[n..] else s) {
        SpacesArePadding(s, n, iso, left);
      }
    }
  }

  lemma StringIsStandard(d: Directive, args: seq<Arg>, s: CString)
    requires Resolve(Kernel, d, args).Some? && Resolve(Iso, d, args).Some?
    ensures var k, i := Resolve(Kernel, d, args).value.0, Resolve(Iso, d, args).value.0;
            StringText(k, s) == StringText(i, s) <==> ShownAlike(k, i, s)
  {
    ResolvedAlike(d, args);
    hide Resolve, Padded, Spaces;
    var k, i := Resolve(Kernel, d, args).value.0, Resolve(Iso, d, args).value.0;
    var all := s[..Shown(i, s)];
    assert Shown(k, s) <= Shown(i, s);
    assert all[..Shown(k, s)] == s[..Shown(k, s)];
    assert all[Shown(k, s)..] == s[Shown(k, s)..Shown(i, s)];
    assert s[..|s|] == s;
    PaddedAlike(all, Shown(k, s), k.width, i.width, i.flags.left);
  }

  lemma CharacterIsStandard(d: Directive, args: seq<Arg>, bits: uint32)
    requires Resolve(Kernel, d, args).Some? && Resolve(Iso, d, args).Some?
    ensures var k, i := Resolve(Kernel, d, args).value.0, Resolve(Iso, d, args).value.0;
            CharacterText(Kernel, k, d.length, bits) == CharacterText(Iso, i, d.length, bits) <==>
              (d.width.Width? ==> d.width.columns < TWO32) && !(d.length == L && bits == 0)
  {
    ResolvedAlike(d, args);
    hide Resolve;
    var k, i := Resolve(Kernel, d, args).value.0, Resolve(Iso, d, args).value.0;
    if d.length == L && bits == 0 {
      var at := if k.flags.left then 0 else Max(k.width, 1) - 1;
      assert CharText(k, bits)[at] == '\0';
    }
  }

  /** A directive, of any conversion, has the effect ISO C asks for if and only if it is faithful. */
  lemma DirectiveIsStandard(d: Directive, args: seq<Arg>, pos: nat)
    ensures Expand(Kernel, d, args, pos) == Expand(Iso, d, args, pos) <==> Faithful(d, args)
  {
    hide Printed, Standard, Representable, CaseAgrees, PrecisionIdle, IntegerField, AddressField, StringText,
      ShownAlike, CharacterText, NullText, Resolve, Fits32, OmitsPrecision, Position;
    ResolvedAlike(d, args);
    if Resolve(Kernel, d, args).Some? {
      var rest := Resolve(Kernel, d, args).value.1;
      if rest != [] {
        if IsInteger(d.conversion) && FitsInteger(d.length, rest[0]) {
          IntegerIsStandard(d, args);
        } else if d.conversion == 'c' && rest[0].Word32? {
          CharacterIsStandard(d, args, rest[0].bits);
        } else if d.conversion == 's' && rest[0].Str? {
          StringIsStandard(d, args, rest[0].text);
        }
      }
    }
  }

  /** Every directive a run meets is faithful. */
  ghost predicate AllFaithful(format: string, args: seq<Arg>)
    decreases |format|
  {
    if format == "" then true
    else if format[0] != '%' then AllFaithful(format[1..], args)
    else match ReadDirective(format[1..])
      case Parsed(d, rest) =>
        var step := Expand(Kernel, d, args, 0);
        Faithful(d, args) && (step.Effect? ==> AllFaithful(rest, step.rest))
      case _ => true
  }

  /** What is left of the arguments does not depend on the position. */
  lemma ExpandPosition(p: Printer, d: Directive, args: seq<Arg>, pos: nat)
    ensures var a, b := Expand(p, d, args, 0), Expand(p, d, args, pos);
            a.Effect? == b.Effect? && (a.Effect? ==> a.text == b.text && a.rest == b.rest)
  {
    hide IntegerText, IntegerField, AddressField, StringText, NullText, CharText;
  }

  /** The effects of the directives of a run, one by one. */
  ghost function Steps(p: Printer, format: string, args: seq<Arg>, pos: nat): seq<Effect>
    decreases |format|
  {
    if format == "" then []
    else if format[0] != '%' then Steps(p, format[1..], args, pos + 1)
    else match ReadDirective(format[1..])
      case Parsed(d, rest) =>
        var step := Expand(p, d, args, pos);
        [step] + (if step.Effect? then Steps(p, rest, step.rest, pos + |step.text|) else [])
      case _ => []
  }

  /** Every step of a run is the standard one if and only if every directive it meets is faithful. */
  lemma {:induction false} StepsAreStandard(format: string, args: seq<Arg>, pos: nat)
    ensures Steps(Kernel, format, args, pos) == Steps(Iso, format, args, pos) <==> AllFaithful(format, args)
    decreases |format|
  {
    hide Expand, Faithful, ReadDirective;
    if format == "" {
    } else if format[0] != '%' {
      StepsAreStandard(format[1..], args, pos + 1);
    } else {
      match ReadDirective(format[1..])
      case Truncated(_) =>
      case Overrun =>
      case Parsed(d, rest) =>
        DirectiveIsStandard(d, args, pos);
        ExpandPosition(Kernel, d, args, pos);
        var step, other := Expand(Kernel, d, args, pos), Expand(Iso, d, args, pos);
        assert Steps(Kernel, format, args, pos)[0] == step && Steps(Iso, format, args, pos)[0] == other;
        if step.Effect? && step == other {
          var pos' := pos + |step.text|;
          StepsAreStandard(rest, step.rest, pos');
          assert Steps(Kernel, format, args, pos)[1..] == Steps(Kernel, rest, step.rest, pos');
          assert Steps(Iso, format, args, pos)[1..] == Steps(Iso, rest, step.rest, pos');
        }
    }
  }

  /** A run is the fold of its steps, so it has the standard effect when all of them do. */
  lemma {:induction false} RunIsStandard(format: string, args: seq<Arg>, pos: nat)
    requires AllFaithful(format, args)
    ensures Run(Kernel, format, args, pos) == Run(Iso, format, args, pos)
    decreases |format|
  {
    hide Expand, Faithful, ReadDirective;
    if format == "" {
    } else if format[0] != '%' {
      RunIsStandard(format[1..], args, pos + 1);
    } else {
      match ReadDirective(format[1..])
      case Truncated(_) =>
      case Overrun =>
      case Parsed(d, rest) =>
        DirectiveIsStandard(d, args, pos);
        ExpandPosition(Kernel, d, args, pos);
        var step := Expand(Kernel, d, args, pos);
        if step.Effect? {
          RunIsStandard(rest, step.rest, pos + |step.text|);
        }
    }
  }

  // ---------------------------------------------- inputs that go wrong

  function PlainFlags(zeroPad: bool, hash: bool, precision: bool): Flags {
    Flags(zeroPad, false, false, false, hash, false, precision, false)
  }

  lemma NumeralTen()
    ensures Numeral(10, 16) == "A"
  {
    assert Numeral(0, 16) == "";
  }

  lemma HexTenField()
    ensures var f := IntField(10, false, 16, 0, 0, PlainFlags(false, false, false));
            Printed(f) == "A" && Standard(f) == "a"
  {
    hide Printed, Digits, Numeral, LowerCase, Repeat;
    var f := IntField(10, false, 16, 0, 0, PlainFlags(false, false, false));
    NumeralTen();
    DigitsShape(f);
    assert Repeat('0', 0) + "A" == "A";
    assert Digits(f) == "A" && LowerCase("A") == "a";
    assert Assembled(f, "A") == "A" && Assembled(f, "a") == "a";
    assert Padded("A", 0, false) == "A" && Padded("a", 0, false) == "a";
    PrintedIsRendered(f);
  }

  /** `%x` of 10 prints "A" where ISO C asks for "a". */
  lemma HexTen(pos: nat)
    ensures var d := Directive(NoFlags, NoWidth, NoPrecision, NoLength, 'x');
            && Expand(Kernel, d, [Word32(10)], pos) == Effect("A", [], [])
            && Expand(Iso, d, [Word32(10)], pos) == Effect("a", [], [])
  {
    hide Printed, Standard;
    HexTenField();
    assert IntegerField(Resolved(NoFlags, 0, false, 0), NoLength, 'x', 10)
        == IntField(10, false, 16, 0, 0, PlainFlags(false, false, false));
  }

  /** `%.*s` of -1 prints nothing where ISO C asks for the whole string. */
  lemma MinusOnePrecision(s: CString, pos: nat)
    ensures var d := Directive(NoFlags, NoWidth, StarPrecision, NoLength, 's');
            && Expand(Kernel, d, [Word32(0xFFFF_FFFF), Str(s)], pos) == Effect("", [], [])
            && Expand(Iso, d, [Word32(0xFFFF_FFFF), Str(s)], pos) == Effect(s, [], [])
  {
    var args := [Word32(0xFFFF_FFFF), Str(s)];
    assert Int32(0xFFFF_FFFF) == -1;
    assert args[1..] == [Str(s)] && [Str(s)][1..] == [];
    assert s[..0] == "" && "" + "" == "" && "" + s == s;
  }

  /** `%#.3b` of 0 gets a prefix that it should not have. */
  lemma BinaryZeroDirective(pos: nat)
    ensures var d := Directive(NoFlags.(hash := true), NoWidth, Precision(3), NoLength, 'b');
            Expand(Kernel, d, [Word32(0)], pos) != Expand(Iso, d, [Word32(0)], pos)
  {
    hide Core, Expand;
    var d := Directive(NoFlags.(hash := true), NoWidth, Precision(3), NoLength, 'b');
    DirectiveIsStandard(d, [Word32(0)], pos);
  }

  lemma WideOneCore()
    ensures |Core(IntField(1, false, 10, 0, 33, PlainFlags(true, false, false)))| == 33
  {
    assert Numeral(0, 10) == "" && Numeral(1, 10) == "1";
  }

  /** A field that is not representable goes wrong. */
  lemma UnrepresentableDirective(d: Directive, args: seq<Arg>, pos: nat, r: Resolved)
    requires Resolve(Kernel, d, args) == Some((r, args)) && IsInteger(d.conversion)
    requires args != [] && FitsInteger(d.length, args[0]) && !Representable(IntegerField(r, d.length, d.conversion, Word(args[0])))
    ensures Expand(Kernel, d, args, pos) != Expand(Iso, d, args, pos)
  {
    hide Expand, Representable, Resolve, CaseAgrees, PrecisionIdle, Fits32;
    ResolvedAlike(d, args);
    DirectiveIsStandard(d, args, pos);
  }

  lemma WideOneField()
    ensures IntegerField(Resolved(NoFlags.(zeroPad := true), 33, false, 0), NoLength, 'd', 1)
         == IntField(1, false, 10, 0, 33, PlainFlags(true, false, false))
  {
  }

  /** `%033d` of 1 loses a zero: 33 columns do not fit into the buffer. */
  lemma WideOneDirective(pos: nat)
    ensures var d := Directive(NoFlags.(zeroPad := true), Width(33), NoPrecision, NoLength, 'd');
            Expand(Kernel, d, [Word32(1)], pos) != Expand(Iso, d, [Word32(1)], pos)
  {
    hide Core, Expand, IntegerField;
    WideOneCore();
    WideOneField();
    UnrepresentableDirective(Directive(NoFlags.(zeroPad := true), Width(33), NoPrecision, NoLength, 'd'), [Word32(1)], pos,
                             Resolved(NoFlags.(zeroPad := true), 33, false, 0));
  }

  lemma NextDigit(v: nat, s: string)
    requires v > 0 && Numeral(v / 10, 10) == s
    ensures Numeral(v, 10) == s + [Digit(v % 10)]
  {
  }

  lemma HugeNumeral()
    ensures Numeral(4294967296, 10) == "4294967296"
  {
    hide Numeral;
    NextDigit(4, "");
    NextDigit(42, "4");
    NextDigit(429, "42");
    NextDigit(4294, "429");
    NextDigit(42949, "4294");
    NextDigit(429496, "42949");
    NextDigit(4294967, "429496");
    NextDigit(42949672, "4294967");
    NextDigit(429496729, "42949672");
    NextDigit(4294967296, "429496729");
  }

  lemma HugeFormat()
    ensures ReadDirective(".4294967296s") == Parsed(Directive(NoFlags, NoWidth, Precision(4294967296), NoLength, 's'), "")
  {
    HugeNumeral();
    hide ReadDirective, Numeral;
    DirectiveText.DirectiveReadBack("", NoWidth, Precision(4294967296), NoLength, 's', "");
    assert "" + ("" + (("." + "4294967296") + ("" + ['s']))) + "" == ".4294967296s";
    assert FlagsIn("") == NoFlags;
  }

  /** "%.4294967296s" prints nothing where ISO C asks for the whole string. */
  lemma HugePrecision(s: CString)
    requires |s| < TWO32
    ensures Run(Kernel, "%.4294967296s", [Str(s)], 0) == Effect("", [], [])
    ensures Run(Iso, "%.4294967296s", [Str(s)], 0) == Effect(s, [], [])
  {
    hide ReadDirective, Expand, Run;
    assert "%.4294967296s"[1..] == ".4294967296s";
    HugeFormat();
    HugeDirective(s);
    SoleDirective(Kernel, "%.4294967296s", [Str(s)], "");
    SoleDirective(Iso, "%.4294967296s", [Str(s)], s);
  }

  /** A format of one directive has the effect of the directive. */
  lemma SoleDirective(p: Printer, format: string, args: seq<Arg>, text: string)
    requires format != "" && format[0] == '%' && ReadDirective(format[1..]).Parsed? && ReadDirective(format[1..]).rest == ""
    requires Expand(p, ReadDirective(format[1..]).directive, args, 0) == Effect(text, [], [])
    ensures Run(p, format, args, 0) == Effect(text, [], [])
  {
    hide ReadDirective, Expand, Run;
    RunDirective(p, format, args, 0);
    RunEmpty(p, [], |text|);
    assert text + "" == text;
  }

  lemma HugeDirective(s: CString)
    requires |s| < TWO32
    ensures var d := Directive(NoFlags, NoWidth, Precision(4294967296), NoLength, 's');
            && Expand(Kernel, d, [Str(s)], 0) == Effect("", [], [])
            && Expand(Iso, d, [Str(s)], 0) == Effect(s, [], [])
  {
    assert [Str(s)][1..] == [];
    assert s[..0] == "" && s[..|s|] == s;
    assert Padded("", 0, false) == "" && Padded(s, 0, false) == s;
  }

  /** `%lc` of 0 prints a null character where ISO C asks for none. */
  lemma WideNul(pos: nat)
    ensures var d := Directive(NoFlags, NoWidth, NoPrecision, L, 'c');
            && Expand(Kernel, d, [Word32(0)], pos) == Effect("\0", [], [])
            && Expand(Iso, d, [Word32(0)], pos) == Effect("", [], [])
  {
    assert [Word32(0)][1..] == [];
    assert Padded("\0", 0, false) == "\0" && Padded("", 0, false) == "";
  }

  // ------------------------------------------------------------ field lengths

  /** Sign, prefix and digits of an integer field. */
  function BodyLength(f: IntField): nat
    requires Base(f.base)
  {
    |Sign(f.negative, f.flags)| + |Prefix(f)| + |Digits(f)|
  }

  /** The columns a directive takes. */
  function FieldWidth(d: Directive, args: seq<Arg>): nat {
    match Resolve(Kernel, d, args)
    case None => 0
    case Some((r, rest)) =>
      var c := d.conversion;
      if c == '%' then 1
      else if rest == [] then (if IsInteger(c) || c == 'c' || c == 's' || c == 'p' || c == 'n' then 0 else 1)
      else if IsInteger(c) then
        (if FitsInteger(d.length, rest[0]) then
           Max(r.width, BodyLength(IntegerField(r, d.length, c, Word(rest[0])))) else 0)
      else if c == 'c' then Max(r.width, 1)
      else if c == 's' then
        (if rest[0].Str? then
           Max(r.width, if r.hasPrecision then Min(|rest[0].text|, r.precision) else |rest[0].text|)
         else Max(if r.flags.zeroPad && !r.flags.left then 0 else r.width, 6))
      else if c == 'p' then
        (if rest[0].Pointer? then Max(18, BodyLength(AddressField(r, rest[0].address))) else 0)
      else if c == 'n' then 0 else 1
  }

  /** The integer field of a directive, if any, survives the kernel's buffer. */
  predicate Fitting(d: Directive, args: seq<Arg>) {
    match Resolve(Kernel, d, args)
    case None => true
    case Some((r, rest)) =>
      && (IsInteger(d.conversion) && rest != [] && FitsInteger(d.length, rest[0]) ==>
            Representable(IntegerField(r, d.length, d.conversion, Word(rest[0]))))
      && (d.conversion == 'p' && rest != [] && rest[0].Pointer? ==>
            !r.hasPrecision && Representable(AddressField(r, rest[0].address)))
  }

  /** Every directive a run meets is fitting. */
  ghost predicate AllFitting(format: string, args: seq<Arg>)
    decreases |format|
  {
    if format == "" then true
    else if format[0] != '%' then AllFitting(format[1..], args)
    else match ReadDirective(format[1..])
      case Parsed(d, rest) =>
        var step := Expand(Kernel, d, args, 0);
        Fitting(d, args) && (step.Effect? ==> AllFitting(rest, step.rest))
      case _ => true
  }

  lemma DirectiveLength(d: Directive, args: seq<Arg>, pos: nat)
    requires Fitting(d, args) && Expand(Kernel, d, args, pos).Effect?
    ensures |Expand(Kernel, d, args, pos).text| == FieldWidth(d, args)
  {
    hide Printed, Rendered, Representable, Producible, BodyLength;
    var (r, rest) := Resolve(Kernel, d, args).value;
    ResolvedPrecision(Kernel, d, args);
    if IsInteger(d.conversion) {
      IntegerLength(r, d.length, d.conversion, Word(rest[0]));
    } else if d.conversion == 'p' {
      AddressLength(r, rest[0].address);
    }
  }

  lemma IntegerLength(r: Resolved, length: Length, c: char, word: uint64)
    requires IsInteger(c) && (r.hasPrecision || r.precision == 0)
    requires Representable(IntegerField(r, length, c, word))
    ensures |Printed(IntegerField(r, length, c, word))| == Max(r.width, BodyLength(IntegerField(r, length, c, word)))
  {
    IntegerFieldProducible(r, length, c, word);
    hide Printed, Representable, Producible, Digits, Prefix;
    FieldLength(IntegerField(r, length, c, word));
  }

  lemma AddressLength(r: Resolved, address: uint64)
    requires !r.hasPrecision && r.precision == 0 && Representable(AddressField(r, address))
    ensures |Printed(AddressField(r, address))| == Max(18, BodyLength(AddressField(r, address)))
  {
    AddressFieldProducible(r, address);
    hide Printed, Representable, Producible, Digits, Prefix;
    FieldLength(AddressField(r, address));
  }

  /** One column for every ordinary character, a field width for every directive. */
  ghost function TotalWidth(format: string, args: seq<Arg>): nat
    decreases |format|
  {
    if format == "" then 0
    else if format[0] != '%' then 1 + TotalWidth(format[1..], args)
    else match ReadDirective(format[1..])
      case Parsed(d, rest) =>
        var step := Expand(Kernel, d, args, 0);
        FieldWidth(d, args) + (if step.Effect? then TotalWidth(rest, step.rest) else 0)
      case _ => 0
  }

  /** The number of characters a run prints is the sum of its field widths. */
  lemma {:induction false} RunLength(format: string, args: seq<Arg>, pos: nat)
    requires AllFitting(format, args) && Run(Kernel, format, args, pos).Effect?
    ensures |Run(Kernel, format, args, pos).text| == TotalWidth(format, args)
    decreases |format|
  {
    hide Expand, Fitting, ReadDirective, FieldWidth;
    if format == "" {
    } else if format[0] != '%' {
      RunLength(format[1..], args, pos + 1);
    } else {
      match ReadDirective(format[1..])
      case Truncated(stars) => StarsPrintNothing(stars, args);
      case Parsed(d, rest) =>
        ExpandPosition(Kernel, d, args, pos);
        DirectiveLength(d, args, pos);
        var step := Expand(Kernel, d, args, pos);
        RunLength(rest, step.rest, pos + |step.text|);
    }
  }

  lemma {:induction false} StarsPrintNothing(stars: nat, args: seq<Arg>)
    requires ConsumeStars(stars, args).Effect?
    ensures ConsumeStars(stars, args).text == ""
  {
    if stars > 0 {
      StarsPrintNothing(stars - 1, args[1..]);
    }
  }
}
