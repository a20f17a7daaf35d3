/**
 printf on the framebuffer console, and numbers that cross files: what printf
 writes in decimal, the escape parser reads.
 */
module EndToEnd {
  import opened CTypes
  import opened Numerals
  import opened CStrings
  import opened IntegerSpec
  import opened IntegerLaws
  import opened FormatSpec
  import opened FormatLoop
  import opened DirectiveText
  import opened Sgr
  import opened Ansi
  import opened Pixels
  import opened Screen
  import opened ScreenLaws
  import opened Terminal

  /**
   printf: vprintf sends its characters to putchar. The calls are recorded in
   order and made once the text is complete.
   */
  method Printf(console: Console, format: CString, args: seq<Arg>) returns (count: nat, writes: seq<WriteBack>)
    requires console.Valid()
    requires FormatSpec.Run(Kernel, format, args, 0).Effect? && |FormatSpec.Run(Kernel, format, args, 0).text| <= INT_MAX
    requires RunFits(console.Abs(), console.ttyWidth, console.ttyHeight, FormatSpec.Run(Kernel, format, args, 0).text)
    modifies console, console.ptr, console.parser, console.parser.escapeSequence
    ensures console.Valid()
    ensures var e := FormatSpec.Run(Kernel, format, args, 0);
            && console.Abs() == Screen.Run(old(console.Abs()), console.ttyWidth, e.text)
            && count == |e.text| && writes == e.writes
  {
    hide FormatSpec.Run, Screen.Putchar, Fits;
    var sent;
    sent, count, writes := Vprintf(format, args);
    var i := 0;
    assert sent[0..] == sent;
    while i < |sent|
      invariant 0 <= i <= |sent| && console.Valid()
      invariant RunFits(console.Abs(), console.ttyWidth, console.ttyHeight, sent[i..])
      invariant Screen.Run(console.Abs(), console.ttyWidth, sent[i..])
             == Screen.Run(old(console.Abs()), console.ttyWidth, sent)
    {
      assert sent[i..][1..] == sent[i + 1..];
      console.Putchar(sent[i]);
      i := i + 1;
    }
  }

  // -------------------------------------------------- what `%d` prints

  function DecimalText(c: int): (s: string)
    ensures s != ""
  {
    (if c < 0 then "-" else "") + Written(if c < 0 then -c else c, 10)
  }

  /** The 32-bit word that carries the int c. */
  function WordOf(c: int32): uint32 {
    c % TWO32
  }

  lemma WordValue(c: int32)
    ensures IntegerValue(NoLength, true, WordOf(c)) == c
  {
  }

  predicate IsInt(c: int) {
    -0x8000_0000 <= c < 0x8000_0000
  }

  /** The field of a plain `%d`. */
  function PlainField(c: int): IntField
    requires IsInt(c)
  {
    IntField(if c < 0 then -c else c, c < 0, 10, 0, 0, Flags(false, false, false, false, false, false, false, false))
  }

  lemma PlainRendered(c: int)
    requires IsInt(c)
    ensures Rendered(PlainField(c)) == DecimalText(c)
  {
    hide Core, Rendered, Numeral;
    var f := PlainField(c);
    CoreShape(f);
    FullCore(f);
    assert Prefix(f) == "" && LeadZeros(f) == if c == 0 then 1 else 0;
    assert Repeat('0', 1) == "0" && Repeat('0', 0) == "";
  }

  lemma PlainFieldText(c: int)
    requires IsInt(c)
    ensures Printed(PlainField(c)) == DecimalText(c)
  {
    hide Printed, Rendered, DecimalText, Representable;
    PlainRendered(c);
    WithinBounds(PlainField(c));
  }

  /** A plain `%d` prints the decimal text of its argument. */
  lemma PlainDirective(c: int, args: seq<Arg>, pos: nat)
    requires IsInt(c)
    ensures var d := Directive(FlagSet(false, false, false, false, false), NoWidth, NoPrecision, NoLength, 'd');
            Expand(Kernel, d, [Word32(WordOf(c))] + args, pos) == Effect(DecimalText(c), [], args)
  {
    hide Printed, DecimalText, IntegerValue;
    WordValue(c);
    PlainFieldText(c);
    var r := Resolved(FlagSet(false, false, false, false, false), 0, false, 0);
    assert IntegerField(r, NoLength, 'd', WordOf(c)) == PlainField(c);
    assert ([Word32(WordOf(c))] + args)[1..] == args;
  }

  // ------------------------------------------------------ printf of an SGR code

  const SGR_FORMAT: string := [ESC, '[', '%', 'd', 'm']

  lemma SgrText(c: int)
    requires IsInt(c)
    ensures FormatSpec.Run(Kernel, SGR_FORMAT, [Word32(WordOf(c))], 0) == Effect(Sequence(DecimalText(c)), [], [])
  {
    hide FormatSpec.Run, Expand, ReadDirective, DecimalText;
    var args, f := [Word32(WordOf(c))], SGR_FORMAT;
    assert f[1..] == ['[', '%', 'd', 'm'] && f[1..][1..] == ['%', 'd', 'm'] && ['%', 'd', 'm'][1..] == "dm";
    assert DirectiveText.Text("", NoWidth, NoPrecision, NoLength, 'd') + "m" == "dm";
    DirectiveReadBack("", NoWidth, NoPrecision, NoLength, 'd', "m");
    RunCharacter(Kernel, f, args, 0);
    RunCharacter(Kernel, f[1..], args, 1);
    RunDirective(Kernel, ['%', 'd', 'm'], args, 2);
    assert args + [] == args;
    PlainDirective(c, [], 2);
    RunCharacter(Kernel, "m", [], 2 + |DecimalText(c)|);
    assert "m"[1..] == "";
    RunEmpty(Kernel, [], 2 + |DecimalText(c)| + 1);
    assert [ESC] + (['['] + (DecimalText(c) + ("m" + ""))) == Sequence(DecimalText(c));
  }

  lemma DecimalTextIsBody(c: int)
    requires IsInt(c)
    ensures IsBody(DecimalText(c)) && |DecimalText(c)| <= 11
  {
    var k := if c < 0 then -c else c;
    NumeralDecimal(k, 10);
    PowConstants();
    NumeralLength(k, 10, 10);
  }

  /** atoi recovers every non-negative int that `%d` printed. */
  lemma AtoiReadsBack(c: int)
    requires 0 <= c < 0x8000_0000
    ensures AtoiValue(DecimalText(c)) == c
  {
    hide AtoiValue, Numeral;
    if c == 0 {
      assert DecimalText(0) == "0";
      ZeroReads();
    } else {
      assert DecimalText(c) == Numeral(c, 10);
      NumeralReads(c);
    }
  }

  lemma ZeroReads()
    ensures AtoiValue("0") == 0
  {
    hide Value;
    assert Offsets("0") == [0] == [0] + [];
    LeadingZeros([0], [], 10);
    EmptyValue();
  }

  lemma EmptyValue()
    ensures Value([], 10) == 0
  {
  }

  lemma NumeralReads(c: int)
    requires 0 <= c < 0x8000_0000
    ensures AtoiValue(Numeral(c, 10)) == c
  {
    hide Numeral, Value, Offsets;
    DecimalOffsetsDenote(c, 10);
    ModUnique(c + 0x8000_0000, TWO32, 0, c + 0x8000_0000);
  }

  /** The number of digits of a magnitude, and the powers of ten around it. */
  lemma MagnitudeDigits(k: nat)
    requires 0 < k <= 0x8000_0000
    ensures var n := |Numeral(k, 10)|; 1 <= n <= 10 && Pow(10, n - 1) <= k < Pow(10, n)
  {
    PowConstants();
    NumeralLength(k, 10, 10);
    hide Pow;
    var n := |Numeral(k, 10)|;
    NumeralLength(k, 10, n);
    NumeralLength(k, 10, n - 1);
  }

  /** The minus sign reads as a digit of value -3. */
  lemma NegativeText(k: int)
    requires 0 < k <= 0x8000_0000
    ensures AtoiValue(DecimalText(-k)) == Int32(-3 * Pow(10, |Numeral(k, 10)|) + k)
  {
    hide Pow, Numeral, Int32, Value;
    var s := Numeral(k, 10);
    DecimalOffsetsDenote(k, 10);
    assert Offsets("-" + s) == [-3] + Offsets(s);
    ValuePrepend(-3, Offsets(s), 10);
    assert DecimalText(-k) == "-" + s;
  }

  /** None of the codes the terminal knows. */
  predicate IsUnknown(code: int) {
    code != 0 && code != 1 && code != 22 && !(30 <= code <= 37) && !(40 <= code <= 47)
  }

  /** The text of a negative number reads as an unknown code, wrapping included. */
  lemma NegativeIsUnknown(k: int)
    requires 0 < k <= 0x8000_0000
    ensures IsUnknown(AtoiValue(DecimalText(-k)))
  {
    hide AtoiValue, DecimalText, Int32, Pow, Numeral, IsUnknown;
    NegativeText(k);
    MagnitudeDigits(k);
    TenPowers();
    var n := |Numeral(k, 10)|;
    NegativeRange(k, n, Pow(10, n));
  }

  lemma TenPowers()
    ensures Pow(10, 0) == 1 && Pow(10, 1) == 10 && Pow(10, 2) == 100 && Pow(10, 3) == 1000
    ensures Pow(10, 4) == 10_000 && Pow(10, 5) == 100_000 && Pow(10, 6) == 1_000_000 && Pow(10, 7) == 10_000_000
    ensures Pow(10, 8) == 100_000_000 && Pow(10, 9) == 1_000_000_000 && Pow(10, 10) == 10_000_000_000
  {
  }

  lemma NegativeRange(k: int, n: nat, p: nat)
    requires 0 < k <= 0x8000_0000 && k < p
    requires n <= 8 ==> p <= 100_000_000
    requires n == 9 ==> p == 1_000_000_000
    requires n == 10 ==> p == 10_000_000_000 && k >= 1_000_000_000
    requires n <= 10
    ensures IsUnknown(Int32(-3 * p + k))
  {
    if n <= 8 {
      ModUnique(-3 * p + k + 0x8000_0000, TWO32, 0, -3 * p + k + 0x8000_0000);
    } else if n == 9 {
      var v := -3 * p + k + 0x8000_0000;
      if v >= 0 {
        ModUnique(v, TWO32, 0, v);
      } else {
        ModUnique(v, TWO32, -1, v + TWO32);
      }
    } else {
      var v := -3 * p + k + 0x8000_0000;
      if v + 7 * TWO32 < TWO32 {
        ModUnique(v, TWO32, -7, v + 7 * TWO32);
      } else {
        ModUnique(v, TWO32, -6, v + 6 * TWO32);
      }
    }
  }

  /** The escape parser acts on a printed code as on the code itself. */
  lemma CodeSurvives(c: int, a: Attr)
    requires IsInt(c)
    ensures Apply(AtoiValue(DecimalText(c)), a) == Apply(c, a)
  {
    hide AtoiValue, DecimalText;
    if c >= 0 {
      AtoiReadsBack(c);
    } else {
      NegativeIsUnknown(-c);
      assert IsUnknown(c);
    }
  }

  /**
   End to end: on an idle terminal `printf("\e[%dm", c)` has exactly the effect
   of SGR code c, for every int c. The cursor does not move, nothing is drawn,
   and the terminal is idle again.
   */
  lemma PrintedSgr(t: State, width: nat, height: nat, c: int)
    requires Consistent(t, width) && !t.esc && IsInt(c)
    ensures var e := FormatSpec.Run(Kernel, SGR_FORMAT, [Word32(WordOf(c))], 0);
            && e.Effect? && RunFits(t, width, height, e.text)
            && Screen.Run(t, width, e.text) == t.(attr := Apply(c, t.attr))
            && DrawnBy(t, width, e.text) == []
  {
    hide AtoiValue, DecimalText, Apply, FormatSpec.Run, Screen.Run, DrawnBy, RunFits, Sequence, Consistent, IsBody;
    SgrText(c);
    DecimalTextIsBody(c);
    RunSequence(t, width, DecimalText(c));
    SequenceFits(t, width, height, DecimalText(c));
    SequenceDrawsNothing(t, width, DecimalText(c));
    CodeSurvives(c, t.attr);
  }

  /** A valid console shows its grid, so the pixels are determined by it. */
  lemma PixelsOf(console: Console)
    requires console.Valid()
    ensures console.fbWidth > 0
    ensures console.ptr[..] == Rendering(console.font, console.cells, console.initial, console.fbWidth)
  {
    hide PixelAt, Pending;
  }

  /**
   The same on the framebuffer: the attributes change as SGR code c asks, and
   not one pixel, the cursor or the grid does.
   */
  method PrintSgr(console: Console, c: int32)
    requires console.Valid() && !console.esc
    modifies console, console.ptr, console.parser, console.parser.escapeSequence
    ensures console.Valid()
    ensures console.Abs() == old(console.Abs()).(attr := Apply(c, old(console.Abs()).attr))
    ensures console.ptr[..] == old(console.ptr[..])
  {
    AtRest(console);
    hide Apply, Rendering, FormatSpec.Run, Screen.Run, RunFits, Sequence, DecimalText, Consistent, DrawnBy, Console.Valid;
    PrintedSgr(console.Abs(), console.ttyWidth, console.ttyHeight, c);
    SgrLength(c);
    PixelsOf(console);
    var count, writes := Printf(console, SGR_FORMAT, [Word32(WordOf(c))]);
    PixelsOf(console);
  }

  lemma SgrLength(c: int)
    requires IsInt(c)
    ensures var e := FormatSpec.Run(Kernel, SGR_FORMAT, [Word32(WordOf(c))], 0); e.Effect? && |e.text| <= 14
  {
    hide FormatSpec.Run, DecimalText;
    SgrText(c);
    DecimalTextIsBody(c);
  }

  lemma AtRest(console: Console)
    requires console.Valid() && !console.esc
    ensures console.parser.Valid() && Consistent(console.Abs(), console.ttyWidth)
  {
    hide PixelAt;
    assert console.parser.escapeSequence[..0] == "";
    EmptyBuffer();
  }
}
