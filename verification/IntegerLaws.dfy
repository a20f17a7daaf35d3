/** When the reverse-buffer printer produces the left-to-right field, and when not. */
module IntegerLaws {
  import opened CTypes
  import opened Numerals
  import opened IntegerSpec

  /** The fields formatStringLoop passes on for d, i, u, x, X, o, b, and for p without a precision. */
  predicate Producible(f: IntField) {
    && Base(f.base)
    && (f.base == 10 ==> !f.flags.hash)
    && (f.base != 10 && !f.flags.pointer ==> Sign(f.negative, f.flags) == "")
    && (f.flags.pointer ==> f.base == 16 && f.flags.zeroPad)
    && (if f.flags.precision then !f.flags.zeroPad else f.precision == 0)
  }

  /**
   The field survives the 32-byte buffer: all but its space padding fits, save
   for a space sign that is indistinguishable from padding, and the base-2
   zero with '#' and a precision does not get a spurious prefix.
   */
  predicate Representable(f: IntField)
    requires Base(f.base)
  {
    && (|| |Core(f)| <= BUFFER_SIZE
        || (|Core(f)| == BUFFER_SIZE + 1 <= f.width && Sign(f.negative, f.flags) == " "
            && !f.flags.left && !f.flags.zeroPad))
    && !SpuriousPrefix(f)
  }

  predicate SpuriousPrefix(f: IntField) {
    f.base == 2 && f.value == 0 && f.flags.hash && f.flags.precision && f.precision != BUFFER_SIZE
  }

  // ------------------------------------------------- a normal form for Core

  /** All zeros in front of the numeral: precision, octal alternative form, zero padding. */
  function LeadZeros(f: IntField): (z: nat)
    requires Base(f.base)
  {
    var n := |Numeral(f.value, f.base)|;
    var p := Max(0, (if f.flags.precision then f.precision else 1) - n);
    var alt := if f.flags.hash && f.base == 8 && p == 0 then 1 else 0;
    var lead := |Sign(f.negative, f.flags)| + |Prefix(f)|;
    var fill := if f.flags.zeroPad && !f.flags.left && !f.flags.precision
                then Max(0, f.width - lead - (alt + p + n)) else 0;
    fill + alt + p
  }

  lemma RepeatAdd(c: char, m: nat, n: nat)
    ensures Repeat(c, m) + Repeat(c, n) == Repeat(c, m + n)
  {
  }

  lemma DigitsShape(f: IntField)
    requires Base(f.base)
    ensures var n := |Numeral(f.value, f.base)|;
            var p := Max(0, (if f.flags.precision then f.precision else 1) - n);
            Digits(f) == Repeat('0', p + if f.flags.hash && f.base == 8 && p == 0 then 1 else 0) + Numeral(f.value, f.base)
  {
    if f.value > 0 {
      NumeralLead(f.value, f.base);
    }
  }

  lemma CoreShape(f: IntField)
    requires Base(f.base)
    ensures Core(f) == Sign(f.negative, f.flags) + Prefix(f) + Repeat('0', LeadZeros(f)) + Numeral(f.value, f.base)
  {
    hide Digits, Numeral, Prefix, Sign, Repeat;
    DigitsShape(f);
    var zeros := |Digits(f)| - |Numeral(f.value, f.base)|;
    RepeatAdd('0', LeadZeros(f) - zeros, zeros);
    Regroup(Sign(f.negative, f.flags) + Prefix(f), Repeat('0', LeadZeros(f) - zeros), Repeat('0', zeros),
            Numeral(f.value, f.base));
  }

  lemma Regroup(a: string, b: string, c: string, d: string)
    ensures a + b + (c + d) == a + (b + c) + d
  {
  }

  // --------------------------------------------------------- fields that fit

  function StoredWidth(f: IntField): nat {
    PadWidth(f.negative, f.width, StoredFlags(f))
  }

  /** What outRev_ receives, reversed, when the cap does not bite. */
  function Uncapped(f: IntField): (s: string)
    requires Base(f.base)
  {
    Reverse(StoredUnsigned(StoredDigits(f), f.base, f.precision, StoredWidth(f), StoredFlags(f))
            + Sign(f.negative, StoredFlags(f)))
  }

  function PaddingZeros(f: IntField): nat
    requires Base(f.base)
  {
    PadZeros(|StoredDigits(f)|, StoredWidth(f), f.precision, StoredFlags(f))
  }

  /** The zeros that are left in the buffer after the take-back. */
  function KeptZeros(f: IntField): (z: nat)
    requires Base(f.base)
  {
    PaddingZeros(f)
    - TakenBack(|StoredDigits(f)|, PaddingZeros(f), f.base, StoredWidth(f), f.precision, StoredFlags(f))
  }

  /** The prefix that goes in front of the zeros; empty when none is wanted. */
  function FrontPrefix(f: IntField): string
    requires Base(f.base)
  {
    if WantsPrefix(PaddingZeros(f), f.base, StoredFlags(f)) then Reverse(StoredPrefix(f.base, StoredFlags(f))) else ""
  }

  lemma UncappedShape(f: IntField)
    requires Base(f.base)
    ensures Uncapped(f) == Sign(f.negative, f.flags) + FrontPrefix(f) + Repeat('0', KeptZeros(f)) + Reverse(StoredDigits(f))
  {
    hide Repeat, TakenBack, PadZeros, Sign, WantsPrefix, StoredPrefix, StoredDigits, StoredFlags, PadWidth;
    var prefix := if WantsPrefix(PaddingZeros(f), f.base, StoredFlags(f)) then StoredPrefix(f.base, StoredFlags(f)) else "";
    SameSign(f);
    ReverseOfFour(StoredDigits(f), Repeat('0', KeptZeros(f)), prefix, Sign(f.negative, f.flags));
    assert Reverse("") == "";
    assert Reverse(prefix) == FrontPrefix(f);
    ReverseSame(f.negative, f.flags, KeptZeros(f));
  }

  lemma SameSign(f: IntField)
    ensures Sign(f.negative, StoredFlags(f)) == Sign(f.negative, f.flags)
  {
  }

  lemma ReverseSame(negative: bool, flags: Flags, n: nat)
    ensures Reverse(Sign(negative, flags)) == Sign(negative, flags)
    ensures Reverse(Repeat('0', n)) == Repeat('0', n)
  {
  }

  lemma ReverseOfFour(a: string, b: string, c: string, d: string)
    ensures Reverse(a + b + c + d) == Reverse(d) + Reverse(c) + Reverse(b) + Reverse(a)
  {
    assert Reverse(a + b) == Reverse(b) + Reverse(a);
    assert Reverse(a + b + c) == Reverse(c) + Reverse(a + b);
    assert Reverse(a + b + c + d) == Reverse(d) + Reverse(a + b + c);
  }

  lemma DigitsOfFitting(f: IntField)
    requires Base(f.base) && |Core(f)| <= BUFFER_SIZE
    ensures Reverse(StoredDigits(f)) == if f.value == 0 && !f.flags.precision then "0" else Numeral(f.value, f.base)
  {
    CoreShape(f);
    LowDigitsReversed(f.value, f.base);
    hide Core, Prefix, Sign, LeadZeros, Numeral, LowDigits;
    var low := LowDigits(f.value, f.base);
    assert |low| == |Numeral(f.value, f.base)| && low[..|low|] == low;
  }

  lemma OctalZeros(f: IntField)
    requires Producible(f) && |Core(f)| <= BUFFER_SIZE && f.base == 8
    ensures Prefix(f) == "" && FrontPrefix(f) == Repeat('0', |FrontPrefix(f)|)
    ensures LeadZeros(f) == KeptZeros(f) + |FrontPrefix(f)| + (if f.value == 0 && !f.flags.precision then 1 else 0)
  {
    CoreShape(f);
    DigitsOfFitting(f);
    assert Reverse("0") == "0" == Repeat('0', 1);
    hide Core, Numeral, StoredDigits, Repeat;
    if f.flags.precision {
      OctalPrecisionZeros(f);
    } else {
      OctalPaddingZeros(f);
    }
  }

  lemma OctalPrecisionZeros(f: IntField)
    requires Producible(f) && |Core(f)| <= BUFFER_SIZE && f.base == 8 && f.flags.precision
    ensures LeadZeros(f) == KeptZeros(f) + |FrontPrefix(f)|
  {
    CoreShape(f);
    DigitsOfFitting(f);
    hide Core, Numeral, StoredDigits;
  }

  lemma OctalPaddingZeros(f: IntField)
    requires Producible(f) && |Core(f)| <= BUFFER_SIZE && f.base == 8 && !f.flags.precision
    ensures LeadZeros(f) == KeptZeros(f) + |FrontPrefix(f)| + (if f.value == 0 then 1 else 0)
  {
    CoreShape(f);
    DigitsOfFitting(f);
    hide Core, Numeral, StoredDigits;
  }

  lemma DecimalZeros(f: IntField)
    requires Producible(f) && |Core(f)| <= BUFFER_SIZE && f.base == 10
    ensures FrontPrefix(f) == Prefix(f) == ""
    ensures LeadZeros(f) == KeptZeros(f) + (if f.value == 0 && !f.flags.precision then 1 else 0)
  {
    CoreShape(f);
    DigitsOfFitting(f);
    hide Core, Numeral, StoredDigits;
  }

  lemma PrefixAgrees(f: IntField)
    requires Producible(f) && (f.base == 16 || f.base == 2)
    requires !(f.base == 2 && f.value == 0 && f.flags.hash && f.flags.precision)
    ensures FrontPrefix(f) == Prefix(f)
  {
  }

  lemma PrefixedPrecision(f: IntField)
    requires Producible(f) && |Core(f)| <= BUFFER_SIZE && (f.base == 16 || f.base == 2) && f.flags.precision
    requires !(f.base == 2 && f.value == 0 && f.flags.hash)
    ensures LeadZeros(f) == KeptZeros(f)
  {
    CoreShape(f);
    DigitsOfFitting(f);
    hide Core, Numeral, StoredDigits;
  }

  /** The take-back makes exactly the room the prefix needs. */
  lemma PrefixedPadding(f: IntField)
    requires Producible(f) && |Core(f)| <= BUFFER_SIZE && (f.base == 16 || f.base == 2) && !f.flags.precision
    ensures LeadZeros(f) == KeptZeros(f) + (if f.value == 0 then 1 else 0)
  {
    CoreShape(f);
    DigitsOfFitting(f);
    hide Core, Numeral, StoredDigits;
  }

  lemma FittingCore(f: IntField)
    requires Producible(f) && |Core(f)| <= BUFFER_SIZE
    requires !(f.base == 2 && f.value == 0 && f.flags.hash && f.flags.precision)
    ensures Uncapped(f) == Core(f)
  {
    CoreShape(f);
    UncappedShape(f);
    DigitsOfFitting(f);
    if f.base == 8 {
      OctalZeros(f);
    } else if f.base == 10 {
      DecimalZeros(f);
    } else {
      PrefixAgrees(f);
      if f.flags.precision {
        PrefixedPrecision(f);
      } else {
        PrefixedPadding(f);
      }
    }
    Assemble(Sign(f.negative, f.flags), FrontPrefix(f), Prefix(f), KeptZeros(f), LeadZeros(f),
             Reverse(StoredDigits(f)), Numeral(f.value, f.base));
  }

  /** Zeros that moved between prefix, padding and digits make no difference. */
  lemma Assemble(sign: string, front: string, prefix: string, kept: nat, zeros: nat, digits: string, numeral: string)
    requires prefix == front || (prefix == "" && front == Repeat('0', |front|))
    requires digits == numeral || (numeral == "" && digits == "0")
    requires |front| - |prefix| + kept + |digits| == zeros + |numeral|
    ensures sign + front + Repeat('0', kept) + digits == sign + prefix + Repeat('0', zeros) + numeral
  {
    if prefix == front {
      ZerosMerge("", Repeat('0', kept), digits, numeral, zeros);
      assert sign + front + Repeat('0', kept) + digits == sign + front + ("" + Repeat('0', kept) + digits);
      assert sign + prefix + Repeat('0', zeros) + numeral == sign + prefix + (Repeat('0', zeros) + numeral);
    } else {
      ZerosMerge(front, Repeat('0', kept), digits, numeral, zeros);
      assert sign + front + Repeat('0', kept) + digits == sign + (front + Repeat('0', kept) + digits);
      assert sign + prefix + Repeat('0', zeros) + numeral == sign + (Repeat('0', zeros) + numeral);
    }
  }

  lemma ZerosMerge(front: string, kept: string, digits: string, numeral: string, zeros: nat)
    requires front == Repeat('0', |front|) && kept == Repeat('0', |kept|)
    requires |front| + |kept| + |digits| == zeros + |numeral|
    requires digits == numeral || (numeral == "" && digits == "0")
    ensures front + kept + digits == Repeat('0', zeros) + numeral
  {
  }

  /** What PrintIntegerFinalization prints, in terms of the uncapped buffer. */
  lemma PrintedShape(f: IntField)
    requires Base(f.base)
    ensures var shown := Uncapped(f)[|Uncapped(f)| - Min(|Uncapped(f)|, BUFFER_SIZE)..];
            Printed(f) == if f.flags.left || !f.flags.zeroPad then Padded(shown, f.width, f.flags.left) else shown
  {
    var stored := StoredUnsigned(StoredDigits(f), f.base, f.precision, StoredWidth(f), StoredFlags(f))
                  + Sign(f.negative, StoredFlags(f));
    assert Reverse(Capped(stored)) == Uncapped(f)[|Uncapped(f)| - Min(|Uncapped(f)|, BUFFER_SIZE)..];
  }

  lemma FittingField(f: IntField)
    requires Producible(f) && |Core(f)| <= BUFFER_SIZE
    requires !(f.base == 2 && f.value == 0 && f.flags.hash && f.flags.precision)
    ensures Printed(f) == Rendered(f)
  {
    FittingCore(f);
    PrintedShape(f);
    assert Uncapped(f)[0..] == Core(f);
  }

  // -------------------------------------------------------- the corner cases

  /** Zero in base 2 with '#' and a precision: what is stored, reversed. */
  lemma BinaryZero(f: IntField)
    requires Producible(f) && f.base == 2 && f.value == 0 && f.flags.hash && f.flags.precision
    ensures Core(f) == Repeat('0', f.precision)
    ensures Uncapped(f) == "0b" + Repeat('0', Min(f.precision, BUFFER_SIZE))
  {
    BinaryZeroCore(f);
    hide Core, Uncapped;
    UncappedShape(f);
    assert FrontPrefix(f) == "0b" && StoredDigits(f) == "";
  }

  lemma BinaryZeroCore(f: IntField)
    requires Producible(f) && f.base == 2 && f.value == 0 && f.flags.hash && f.flags.precision
    ensures Core(f) == Repeat('0', f.precision)
  {
    hide Core;
    CoreShape(f);
  }

  lemma BinaryZeroField(f: IntField)
    requires Producible(f) && f.base == 2 && f.value == 0 && f.flags.hash && f.flags.precision
    requires f.precision <= BUFFER_SIZE
    ensures Printed(f) == Rendered(f) <==> f.precision == BUFFER_SIZE
  {
    BinaryZero(f);
    PrintedShape(f);
    var u := Uncapped(f);
    var shown := u[|u| - Min(|u|, BUFFER_SIZE)..];
    if f.precision == BUFFER_SIZE {
      assert shown == Core(f);
    } else {
      // the 'b' of the prefix is printed, and the rendered field has none
      assert shown[|shown| - f.precision - 1] == 'b';
      BreaksField(shown, Core(f), f.width, f.flags.left, |shown| - f.precision - 1);
    }
  }

  lemma BreaksField(shown: string, core: string, width: nat, left: bool, k: nat)
    requires k < |shown| && shown[k] == 'b'
    requires core == Repeat('0', |core|)
    ensures Padded(shown, width, left) != Padded(core, width, left)
  {
    var at := if left then k else |Padded(shown, width, left)| - |shown| + k;
    assert Padded(shown, width, left)[at] == 'b';
    assert forall i :: 0 <= i < |Padded(core, width, left)| ==> Padded(core, width, left)[i] != 'b';
  }

  /** Only a space sign puts a space into the core, and only in front. */
  lemma CoreCharacters(f: IntField)
    requires Base(f.base)
    ensures forall i :: 0 <= i < |Core(f)| ==> Core(f)[i] == ' ' ==> i == 0 && Sign(f.negative, f.flags) == " "
  {
    var prefix := Prefix(f);
    assert forall i :: 0 <= i < |prefix| ==> prefix[i] != ' ';
    hide Core, Prefix, LeadZeros, Numeral, Repeat;
    CoreShape(f);
    NumeralCharacters(f.value, f.base);
    SpacesInFront(Sign(f.negative, f.flags), prefix, Repeat('0', LeadZeros(f)), Numeral(f.value, f.base));
  }

  lemma SpacesInFront(a: string, b: string, c: string, d: string)
    requires forall i :: 0 <= i < |b| ==> b[i] != ' '
    requires forall i :: 0 <= i < |c| ==> c[i] != ' '
    requires forall i :: 0 <= i < |d| ==> d[i] >= '0'
    ensures forall i :: |a| <= i < |a + b + c + d| ==> (a + b + c + d)[i] != ' '
    ensures a != "" ==> (a + b + c + d)[0] == a[0]
  {
  }

  lemma CoreLimits(f: IntField)
    requires Producible(f) && |Core(f)| > BUFFER_SIZE && Sign(f.negative, f.flags) == " " && !f.flags.zeroPad
    ensures f.flags.precision && |Core(f)| == f.precision + 1
    ensures Core(f) == " " + Repeat('0', f.precision - |Numeral(f.value, f.base)|) + Numeral(f.value, f.base)
  {
    CoreShape(f);
    NumeralLength64(f.value, f.base);
  }

  lemma SpaceSignShape(f: IntField)
    requires Producible(f) && |Core(f)| == BUFFER_SIZE + 1 && f.flags.precision && |Core(f)| == f.precision + 1
    requires Sign(f.negative, f.flags) == " "
    ensures FrontPrefix(f) == "" && Reverse(StoredDigits(f)) == Numeral(f.value, f.base)
    ensures KeptZeros(f) == f.precision - |Numeral(f.value, f.base)|
  {
    LowDigitsReversed(f.value, f.base);
    NumeralLength64(f.value, f.base);
    assert |LowDigits(f.value, f.base)| == |Numeral(f.value, f.base)|;
    hide Core, Numeral;
  }

  lemma SpaceSignUncapped(f: IntField)
    requires Producible(f) && |Core(f)| == BUFFER_SIZE + 1 && Sign(f.negative, f.flags) == " " && !f.flags.zeroPad
    ensures Uncapped(f) == Core(f) && Core(f)[0] == ' '
  {
    CoreLimits(f);
    SpaceSignShape(f);
    UncappedShape(f);
    hide Core, Numeral, Uncapped, FrontPrefix, KeptZeros, StoredDigits, Producible, Repeat;
    assert " " + "" + Repeat('0', KeptZeros(f)) == " " + Repeat('0', KeptZeros(f));
  }

  lemma LeadingSpace(s: string, width: nat)
    requires s != "" && s[0] == ' ' && |s| <= width
    ensures Padded(s, width, false) == Padded(s[1..], width, false)
  {
    hide Repeat;
    var n := width - |s|;
    RepeatAdd(' ', n, 1);
    assert s == Repeat(' ', 1) + s[1..];
    assert Repeat(' ', n) + (Repeat(' ', 1) + s[1..]) == Repeat(' ', n) + Repeat(' ', 1) + s[1..];
  }

  /** A dropped space sign shows as one more padding space. */
  lemma SpaceSignField(f: IntField)
    requires Producible(f) && |Core(f)| == BUFFER_SIZE + 1 <= f.width
    requires Sign(f.negative, f.flags) == " " && !f.flags.left && !f.flags.zeroPad
    ensures Printed(f) == Rendered(f)
  {
    SpaceSignUncapped(f);
    PrintedShape(f);
    hide Core, Uncapped, Printed, Padded, Producible;
    LeadingSpace(Core(f), f.width);
  }

  /** A field whose core does not fit is never printed right, whatever its padding. */
  lemma OverlongField(f: IntField)
    requires Producible(f) && |Core(f)| > BUFFER_SIZE
    requires Sign(f.negative, f.flags) == " " ==> |Core(f)| > BUFFER_SIZE + 1 || f.flags.left || f.flags.zeroPad || f.width <= BUFFER_SIZE
    ensures Printed(f) != Rendered(f)
  {
    PrintedShape(f);
    CoreCharacters(f);
    hide Core, Uncapped, Printed, Producible;
    var printed, rendered, core := Printed(f), Rendered(f), Core(f);
    if |printed| == |rendered| {
      assert f.flags.left || !f.flags.zeroPad;
      assert f.width >= |core|;
      if f.flags.left {
        var k := |core| - 1;
        assert printed[k] == ' ' && rendered[k] == core[k];
      } else {
        var k := f.width - |core|;
        assert printed[k] == ' ' && rendered[k] == core[0];
        if Sign(f.negative, f.flags) == " " {
          assert printed[k + 1] == ' ' && rendered[k + 1] == core[1];
        }
      }
    }
  }

  /**
   The main result: for every field the format loop can produce, of any value,
   base, precision and width, the reverse-buffer printer prints the rendered
   field if and only if the field is representable.
   */
  lemma PrintedIsRendered(f: IntField)
    requires Producible(f)
    ensures Printed(f) == Rendered(f) <==> Representable(f)
  {
    if f.base == 2 && f.value == 0 && f.flags.hash && f.flags.precision {
      BinaryZero(f);
      if f.precision <= BUFFER_SIZE {
        BinaryZeroField(f);
      } else {
        OverlongField(f);
      }
    } else if |Core(f)| <= BUFFER_SIZE {
      FittingField(f);
    } else if Representable(f) {
      SpaceSignField(f);
    } else {
      OverlongField(f);
    }
  }

  // ------------------------------------------------------------ consequences

  /** The plain bounds under which every field is the plain rendering. */
  lemma WithinBounds(f: IntField)
    requires Producible(f)
    requires f.precision <= 30 && (f.flags.zeroPad ==> f.width <= BUFFER_SIZE)
    requires f.base == 2 ==> f.value < 0x4000_0000 && !(f.value == 0 && f.flags.hash && f.flags.precision)
    ensures Printed(f) == Rendered(f)
  {
    CoreShape(f);
    if f.base == 2 {
      PowConstants();
      NumeralLength(f.value, 2, 30);
    } else {
      NumeralLength64(f.value, f.base);
    }
    hide Core, Numeral, Printed, Rendered, Pow;
    PrintedIsRendered(f);
  }

  /** The field is as wide as asked for, or as its sign, prefix and digits. */
  lemma FieldLength(f: IntField)
    requires Producible(f) && Representable(f)
    ensures |Printed(f)| == Max(f.width, |Sign(f.negative, f.flags)| + |Prefix(f)| + |Digits(f)|)
  {
    PrintedIsRendered(f);
  }

  /** The digits printed for value v denote v itself, or v modulo 2^32 in base 2. */
  lemma StoredDigitsDenote(f: IntField)
    requires Base(f.base)
    ensures var v := Value(DigitValues(Reverse(StoredDigits(f))), f.base);
            v == if f.base == 2 then f.value % TWO32 else f.value
  {
    if f.value == 0 {
      assert DigitValues(Reverse("0")) == [0] == [0] + [];
      assert DigitValues(Reverse("")) == [];
      LeadingZeros([0], [], f.base);
    } else {
      LastDigitsDenote(f.value, f.base, BUFFER_SIZE);
      assert LastDigits(f.value, f.base, BUFFER_SIZE) == Reverse(StoredDigits(f));
      ModuloBuffer(f.value, f.base);
    }
  }

  /** Only in base 2 can a 64-bit value need more than 32 digits. */
  lemma ModuloBuffer(v: uint64, base: nat)
    requires Base(base)
    ensures Pow(base, BUFFER_SIZE) > 0
    ensures v % Pow(base, BUFFER_SIZE) == if base == 2 then v % TWO32 else v
  {
    PowConstants();
    if base != 2 {
      PowBaseMono(8, base, 22);
      PowMono(base, 22, 32);
      ModUnique(v, Pow(base, 32), 0, v);
    }
  }

  /** The field of a plain `%p`: 18 columns, zero padded, always with a prefix. */
  function PointerField(address: uint64): IntField {
    IntField(address, false, 16, 0, 18, Flags(true, false, false, false, false, false, false, true))
  }

  lemma PointerText(address: uint64)
    ensures var s := Printed(PointerField(address));
            && |s| == 18 && s[..2] == "0x"
            && Value(DigitValues(s[2..]), 16) == address
  {
    var zeros := LeadZeros(PointerField(address));
    PointerShape(address);
    PointerZeros(address);
    ZerosThenNumeral(zeros, address, 16);
    assert Printed(PointerField(address))[2..] == Repeat('0', zeros) + Numeral(address, 16);
  }

  lemma FullCore(f: IntField)
    requires Base(f.base) && f.width <= |Core(f)|
    ensures Rendered(f) == Core(f)
  {
  }

  lemma PointerShape(address: uint64)
    ensures var f := PointerField(address);
            Printed(f) == "0x" + (Repeat('0', LeadZeros(f)) + Numeral(address, 16))
  {
    var f := PointerField(address);
    PointerZeros(address);
    hide Printed, Rendered, Core, LeadZeros, Numeral;
    CoreShape(f);
    FullCore(f);
    PrintedIsRendered(f);
  }

  lemma PointerZeros(address: uint64)
    ensures LeadZeros(PointerField(address)) + |Numeral(address, 16)| == 16
  {
    NumeralLength64(address, 16);
  }

  lemma ZerosThenNumeral(zeros: nat, v: nat, base: nat)
    requires 2 <= base <= 16
    ensures Value(DigitValues(Repeat('0', zeros) + Numeral(v, base)), base) == v
  {
    var z, n := Repeat('0', zeros), Numeral(v, base);
    assert DigitValues(z + n) == DigitValues(z) + DigitValues(n);
    LeadingZeros(DigitValues(z), DigitValues(n), base);
    NumeralDenotes(v, base);
  }
}
