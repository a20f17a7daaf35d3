/**
 When the kernel's integer field is the one ISO C asks for. Beyond the limits
 of the buffer there are two departures: `%x` prints upper-case letters, and a
 negative precision argument counts as 0 where ISO C takes it as omitted.
 */
module StandardLaws {
  import opened CTypes
  import opened Numerals
  import opened IntegerSpec
  import opened IntegerLaws

  // ------------------------------------------------------- the case of digits

  /** No hexadecimal digit of v is a letter. */
  predicate LetterFree(v: nat) {
    v == 0 || (v % 16 < 10 && LetterFree(v / 16))
  }

  /** The case of the digits does not show. */
  predicate CaseAgrees(f: IntField) {
    f.base == 16 && !f.flags.upper ==> LetterFree(f.value)
  }

  /** The letters abcdef are not in s. */
  predicate LowerFree(s: string) {
    forall i :: 0 <= i < |s| ==> !('a' <= s[i] <= 'f')
  }

  predicate UpperFree(s: string) {
    forall i :: 0 <= i < |s| ==> !('A' <= s[i] <= 'F')
  }

  /** The sixteen digits of `%x` in ISO C, against those of `%X`. */
  lemma LowerDigits(d: nat)
    requires d < 16
    ensures LowerCase([Digit(d)]) == ["0123456789abcdef"[d]]
  {
    DigitCharacters(d);
    if d < 10 {
      assert "0123456789abcdef"[d] == '0' + d as char;
    } else {
      assert "0123456789abcdef"[d] == 'a' + (d - 10) as char;
    }
  }

  lemma LowerFreeJoin(a: string, b: string)
    ensures LowerFree(a + b) <==> LowerFree(a) && LowerFree(b)
  {
    assert forall i :: 0 <= i < |a| ==> (a + b)[i] == a[i];
    assert forall i :: 0 <= i < |b| ==> (a + b)[|a| + i] == b[i];
  }

  lemma UpperFreeJoin(a: string, b: string)
    ensures UpperFree(a + b) <==> UpperFree(a) && UpperFree(b)
  {
    assert forall i :: 0 <= i < |a| ==> (a + b)[i] == a[i];
    assert forall i :: 0 <= i < |b| ==> (a + b)[|a| + i] == b[i];
  }

  lemma LowerFreePadded(s: string, width: nat, left: bool)
    ensures LowerFree(Padded(s, width, left)) <==> LowerFree(s)
  {
    var spaces := Repeat(' ', width - |s|);
    LowerFreeJoin(s, spaces);
    LowerFreeJoin(spaces, s);
  }

  lemma LowerCaseFree(s: string)
    ensures !UpperFree(s) ==> !LowerFree(LowerCase(s))
    ensures UpperFree(s) ==> LowerCase(s) == s
  {
    if i :| 0 <= i < |s| && 'A' <= s[i] <= 'F' {
      assert 'a' <= LowerCase(s)[i] <= 'f';
    }
  }

  lemma {:induction false} HexLetters(v: nat)
    ensures LetterFree(v) <==> UpperFree(Numeral(v, 16))
    ensures LowerFree(LowDigits(v, 16))
  {
    if v != 0 {
      HexLetters(v / 16);
      UpperFreeJoin(Numeral(v / 16, 16), [Digit(v % 16)]);
      LowerFreeJoin([Digit(v % 16)], LowDigits(v / 16, 16));
      assert [Digit(v % 16)][0] == Digit(v % 16);
    }
  }

  lemma DecimalUpperFree(s: string)
    requires Decimal(s)
    ensures UpperFree(s)
  {
  }

  /** Zeros, and digits below ten, have no case. */
  lemma DigitsCase(f: IntField)
    requires Base(f.base)
    ensures UpperFree(Digits(f)) <==> f.base != 16 || LetterFree(f.value)
  {
    var numeral := Numeral(f.value, f.base);
    DigitsShape(f);
    UpperFreeJoin(Repeat('0', |Digits(f)| - |numeral|), numeral);
    if f.base == 16 {
      HexLetters(f.value);
    } else {
      NumeralDecimal(f.value, f.base);
      DecimalUpperFree(numeral);
    }
  }

  lemma StandardCase(f: IntField)
    requires Base(f.base)
    ensures CaseAgrees(f) ==> Standard(f) == Rendered(f)
    ensures !CaseAgrees(f) ==> !LowerFree(Standard(f))
  {
    hide Digits, LowerFree, UpperFree, LetterFree;
    DigitsCase(f);
    LowerCaseFree(Digits(f));
    if !CaseAgrees(f) {
      var core := Assembled(f, StandardDigits(f));
      var front := Sign(f.negative, f.flags) + Prefix(f)
                   + Repeat('0', |core| - |Sign(f.negative, f.flags)| - |Prefix(f)| - |Digits(f)|);
      assert core == front + StandardDigits(f);
      LowerFreeJoin(front, StandardDigits(f));
      LowerFreePadded(core, f.width, f.flags.left);
    }
  }

  lemma LowerFreeReverse(s: string)
    requires LowerFree(s)
    ensures LowerFree(Reverse(s))
  {
  }

  /** The kernel never prints a lower-case letter in base 16. */
  lemma PrintedLowerFree(f: IntField)
    requires f.base == 16
    ensures LowerFree(Printed(f))
  {
    UncappedLowerFree(f);
    PrintedShape(f);
    hide Uncapped, Printed, LowerFree, Padded;
    var u := Uncapped(f);
    var n := |u| - Min(|u|, BUFFER_SIZE);
    LowerFreeJoin(u[..n], u[n..]);
    assert u == u[..n] + u[n..];
    LowerFreePadded(u[n..], f.width, f.flags.left);
  }

  lemma UncappedLowerFree(f: IntField)
    requires f.base == 16
    ensures LowerFree(Uncapped(f))
  {
    StoredLowerFree(f);
    UncappedShape(f);
    hide Uncapped, StoredDigits, FrontPrefix, KeptZeros, LowerFree, Repeat;
    var sign, prefix, zeros := Sign(f.negative, f.flags), FrontPrefix(f), Repeat('0', KeptZeros(f));
    LowerFreeJoin(sign, prefix);
    LowerFreeJoin(sign + prefix, zeros);
    LowerFreeJoin(sign + prefix + zeros, Reverse(StoredDigits(f)));
  }

  lemma StoredLowerFree(f: IntField)
    requires f.base == 16
    ensures LowerFree(Sign(f.negative, f.flags)) && LowerFree(FrontPrefix(f)) && LowerFree(Repeat('0', KeptZeros(f)))
    ensures LowerFree(Reverse(StoredDigits(f)))
  {
    HexLetters(f.value);
    assert LowerFree(StoredDigits(f));
    LowerFreeReverse(StoredDigits(f));
    hide KeptZeros, StoredDigits;
  }

  /**
   The kernel prints the field that ISO C asks for if and only if the field is
   representable and, for `%x`, no digit is a letter.
   */
  lemma PrintedIsStandard(f: IntField)
    requires Producible(f)
    ensures Printed(f) == Standard(f) <==> Representable(f) && CaseAgrees(f)
  {
    assert Base(f.base);
    hide Printed, Rendered, Standard, Representable, Producible, CaseAgrees, LowerFree;
    PrintedIsRendered(f);
    StandardCase(f);
    if !CaseAgrees(f) {
      CaseHex(f);
      PrintedLowerFree(f);
    }
  }

  lemma CaseHex(f: IntField)
    requires !CaseAgrees(f)
    ensures f.base == 16
  {
  }

  // --------------------------------------------------- a precision that is 0

  /** The field f without its precision; the flag '0' counts again. */
  function Unprecise(f: IntField, zeroPad: bool): (g: IntField) {
    f.(flags := f.flags.(precision := false, zeroPad := zeroPad))
  }

  /** Whether precision 0 or none at all is given makes no difference. */
  predicate PrecisionIdle(f: IntField, zeroPad: bool)
    requires Base(f.base)
  {
    && (f.value != 0 || (f.base == 8 && f.flags.hash))
    && (zeroPad && !f.flags.left ==> f.width <= |Core(f)|)
  }

  predicate ZeroPrecision(f: IntField) {
    Producible(f) && f.flags.precision && f.precision == 0
  }

  lemma UnpreciseDigits(f: IntField, zeroPad: bool)
    requires ZeroPrecision(f)
    ensures f.value != 0 || (f.base == 8 && f.flags.hash) ==> Digits(Unprecise(f, zeroPad)) == Digits(f)
    ensures !(f.value != 0 || (f.base == 8 && f.flags.hash)) ==> Digits(f) == "" && Digits(Unprecise(f, zeroPad)) == "0"
  {
    if f.value != 0 {
      DigitsShape(f);
      DigitsShape(Unprecise(f, zeroPad));
    }
  }

  lemma IdleRendering(f: IntField, zeroPad: bool)
    requires ZeroPrecision(f) && PrecisionIdle(f, zeroPad)
    ensures Rendered(Unprecise(f, zeroPad)) == Rendered(f)
    ensures Standard(Unprecise(f, zeroPad)) == Standard(f)
  {
    hide Digits;
    UnpreciseDigits(f, zeroPad);
  }

  /** Zero padding that a precision would suppress shows at the front of the field. */
  lemma ZeroFillShows(f: IntField, zeroPad: bool)
    requires ZeroPrecision(f) && (f.value != 0 || (f.base == 8 && f.flags.hash))
    requires zeroPad && !f.flags.left && f.width > |Core(f)|
    ensures Rendered(Unprecise(f, zeroPad)) != Rendered(f)
    ensures f.base != 10 ==> Rendered(Unprecise(f, zeroPad))[0] != ' '
  {
    var g := Unprecise(f, zeroPad);
    UnpreciseDigits(f, zeroPad);
    hide Digits;
    var sign := Sign(f.negative, f.flags);
    assert Prefix(f) != "" ==> Prefix(f)[0] != ' ';
    hide Prefix;
    assert Rendered(g) == Core(g);
    assert Core(g)[|sign|] != ' ';
    assert Rendered(f)[0] == ' ';
    assert sign == " " ==> Rendered(f)[1] == ' ';
  }

  lemma ZeroDigitMissing(f: IntField, zeroPad: bool)
    requires ZeroPrecision(f) && f.value == 0 && !(f.base == 8 && f.flags.hash)
    ensures Rendered(Unprecise(f, zeroPad)) != Rendered(f)
  {
    var g := Unprecise(f, zeroPad);
    UnpreciseDigits(f, zeroPad);
    hide Digits;
    assert Core(f) == Sign(f.negative, f.flags);
    var k := if f.flags.left then |Core(g)| - 1 else |Rendered(g)| - 1;
    assert Core(g)[|Core(g)| - 1] == '0' && Rendered(g)[k] == '0';
    assert forall i :: 0 <= i < |Rendered(f)| ==> Rendered(f)[i] != '0';
  }

  /** Precision 0 suppresses the digit of a zero, and that always shows. */
  lemma ZeroDigitShows(f: IntField, zeroPad: bool)
    requires ZeroPrecision(f) && f.value == 0 && !(f.base == 8 && f.flags.hash)
    ensures Printed(f) != Rendered(Unprecise(f, zeroPad))
  {
    if f.base == 2 && f.flags.hash {
      BinaryZero(f);
      PrintedShape(f);
      var core := Core(Unprecise(f, zeroPad));
      UnpreciseDigits(f, zeroPad);
      hide Digits, Printed;
      assert "0b" + Repeat('0', 0) == "0b" && "0b"[0..] == "0b";
      assert core == Repeat('0', |core|);
      BreaksField("0b", core, f.width, f.flags.left, 1);
    } else {
      ZeroDigitMissing(f, zeroPad);
      UnpreciseDigits(f, zeroPad);
      hide Digits, Printed, Rendered;
      PrintedIsRendered(f);
    }
  }

  /** A field of precision 0 that is too long is binary, and its padding consists of spaces. */
  lemma TooLong(f: IntField)
    requires ZeroPrecision(f) && (f.value != 0 || (f.base == 8 && f.flags.hash)) && !Representable(f)
    ensures f.base == 2
    ensures !f.flags.left && f.width > |Core(f)| ==> Printed(f) != "" && Printed(f)[0] == ' '
  {
    CoreShape(f);
    if f.base != 2 {
      NumeralLength64(f.value, f.base);
    }
    PrintedShape(f);
    hide Printed, Core;
  }

  /**
   The same for a precision of 0 that ISO C takes as omitted: the kernel prints
   the right field if and only if, besides, the omission makes no difference.
   */
  lemma PrintedIsUnprecise(f: IntField, zeroPad: bool)
    requires ZeroPrecision(f)
    ensures Printed(f) == Standard(Unprecise(f, zeroPad)) <==>
              Representable(f) && CaseAgrees(f) && PrecisionIdle(f, zeroPad)
  {
    var g := Unprecise(f, zeroPad);
    assert Base(f.base);
    hide Printed, Rendered, Standard, Representable, Producible, LowerFree, LetterFree, Core;
    StandardCase(g);
    if !CaseAgrees(f) {
      PrintedLowerFree(f);
    } else if f.value == 0 && !(f.base == 8 && f.flags.hash) {
      ZeroDigitShows(f, zeroPad);
    } else {
      PrintedIsRendered(f);
      if PrecisionIdle(f, zeroPad) {
        IdleRendering(f, zeroPad);
      } else {
        ZeroFillShows(f, zeroPad);
        if !Representable(f) {
          TooLong(f);
        }
      }
    }
  }
}
