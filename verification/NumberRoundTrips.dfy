/** Numbers that one file writes and another reads. */
module NumberRoundTrips {
  import opened CTypes
  import opened Numerals
  import opened CStrings
  import opened IntegerSpec
  import opened IntegerLaws
  import opened FormatSpec
  import Ramfs

  // ------------------------------------------------------ %u, atou_ and atoi

  function UnsignedField(v: uint32): (f: IntField)
    ensures Base(f.base)
  {
    IntField(v, false, 10, 0, 0, Flags(false, false, false, false, false, false, false, false))
  }

  lemma UnsignedRendered(v: uint32)
    ensures Rendered(UnsignedField(v)) == Written(v, 10)
  {
    hide Core, Rendered, Numeral;
    var f := UnsignedField(v);
    CoreShape(f);
    FullCore(f);
    assert Prefix(f) == "" && LeadZeros(f) == if v == 0 then 1 else 0;
    assert Repeat('0', 1) == "0" && Repeat('0', 0) == "";
  }

  /** A plain `%u` prints the decimal numeral of its argument. */
  lemma UnsignedDirective(v: uint32, args: seq<Arg>, pos: nat)
    ensures Expand(Kernel, Directive(NoFlags, NoWidth, NoPrecision, NoLength, 'u'), [Word32(v)] + args, pos)
            == Effect(Written(v, 10), [], args)
  {
    UnsignedRendered(v);
    hide Printed, Rendered, Representable, Written;
    WithinBounds(UnsignedField(v));
    assert ([Word32(v)] + args)[1..] == args;
    assert IntegerField(Resolved(NoFlags, 0, false, 0), NoLength, 'u', v) == UnsignedField(v) by {
      ModUnique(v, TWO32, 0, v);
    }
  }

  lemma WrittenReads(v: uint32)
    ensures Decimal(Written(v, 10)) && Decimal32(Written(v, 10)) == v
    ensures v < 0x8000_0000 ==> AtoiValue(Written(v, 10)) == v
  {
    WrittenDenotes(v, 10);
    hide Value, Offsets, Written, Decimal;
    ModUnique(v, TWO32, 0, v);
    if v < 0x8000_0000 {
      ModUnique(v + 0x8000_0000, TWO32, 0, v + 0x8000_0000);
    }
  }

  /** atou_ recovers every unsigned int that `%u` printed, atoi every one below 2^31. */
  lemma UnsignedReadBack(v: uint32, pos: nat)
    ensures var e := Expand(Kernel, Directive(NoFlags, NoWidth, NoPrecision, NoLength, 'u'), [Word32(v)], pos);
            && e.Effect? && Decimal(e.text) && Decimal32(e.text) == v
            && (v < 0x8000_0000 ==> AtoiValue(e.text) == v)
  {
    hide Expand, Written, Decimal32, AtoiValue, Decimal;
    UnsignedDirective(v, [], pos);
    assert [Word32(v)] + [] == [Word32(v)];
    WrittenReads(v);
  }

  // ---------------------------------------------------------------- %p

  /** A plain `%p` prints 18 characters, `0x` and 16 digits that denote the address. */
  lemma PointerReadBack(address: uint64, pos: nat)
    ensures var e := Expand(Kernel, Directive(NoFlags, NoWidth, NoPrecision, NoLength, 'p'), [Pointer(address)], pos);
            && e.Effect? && e.rest == [] && |e.text| == 18 && e.text[..2] == "0x"
            && Value(DigitValues(e.text[2..]), 16) == address
  {
    hide Printed, Value, DigitValues;
    assert [Pointer(address)][1..] == [];
    assert AddressField(Resolved(NoFlags, 0, false, 0), address) == PointerField(address);
    PointerText(address);
  }

  // ------------------------------------------------------ %011o and getsize

  function SizeField(v: uint32): (f: IntField)
    ensures Base(f.base)
  {
    IntField(v, false, 8, 0, 11, Flags(true, false, false, false, false, false, false, false))
  }

  lemma SizeRendered(v: uint32)
    ensures Rendered(SizeField(v)) == Ramfs.OctalText(v)
  {
    hide Core, Rendered, Numeral, Pow;
    var f := SizeField(v);
    PowConstants();
    NumeralLength(v, 8, 11);
    CoreShape(f);
    assert Prefix(f) == "" && LeadZeros(f) + |Numeral(v, 8)| == 11;
    FullCore(f);
    assert "" + "" + Repeat('0', LeadZeros(f)) + Numeral(v, 8) == Repeat('0', LeadZeros(f)) + Numeral(v, 8);
  }

  /** `%011o` prints the size field of an archive header. */
  lemma SizeDirective(v: uint32, args: seq<Arg>, pos: nat)
    ensures Expand(Kernel, Directive(NoFlags.(zeroPad := true), Width(11), NoPrecision, NoLength, 'o'),
                   [Word32(v)] + args, pos)
            == Effect(Ramfs.OctalText(v), [], args)
  {
    SizeRendered(v);
    hide Printed, Rendered, Representable, Ramfs.OctalText;
    WithinBounds(SizeField(v));
    assert ([Word32(v)] + args)[1..] == args;
    assert IntegerField(Resolved(NoFlags.(zeroPad := true), 11, false, 0), NoLength, 'o', v) == SizeField(v) by {
      ModUnique(v, TWO32, 0, v);
    }
  }

  /** getsize recovers every 32-bit size that `%011o` printed. */
  lemma SizeReadBack(v: uint32, pos: nat)
    ensures var e := Expand(Kernel, Directive(NoFlags.(zeroPad := true), Width(11), NoPrecision, NoLength, 'o'),
                            [Word32(v)], pos);
            e.Effect? && |e.text| == 11 && Ramfs.OctalValue(Ramfs.Ascii(e.text)) == v
  {
    hide Expand, Ramfs.OctalText;
    SizeDirective(v, [], pos);
    assert [Word32(v)] + [] == [Word32(v)];
    Ramfs.OctalTextReads(v);
  }
}
