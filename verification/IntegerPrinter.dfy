/**
 The reverse-buffer integer printer of kernel/video/printf.c, in place. Each
 loop or block of printInt and printIntegerFinalization that only fills the
 local buffer is a method of its own.
 */
module IntegerPrinter {
  import opened CTypes
  import opened Numerals
  import opened IntegerSpec
  import opened Gadget

  method PutReversed(g: OutputGadget, buf: seq<char>, len: nat)
    requires g.Valid() && len <= |buf| && |g.log| + len <= g.budget
    modifies g, g.buffer
    ensures g.Valid() && g.log == old(g.log) + Reverse(buf[..len])
  {
    ghost var text := Reverse(buf[..len]);
    var rest := len;
    while rest > 0
      invariant 0 <= rest <= len
      invariant g.Valid() && g.log == old(g.log) + text[..len - rest]
    {
      rest := rest - 1;
      g.Putchar(buf[rest]);
    }
  }

  method PadBefore(g: OutputGadget, len: nat, width: nat)
    requires g.Valid() && |g.log| + Max(width - len, 0) <= g.budget
    modifies g, g.buffer
    ensures g.Valid() && g.log == old(g.log) + Repeat(' ', width - len)
  {
    var i := len;
    while i < width
      invariant len <= i <= Max(len, width)
      invariant g.Valid() && g.log == old(g.log) + Repeat(' ', i - len)
    {
      g.Putchar(' ');
      i := i + 1;
    }
  }

  /** Pads until width columns have been used since startPos, going by the gadget's position. */
  method PadAfter(g: OutputGadget, startPos: nat, width: nat)
    requires g.Valid() && startPos <= g.pos && Max(|g.log|, startPos + width) <= g.budget
    modifies g, g.buffer
    ensures g.Valid() && g.log == old(g.log) + Repeat(' ', width - (old(g.pos) - startPos))
  {
    while g.pos - startPos < width
      invariant old(g.pos) <= g.pos <= Max(old(g.pos), startPos + width)
      invariant g.Valid() && g.log == old(g.log) + Repeat(' ', g.pos - old(g.pos))
      decreases startPos + width - g.pos
    {
      g.Putchar(' ');
    }
  }

  /** Prints the first len characters of buf in reverse, with space padding. */
  method OutRev(g: OutputGadget, buf: seq<char>, len: nat, width: nat, flags: Flags)
    requires g.Valid() && len <= |buf|
    requires |g.log| + |Reversed(buf[..len], width, flags)| <= g.budget
    modifies g, g.buffer
    ensures g.Valid() && g.log == old(g.log) + Reversed(buf[..len], width, flags)
  {
    hide Reverse, Repeat, OutputGadget.Valid;
    var startPos := g.pos;
    ghost var before, text, spaces := g.log, Reverse(buf[..len]), Repeat(' ', width - len);
    if !flags.left && !flags.zeroPad {
      PadBefore(g, len, width);
      assert before + spaces + text == before + (spaces + text);
    }
    PutReversed(g, buf, len);
    if flags.left {
      PadAfter(g, startPos, width);
      assert before + text + spaces == before + (text + spaces);
    }
  }

  /** Zeros up to the limit or the end of the buffer. */
  method StoreZerosTo(buf: array<char>, stored: nat, limit: nat) returns (len: nat)
    requires buf.Length == BUFFER_SIZE && stored <= BUFFER_SIZE
    modifies buf
    ensures len == Max(stored, Min(limit, BUFFER_SIZE))
    ensures buf[..len] == old(buf[..stored]) + Repeat('0', len - stored)
  {
    hide Repeat;
    len := stored;
    while len < limit && len < BUFFER_SIZE
      invariant stored <= len <= Max(stored, Min(limit, BUFFER_SIZE))
      invariant buf[..len] == old(buf[..stored]) + Repeat('0', len - stored)
    {
      buf[len] := '0';
      len := len + 1;
    }
  }

  /** The leading zeros: up to the field width, then up to the precision. */
  method StoreZeros(buf: array<char>, digits: nat, precision: nat, width: nat, flags: Flags) returns (len: nat)
    requires buf.Length == BUFFER_SIZE && digits <= BUFFER_SIZE
    modifies buf
    ensures len == digits + PadZeros(digits, width, precision, flags) <= BUFFER_SIZE
    ensures buf[..len] == old(buf[..digits]) + Repeat('0', len - digits)
  {
    hide Repeat;
    ghost var text := buf[..digits];
    len := digits;
    ZerosJoin(text, 0, 0);
    if !flags.left {
      if flags.zeroPad {
        len := StoreZerosTo(buf, len, width);
      }
    }
    ghost var padded := len;
    len := StoreZerosTo(buf, len, precision);
    ZerosJoin(text, padded - digits, len - padded);
  }

  lemma ZerosJoin(text: string, m: nat, n: nat)
    ensures text + Repeat('0', m) + Repeat('0', n) == text + Repeat('0', m + n)
    ensures text + Repeat('0', 0) == text
  {
  }

  method Store(buf: array<char>, len: nat, c: char) returns (stored: nat)
    requires buf.Length == BUFFER_SIZE && len <= BUFFER_SIZE
    modifies buf
    ensures stored <= BUFFER_SIZE
    ensures buf[..stored] == Capped(old(buf[..len]) + [c])
  {
    stored := len;
    if len < BUFFER_SIZE {
      buf[len] := c;
      stored := len + 1;
    }
  }

  /** The alternative-form prefix, behind what is left of the padding zeros. */
  method StorePrefix(buf: array<char>, padded: nat, digits: nat, base: nat, precision: nat, width: nat, flags: Flags,
                     ghost text: string)
    returns (len: nat)
    requires buf.Length == BUFFER_SIZE && digits == |text| <= padded <= BUFFER_SIZE
    requires buf[..padded] == text + Repeat('0', padded - digits)
    requires Base(base) && WantsPrefix(padded - digits, base, flags)
    modifies buf
    ensures len <= BUFFER_SIZE
    ensures var zeros := padded - digits;
            var kept := zeros - TakenBack(digits, zeros, base, width, precision, flags);
            buf[..len] == Capped(text + Repeat('0', kept) + StoredPrefix(base, flags))
  {
    hide TakenBack, StoredPrefix, Capped;
    len := TakeBack(padded, digits, base, precision, width, flags);
    assert buf[..len] == text + Repeat('0', len - digits);
    len := StorePrefixCharacters(buf, len, base, flags);
  }

  /** Takes back padding zeros to make room for the prefix. */
  method TakeBack(padded: nat, digits: nat, base: nat, precision: nat, width: nat, flags: Flags) returns (len: nat)
    requires digits <= padded && Base(base) && WantsPrefix(padded - digits, base, flags)
    ensures len == padded - TakenBack(digits, padded - digits, base, width, precision, flags)
    ensures digits <= len <= padded
  {
    len := padded;
    if !flags.precision && len > 0 && (len == precision || len == width) {
      if digits < len {
        len := len - 1;
      }
      if len > 0 && (base == 16 || base == 2) && digits < len {
        len := len - 1;
      }
    }
  }

  method StorePrefixCharacters(buf: array<char>, kept: nat, base: nat, flags: Flags) returns (len: nat)
    requires buf.Length == BUFFER_SIZE && kept <= BUFFER_SIZE && Base(base)
    modifies buf
    ensures len <= BUFFER_SIZE
    ensures buf[..len] == Capped(old(buf[..kept]) + StoredPrefix(base, flags))
  {
    len := kept;
    ghost var letter := if base == 16 then (if flags.upper then "X" else "x") else if base == 2 then "b" else "";
    if base == 16 && !flags.upper {
      len := Store(buf, len, 'x');
    } else if base == 16 && flags.upper {
      len := Store(buf, len, 'X');
    } else if base == 2 {
      len := Store(buf, len, 'b');
    }
    assert buf[..len] == Capped(old(buf[..kept]) + letter);
    len := Store(buf, len, '0');
    CappedTwice(old(buf[..kept]) + letter, "0");
    assert old(buf[..kept]) + letter + "0" == old(buf[..kept]) + StoredPrefix(base, flags);
  }

  lemma CappedTwice(a: string, b: string)
    ensures Capped(Capped(a) + b) == Capped(a + b)
  {
  }

  method StoreSign(buf: array<char>, unsigned: nat, negative: bool, flags: Flags) returns (len: nat)
    requires buf.Length == BUFFER_SIZE && unsigned <= BUFFER_SIZE
    modifies buf
    ensures len <= BUFFER_SIZE
    ensures buf[..len] == Capped(old(buf[..unsigned]) + Sign(negative, flags))
  {
    len := unsigned;
    if len < BUFFER_SIZE {
      if negative {
        len := Store(buf, len, '-');
      } else if flags.plus {
        len := Store(buf, len, '+');
      } else if flags.space {
        len := Store(buf, len, ' ');
      }
    }
  }

  /** The zeros and the prefix, in the order printIntegerFinalization stores them. */
  method StoreUnsigned(buf: array<char>, digits: nat, base: nat, precision: nat, width: nat, fieldFlags: Flags)
    returns (len: nat)
    requires buf.Length == BUFFER_SIZE && digits <= BUFFER_SIZE
    requires Base(base)
    modifies buf
    ensures len <= BUFFER_SIZE
    ensures buf[..len] == Capped(StoredUnsigned(old(buf[..digits]), base, precision, width, fieldFlags))
  {
    hide *;
    ghost var text := buf[..digits];
    var flags := fieldFlags;
    len := StoreZeros(buf, digits, precision, width, flags);
    ghost var zeros := len - digits;
    if base == 8 && len > digits {
      // the zeros just written satisfy the alternative form
      flags := flags.(hash := false);
    }
    if flags.hash || flags.pointer {
      WithPrefix(text, zeros, base, precision, width, fieldFlags, flags);
      len := StorePrefix(buf, len, digits, base, precision, width, flags, text);
    } else {
      WithoutPrefix(text, zeros, base, precision, width, fieldFlags, flags);
    }
  }

  lemma WithPrefix(text: string, zeros: nat, base: nat, precision: nat, width: nat, given: Flags, flags: Flags)
    requires zeros == PadZeros(|text|, width, precision, given)
    requires flags == (if base == 8 && zeros > 0 then given.(hash := false) else given)
    requires flags.hash || flags.pointer
    ensures WantsPrefix(zeros, base, flags)
    ensures var kept := zeros - TakenBack(|text|, zeros, base, width, precision, flags);
            StoredUnsigned(text, base, precision, width, given)
            == text + Repeat('0', kept) + StoredPrefix(base, flags)
  {
  }

  lemma WithoutPrefix(text: string, zeros: nat, base: nat, precision: nat, width: nat, given: Flags, flags: Flags)
    requires zeros == PadZeros(|text|, width, precision, given)
    requires flags == (if base == 8 && zeros > 0 then given.(hash := false) else given)
    requires !flags.hash && !flags.pointer
    requires |text| + zeros <= BUFFER_SIZE
    ensures Capped(StoredUnsigned(text, base, precision, width, given)) == text + Repeat('0', zeros)
  {
  }

  /** Everything printIntegerFinalization does before it calls outRev_. */
  method StoreField(buf: array<char>, digits: nat, negative: bool, base: nat, precision: nat, fieldWidth: nat, flags: Flags)
    returns (len: nat, width: nat)
    requires buf.Length == BUFFER_SIZE && digits <= BUFFER_SIZE
    requires Base(base)
    modifies buf
    ensures len <= BUFFER_SIZE && width == PadWidth(negative, fieldWidth, flags)
    ensures buf[..len] == StoredField(old(buf[..digits]), negative, base, precision, fieldWidth, flags)
  {
    width := fieldWidth;
    if !flags.left && width > 0 && flags.zeroPad && (negative || flags.plus || flags.space) {
      width := width - 1;
    }
    ghost var unsigned := StoredUnsigned(buf[..digits], base, precision, width, flags);
    len := StoreUnsigned(buf, digits, base, precision, width, flags);
    len := StoreSign(buf, len, negative, flags);
    CappedTwice(unsigned, Sign(negative, flags));
  }

  /** Adds zeros, prefix and sign to the digits stored in buf, then prints them reversed. */
  method PrintIntegerFinalization(g: OutputGadget, buf: array<char>, digits: nat, negative: bool, base: nat,
                                  precision: nat, width: nat, flags: Flags)
    requires g.Valid() && buf != g.buffer && buf.Length == BUFFER_SIZE && digits <= BUFFER_SIZE
    requires Base(base)
    requires |g.log| + |Finalized(buf[..digits], negative, base, precision, width, flags)| <= g.budget
    modifies g, g.buffer, buf
    ensures g.Valid()
    ensures g.log == old(g.log) + Finalized(old(buf[..digits]), negative, base, precision, width, flags)
  {
    var len, padWidth := StoreField(buf, digits, negative, base, precision, width, flags);
    OutRev(g, buf[..], len, padWidth, flags);
  }

  lemma DigitStep(all: string, stored: string, v: nat, base: nat)
    requires 2 <= base <= 16 && v > 0
    requires all == stored + LowDigits(v, base)
    ensures v / base >= 0
    ensures all == stored + [Digit(v % base)] + LowDigits(v / base, base)
  {
    Shrinks(v, base);
  }

  /** The digit loop of printInt. */
  method StoreDigits(buf: array<char>, value: uint64, base: nat) returns (len: nat)
    requires buf.Length == BUFFER_SIZE && 2 <= base <= 16
    modifies buf
    ensures len <= BUFFER_SIZE && buf[..len] == Capped(LowDigits(value, base))
  {
    var v: nat := value;
    len := 0;
    while v > 0 && len < BUFFER_SIZE
      invariant len <= BUFFER_SIZE
      invariant LowDigits(value, base) == buf[..len] + LowDigits(v, base)
      decreases BUFFER_SIZE - len
    {
      DigitStep(LowDigits(value, base), buf[..len], v, base);
      buf[len] := Digit(v % base);
      len := len + 1;
      v := v / base;
    }
  }

  /** What printInt stores before finalization; a zero value may drop the '#' flag. */
  method StoreValue(buf: array<char>, f: IntField) returns (len: nat, flags: Flags)
    requires buf.Length == BUFFER_SIZE && Base(f.base)
    modifies buf
    ensures len <= BUFFER_SIZE
    ensures buf[..len] == StoredDigits(f) && flags == StoredFlags(f)
  {
    len, flags := 0, f.flags;
    if f.value == 0 {
      if !flags.precision {
        len := Store(buf, len, '0');
        flags := flags.(hash := false);
      } else if f.base == 16 {
        flags := flags.(hash := false);
      }
    } else {
      len := StoreDigits(buf, f.value, f.base);
    }
  }

  /** An internal itoa: stores the digits back to front and finalizes them. */
  method PrintInt(g: OutputGadget, f: IntField)
    requires g.Valid()
    requires Base(f.base)
    requires |g.log| + |Printed(f)| <= g.budget
    modifies g, g.buffer
    ensures g.Valid() && g.log == old(g.log) + Printed(f)
  {
    var buf := new char[BUFFER_SIZE];
    var len, flags := StoreValue(buf, f);
    PrintIntegerFinalization(g, buf, len, f.negative, f.base, f.precision, f.width, flags);
  }
}
