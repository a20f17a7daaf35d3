/**
 What the integer conversions print.

 `Rendered` is the plain left-to-right field: sign, prefix, zeros and digits,
 padded with spaces. `Standard` is the field that section 7.21.6.1 of ISO C11
 asks for; it differs in the lower-case digits of `%x`. `Printed` is the field
 the kernel really produces: digits stored back to front in 32 bytes, zero
 padding partly taken back to make room for the prefix, the whole reversed at
 the end. `PrintedIsRendered` and `PrintedIsStandard` say exactly when these
 agree.
 */
module IntegerSpec {
  import opened CTypes
  import opened Numerals

  const BUFFER_SIZE: nat := 32

  /** The FLAGS_ bits the integer printer looks at. */
  datatype Flags = Flags(zeroPad: bool, left: bool, plus: bool, space: bool, hash: bool,
                         upper: bool, precision: bool, pointer: bool)

  datatype IntField = IntField(value: uint64, negative: bool, base: nat,
                               precision: nat, width: nat, flags: Flags)

  predicate Base(base: nat) {
    base == 2 || base == 8 || base == 10 || base == 16
  }

  // -------------------------------------------------- Rendered and Standard

  function Sign(negative: bool, flags: Flags): (s: string) {
    if negative then "-" else if flags.plus then "+" else if flags.space then " " else ""
  }

  /** `0x`, `0X` or `0b`; the octal alternative form is a digit, not a prefix. */
  function AltPrefix(base: nat, upper: bool): (s: string) {
    if base == 16 then (if upper then "0X" else "0x") else if base == 2 then "0b" else ""
  }

  function Prefix(f: IntField): (s: string) {
    if f.flags.pointer || (f.flags.hash && f.value != 0) then AltPrefix(f.base, f.flags.upper) else ""
  }

  /** The numeral with at least `precision` digits (one when no precision is given). */
  function PrecisionDigits(f: IntField): (s: string)
    requires Base(f.base)
  {
    var numeral := Numeral(f.value, f.base);
    Repeat('0', (if f.flags.precision then f.precision else 1) - |numeral|) + numeral
  }

  function Digits(f: IntField): (s: string)
    requires Base(f.base)
  {
    var d := PrecisionDigits(f);
    if f.flags.hash && f.base == 8 && (d == "" || d[0] != '0') then "0" + d else d
  }

  /** Text padded with spaces to at least width characters. */
  function Padded(text: string, width: nat, left: bool): (s: string)
    ensures |s| == Max(width, |text|)
  {
    if left then text + Repeat(' ', width - |text|) else Repeat(' ', width - |text|) + text
  }

  /** Everything but the space padding: sign, prefix, zeros and the given digits. */
  function Assembled(f: IntField, digits: string): (s: string) {
    var lead := Sign(f.negative, f.flags) + Prefix(f);
    var fill := if f.flags.zeroPad && !f.flags.left && !f.flags.precision
                then f.width - |lead| - |digits| else 0;
    lead + Repeat('0', fill) + digits
  }

  /** With upper-case digits, as the kernel has them. */
  function Core(f: IntField): (s: string)
    requires Base(f.base)
  {
    Assembled(f, Digits(f))
  }

  function Rendered(f: IntField): (s: string)
    requires Base(f.base)
  {
    Padded(Core(f), f.width, f.flags.left)
  }

  function Lower(c: char): char {
    if 'A' <= c <= 'F' then 'a' + (c - 'A') else c
  }

  /** The letters abcdef instead of ABCDEF. */
  function LowerCase(s: string): (r: string)
    ensures |r| == |s|
    ensures forall i :: 0 <= i < |s| ==> r[i] == Lower(s[i])
  {
    seq(|s|, i requires 0 <= i < |s| => Lower(s[i]))
  }

  /** `%x` uses the letters abcdef, `%X` the letters ABCDEF. */
  function StandardDigits(f: IntField): (s: string)
    requires Base(f.base)
  {
    if f.flags.upper then Digits(f) else LowerCase(Digits(f))
  }

  function Standard(f: IntField): (s: string)
    requires Base(f.base)
  {
    Padded(Assembled(f, StandardDigits(f)), f.width, f.flags.left)
  }

  // ----------------------------------------------------------------- Printed

  /** The first 32 characters: nothing is ever stored past the buffer. */
  function Capped(s: string): (r: string) {
    s[..Min(|s|, BUFFER_SIZE)]
  }

  /** printInt: the digits as stored, least significant first. */
  function StoredDigits(f: IntField): (s: string)
    requires Base(f.base)
    ensures |s| <= BUFFER_SIZE
  {
    if f.value != 0 then Capped(LowDigits(f.value, f.base))
    else if f.flags.precision then "" else "0"
  }

  /** printInt: a zero value drops the '#' flag, except in base 2, 8, 10 with a precision. */
  function StoredFlags(f: IntField): Flags {
    if f.value == 0 && (!f.flags.precision || f.base == 16) then f.flags.(hash := false) else f.flags
  }

  /** printIntegerFinalization: a sign takes one column away from the zero padding. */
  function PadWidth(negative: bool, width: nat, flags: Flags): nat {
    if !flags.left && width > 0 && flags.zeroPad && (negative || flags.plus || flags.space)
    then width - 1 else width
  }

  /** How many zeros the two padding loops append to n stored digits. */
  function PadZeros(n: nat, padWidth: nat, precision: nat, flags: Flags): nat {
    var target := Max(if flags.zeroPad && !flags.left then padWidth else 0, precision);
    Max(0, Min(target, BUFFER_SIZE) - n)
  }

  predicate WantsPrefix(zeros: nat, base: nat, flags: Flags) {
    (flags.hash && !(base == 8 && zeros > 0)) || flags.pointer
  }

  /** How many of the padding zeros are taken back again for the prefix. */
  function TakenBack(n: nat, zeros: nat, base: nat, padWidth: nat, precision: nat, flags: Flags): (t: nat)
    ensures t <= zeros
  {
    var len := n + zeros;
    if WantsPrefix(zeros, base, flags) && !flags.precision && len > 0 && (len == precision || len == padWidth)
    then Min(zeros, if base == 16 || base == 2 then 2 else 1) else 0
  }

  /** The prefix as it is stored, back to front. */
  function StoredPrefix(base: nat, flags: Flags): (s: string) {
    (if base == 16 then (if flags.upper then "X" else "x") else if base == 2 then "b" else "") + "0"
  }

  /** Digits, the padding zeros that are left, and the prefix, before the cap. */
  function StoredUnsigned(digits: string, base: nat, precision: nat, padWidth: nat, flags: Flags): (s: string) {
    var zeros := PadZeros(|digits|, padWidth, precision, flags);
    var kept := zeros - TakenBack(|digits|, zeros, base, padWidth, precision, flags);
    digits + Repeat('0', kept) + if WantsPrefix(zeros, base, flags) then StoredPrefix(base, flags) else ""
  }

  /** The buffer that printIntegerFinalization hands to outRev_. */
  function StoredField(digits: string, negative: bool, base: nat, precision: nat, width: nat, flags: Flags): (s: string)
    ensures |s| <= BUFFER_SIZE
  {
    Capped(StoredUnsigned(digits, base, precision, PadWidth(negative, width, flags), flags) + Sign(negative, flags))
  }

  /** outRev_: the stored characters reversed, with space padding around them. */
  function Reversed(stored: string, width: nat, flags: Flags): (s: string) {
    if flags.left || !flags.zeroPad then Padded(Reverse(stored), width, flags.left) else Reverse(stored)
  }

  function Finalized(digits: string, negative: bool, base: nat, precision: nat, width: nat, flags: Flags): (s: string) {
    Reversed(StoredField(digits, negative, base, precision, width, flags), PadWidth(negative, width, flags), flags)
  }

  function Printed(f: IntField): (s: string)
    requires Base(f.base)
  {
    Finalized(StoredDigits(f), f.negative, f.base, f.precision, f.width, StoredFlags(f))
  }
}
