/**
 Format strings: how a directive is read, and the text, write-backs and
 argument consumption of a whole format run (formatStringLoop).
 */
module FormatSpec {
  import opened CTypes
  import opened Numerals
  import opened IntegerSpec

  // --------------------------------------------------------------- directives

  datatype Width = NoWidth | Width(columns: nat) | StarWidth
  datatype Precision = NoPrecision | Precision(digits: nat) | StarPrecision
  datatype Length = NoLength | HH | H | L | LL | T | J | Z
  datatype FlagSet = FlagSet(zeroPad: bool, left: bool, plus: bool, space: bool, hash: bool)

  const NoFlags := FlagSet(false, false, false, false, false)

  datatype Directive = Directive(flags: FlagSet, width: Width, precision: Precision, length: Length, conversion: char)

  /**
   Reading what follows a '%'. `Truncated`: the format ends where the code
   checks for its end, and formatting stops there, after `stars` arguments.
   `Overrun`: the format ends behind flags or digits, where it does not check;
   the loop would step past the terminating NUL.
   */
  datatype Reading = Truncated(stars: nat) | Overrun | Parsed(directive: Directive, rest: string)

  predicate IsFlag(c: char) {
    c == '0' || c == '-' || c == '+' || c == ' ' || c == '#'
  }

  predicate IsDigit(c: char) {
    '0' <= c <= '9'
  }

  /** The length of the longest prefix of flag characters. */
  function FlagRun(s: string): (k: nat)
    ensures k <= |s|
    ensures k < |s| ==> !IsFlag(s[k])
    ensures forall i :: 0 <= i < k ==> IsFlag(s[i])
  {
    if s != "" && IsFlag(s[0]) then 1 + FlagRun(s[1..]) else 0
  }

  function DigitRun(s: string): (k: nat)
    ensures k <= |s|
    ensures k < |s| ==> !IsDigit(s[k])
    ensures forall i :: 0 <= i < k ==> IsDigit(s[i])
  {
    if s != "" && IsDigit(s[0]) then 1 + DigitRun(s[1..]) else 0
  }

  function FlagsIn(s: string): FlagSet {
    FlagSet('0' in s, '-' in s, '+' in s, ' ' in s, '#' in s)
  }

  /** The decimal number s, a row of digits. */
  ghost function DecimalNumber(s: string): nat {
    Max(Value(Offsets(s), 10), 0)
  }

  /** That number in 32-bit unsigned arithmetic. */
  ghost function Decimal32(s: string): uint32 {
    Value(Offsets(s), 10) % TWO32
  }

  ghost function ReadDirective(s: string): (r: Reading)
    ensures r.Parsed? ==> |r.rest| < |s|
  {
    if s == "" then Truncated(0) else
    var k := FlagRun(s);
    ReadWidth(FlagsIn(s[..k]), s[k..])
  }

  ghost function ReadWidth(flags: FlagSet, s: string): (r: Reading)
    ensures r.Parsed? ==> |r.rest| < |s|
  {
    if s != "" && IsDigit(s[0]) then
      var k := DigitRun(s);
      ReadPrecision(flags, Width(DecimalNumber(s[..k])), s[k..])
    else if s != "" && s[0] == '*' then
      if |s| == 1 then Truncated(1) else ReadPrecision(flags, StarWidth, s[1..])
    else
      ReadPrecision(flags, NoWidth, s)
  }

  function StarsOf(width: Width): nat {
    if width == StarWidth then 1 else 0
  }

  ghost function ReadPrecision(flags: FlagSet, width: Width, s: string): (r: Reading)
    ensures r.Parsed? ==> r.directive.flags == flags && r.directive.width == width
    ensures r.Truncated? ==> r.stars >= StarsOf(width)
    ensures r.Parsed? ==> |r.rest| < |s|
  {
    if s == "" || s[0] != '.' then ReadLength(flags, width, NoPrecision, s)
    else if |s| == 1 then Truncated(StarsOf(width))
    else if IsDigit(s[1]) then
      var k := DigitRun(s[1..]);
      ReadLength(flags, width, Precision(DecimalNumber(s[1..][..k])), s[1..][k..])
    else if s[1] == '*' then
      if |s| == 2 then Truncated(StarsOf(width) + 1) else ReadLength(flags, width, StarPrecision, s[2..])
    else
      ReadLength(flags, width, Precision(0), s[1..])
  }

  function AllStars(width: Width, precision: Precision): nat {
    StarsOf(width) + if precision == StarPrecision then 1 else 0
  }

  ghost function ReadLength(flags: FlagSet, width: Width, precision: Precision, s: string): (r: Reading)
    ensures r.Parsed? ==> r.directive.flags == flags && r.directive.width == width && r.directive.precision == precision
    ensures r.Truncated? ==> r.stars == AllStars(width, precision)
    ensures r.Parsed? ==> |r.rest| < |s|
  {
    if s == "" then Overrun
    else if s[0] == 'l' || s[0] == 'h' then
      if |s| == 1 then Truncated(AllStars(width, precision))
      else if s[1] == s[0] then
        if |s| == 2 then Truncated(AllStars(width, precision))
        else Parsed(Directive(flags, width, precision, if s[0] == 'l' then LL else HH, s[2]), s[3..])
      else
        Parsed(Directive(flags, width, precision, if s[0] == 'l' then L else H, s[1]), s[2..])
    else if s[0] == 't' || s[0] == 'j' || s[0] == 'z' then
      if |s| == 1 then Truncated(AllStars(width, precision))
      else Parsed(Directive(flags, width, precision, if s[0] == 't' then T else if s[0] == 'j' then J else Z, s[1]), s[2..])
    else
      Parsed(Directive(flags, width, precision, NoLength, s[0]), s[1..])
  }

  // ---------------------------------------------------------------- arguments

  /**
   One variable argument, as va_arg finds it; words are raw bit patterns. There
   are no floating-point numbers and no wide strings, so `%f`, `%e`, `%g`, `%a`,
   their upper-case forms and `%ls` have no argument of the right type here, and
   nothing is said of them.
   */
  datatype Arg = Word32(bits: uint32) | Word64(bits64: uint64) | Str(text: CString) | NullStr
               | Pointer(address: uint64) | Dest(id: nat)

  /** A `%n` write: the position, reduced to the width of the destination `id`. */
  datatype WriteBack = WriteBack(id: nat, value: nat)

  /** A directive whose stars have been replaced by arguments. */
  datatype Resolved = Resolved(flags: FlagSet, width: nat, hasPrecision: bool, precision: nat)

  /**
   Whose conversions a format run uses: the kernel's, or those that section
   7.21.6.1 of ISO C11 asks for (with `%b` as in ISO C23). Where ISO C leaves
   the effect to the implementation, the two are the same, and flags, lengths
   and precisions that have no defined meaning for a conversion have none here.
   */
  datatype Printer = Kernel | Iso

  /** A number in a directive; the kernel computes it in an unsigned int. */
  function Computed(p: Printer, n: nat): nat {
    if p == Kernel then n % TWO32 else n
  }

  /** What the kernel computes fits into unsigned ints. */
  type Resolved32 = r: Resolved | r.width < TWO32 && r.precision < TWO32
    witness Resolved(NoFlags, 0, false, 0)

  lemma {:induction false} DigitsNonNegative(s: string)
    requires Decimal(s)
    ensures Value(Offsets(s), 10) >= 0
  {
    if s != "" {
      var front := s[..|s| - 1];
      DigitsNonNegative(front);
      assert Offsets(s)[..|s| - 1] == Offsets(front);
    }
  }

  /** Reading digits in an unsigned int computes the number they denote as the kernel does. */
  lemma DigitsComputed(s: string)
    requires Decimal(s)
    ensures Computed(Kernel, DecimalNumber(s)) == Decimal32(s)
  {
    DigitsNonNegative(s);
  }

  /** The directive's flags and width, and the arguments that are left. */
  function ResolveWidth(p: Printer, width: Width, flags: FlagSet, args: seq<Arg>): Option<(Resolved, seq<Arg>)> {
    match width
    case NoWidth => Some((Resolved(flags, 0, false, 0), args))
    case Width(w) => Some((Resolved(flags, Computed(p, w), false, 0), args))
    case StarWidth =>
      if args == [] || !args[0].Word32? then None else
      var w: int := Int32(args[0].bits);
      if w < 0 then Some((Resolved(flags.(left := true), -w, false, 0), args[1..]))
      else Some((Resolved(flags, w, false, 0), args[1..]))
  }

  /** For the kernel a negative argument counts as precision 0; ISO C takes it as an omitted precision. */
  function ResolvePrecision(p: Printer, precision: Precision, r: Resolved, args: seq<Arg>): Option<(Resolved, seq<Arg>)> {
    match precision
    case NoPrecision => Some((r, args))
    case Precision(n) => Some((r.(hasPrecision := true, precision := Computed(p, n)), args))
    case StarPrecision =>
      if args == [] || !args[0].Word32? then None else
      var n: int := Int32(args[0].bits);
      if p == Iso && n < 0 then Some((r, args[1..]))
      else Some((r.(hasPrecision := true, precision := if n > 0 then n else 0), args[1..]))
  }

  function Resolve(p: Printer, d: Directive, args: seq<Arg>): Option<(Resolved, seq<Arg>)> {
    match ResolveWidth(p, d.width, d.flags, args)
    case None => None
    case Some((r, rest)) => ResolvePrecision(p, d.precision, r, rest)
  }

  // -------------------------------------------------------------- conversions

  predicate IsInteger(c: char) {
    c == 'd' || c == 'i' || c == 'u' || c == 'x' || c == 'X' || c == 'o' || c == 'b'
  }

  predicate IsSigned(c: char) {
    c == 'd' || c == 'i'
  }

  function BaseOf(c: char): (b: nat)
    ensures Base(b)
  {
    if c == 'x' || c == 'X' then 16 else if c == 'o' then 8 else if c == 'b' then 2 else 10
  }

  /** Whether the length asks for a `long` or a `long long`, both of 64 bits. */
  predicate IsLong(length: Length) {
    length == L || length == LL || length == T || length == J || length == Z
  }

  /** The number of values an argument is reduced to before it is printed. */
  function Modulus(length: Length): (m: nat)
    ensures m > 0 && m % 2 == 0
  {
    if IsLong(length) then TWO64 else if length == HH then 0x100 else if length == H then 0x1_0000 else TWO32
  }

  predicate FitsInteger(length: Length, arg: Arg) {
    if IsLong(length) then arg.Word64? else arg.Word32?
  }

  function Word(arg: Arg): uint64
    requires arg.Word32? || arg.Word64?
  {
    if arg.Word32? then arg.bits else arg.bits64
  }

  /** The mathematical value an integer conversion prints. */
  function IntegerValue(length: Length, signed: bool, word: uint64): int {
    if signed then Signed(word, Modulus(length)) else word % Modulus(length)
  }

  lemma IntegerValueRange(length: Length, signed: bool, word: uint64)
    ensures -0x1_0000_0000_0000_0000 < IntegerValue(length, signed, word) < TWO64
    ensures !signed ==> 0 <= IntegerValue(length, signed, word)
  {
  }

  /** value is a value of the argument's type. */
  predicate InRange(length: Length, signed: bool, value: int) {
    if signed then -(Modulus(length) / 2) <= value < Modulus(length) / 2 else 0 <= value < Modulus(length)
  }

  lemma IntegerValueCongruent(signed: bool, word: uint64, m: nat)
    requires m > 0 && m % 2 == 0
    ensures (if signed then Signed(word, m) else word % m) % m == word % m
    ensures signed ==> -(m / 2) <= Signed(word, m) < m / 2
  {
    var half := m / 2;
    if signed {
      ModShift(Signed(word, m), m, (word + half) / m);
      assert word + half == m * ((word + half) / m) + (word + half) % m;
    } else {
      ModShift(word % m, m, word / m);
      assert word == m * (word / m) + word % m;
    }
  }

  /** There is only one value of the argument's type that is congruent to the word, and it is printed. */
  lemma IntegerValueIs(length: Length, signed: bool, word: uint64, value: int)
    ensures InRange(length, signed, value) && value % Modulus(length) == word % Modulus(length)
            <==> value == IntegerValue(length, signed, word)
  {
    var m, v: int := Modulus(length), IntegerValue(length, signed, word);
    hide Modulus;
    IntegerValueCongruent(signed, word, m);
    if value % m == word % m && InRange(length, signed, value) {
      ModClose(value, v, m);
    }
  }

  function Magnitude(length: Length, signed: bool, word: uint64): uint64 {
    IntegerValueRange(length, signed, word);
    var v := IntegerValue(length, signed, word);
    if v < 0 then -v else v
  }

  /** A precision cancels '0'; unsigned conversions ignore signs, decimal ones '#'. */
  function IntegerFlags(r: Resolved, c: char): Flags {
    Flags(r.flags.zeroPad && !r.hasPrecision, r.flags.left, r.flags.plus && IsSigned(c), r.flags.space && IsSigned(c),
          r.flags.hash && BaseOf(c) != 10, c == 'X', r.hasPrecision, false)
  }

  /** The field formatStringLoop hands to printInt for an integer conversion. */
  function IntegerField(r: Resolved, length: Length, c: char, word: uint64): (f: IntField)
    requires IsInteger(c)
    ensures Base(f.base)
  {
    IntField(Magnitude(length, IsSigned(c), word), IntegerValue(length, IsSigned(c), word) < 0,
             BaseOf(c), r.precision, r.width, IntegerFlags(r, c))
  }

  /** The field for `%p`: always 18 columns wide, zero padded, with a prefix. */
  function AddressField(r: Resolved, address: uint64): (f: IntField)
    ensures Base(f.base)
  {
    IntField(address, false, 16, r.precision, 18,
             Flags(true, r.flags.left, r.flags.plus, r.flags.space, r.flags.hash, false, r.hasPrecision, true))
  }

  function StringText(r: Resolved, s: CString): string {
    Padded(if r.hasPrecision then s[..Min(|s|, r.precision)] else s, r.width, r.flags.left)
  }

  /** "(null)" goes through outRev_, so a '0' flag suppresses its left padding. */
  function NullText(r: Resolved): string {
    Reversed(")llun(", r.width,
             Flags(r.flags.zeroPad, r.flags.left, r.flags.plus, r.flags.space, r.flags.hash, false, r.hasPrecision, false))
  }

  function CharText(r: Resolved, bits: uint32): string {
    Padded([(bits % 0x100) as char], r.width, r.flags.left)
  }

  /**
   ISO C converts the argument of `%lc` like a wide string of that character,
   so a null character prints nothing. What others print depends on the locale.
   */
  function CharacterText(p: Printer, r: Resolved, length: Length, bits: uint32): string {
    if p == Iso && length == L && bits == 0 then Padded("", r.width, r.flags.left) else CharText(r, bits)
  }

  /** The position as `%n` stores it in a char, short, int, or 64-bit destination. */
  function Position(length: Length, pos: nat): nat {
    pos % Modulus(length)
  }

  /** The effect of one step: text, write-backs and the arguments left over. */
  datatype Effect = Undefined | Effect(text: string, writes: seq<WriteBack>, rest: seq<Arg>)

  function IntegerText(p: Printer, f: IntField): string
    requires Base(f.base)
  {
    if p == Kernel then Printed(f) else Standard(f)
  }

  /** One converted argument; a missing or mistyped argument is undefined. */
  function Convert(p: Printer, r: Resolved, args: seq<Arg>, length: Length, c: char, pos: nat): Effect {
    if c == '%' then Effect("%", [], args)
    else if IsInteger(c) then
      if args == [] || !FitsInteger(length, args[0]) then Undefined
      else Effect(IntegerText(p, IntegerField(r, length, c, Word(args[0]))), [], args[1..])
    else if c == 'c' then
      if args == [] || !args[0].Word32? then Undefined else Effect(CharacterText(p, r, length, args[0].bits), [], args[1..])
    else if c == 's' then
      if args == [] then Undefined
      else if args[0].Str? then Effect(StringText(r, args[0].text), [], args[1..])
      else if args[0].NullStr? then Effect(NullText(r), [], args[1..])
      else Undefined
    else if c == 'p' then
      if args == [] || !args[0].Pointer? then Undefined
      else Effect(Printed(AddressField(r, args[0].address)), [], args[1..])
    else if c == 'n' then
      if args == [] || !args[0].Dest? then Undefined
      else Effect("", [WriteBack(args[0].id, Position(length, pos))], args[1..])
    else Effect([c], [], args)
  }

  /** ISO C leaves open what `%p` prints, and what `%s` prints for a null pointer. */
  predicate LeftOpen(d: Directive, args: seq<Arg>) {
    d.conversion == 'p'
    || (d.conversion == 's' && match Resolve(Kernel, d, args)
                               case None => false
                               case Some((_, rest)) => rest != [] && rest[0].NullStr?)
  }

  function Expand(p: Printer, d: Directive, args: seq<Arg>, pos: nat): Effect {
    match Resolve(if LeftOpen(d, args) then Kernel else p, d, args)
    case None => Undefined
    case Some((r, rest)) => Convert(p, r, rest, d.length, d.conversion, pos)
  }

  function ConsumeStars(stars: nat, args: seq<Arg>): Effect {
    if stars == 0 then Effect("", [], args)
    else if args == [] || !args[0].Word32? then Undefined
    else ConsumeStars(stars - 1, args[1..])
  }

  /** The arguments for the stars of a directive are there. */
  ghost predicate Supplied(r: Reading, args: seq<Arg>) {
    match r
    case Truncated(stars) => ConsumeStars(stars, args).Effect?
    case Overrun => false
    case Parsed(d, _) => Resolve(Kernel, d, args).Some?
  }

  // ----------------------------------------------------------------- the loop

  function Then(first: Effect, second: Effect): Effect {
    if first.Undefined? || second.Undefined? then Undefined
    else Effect(first.text + second.text, first.writes + second.writes, second.rest)
  }

  /** formatStringLoop from position pos: one character or directive at a time. */
  ghost function Run(p: Printer, format: string, args: seq<Arg>, pos: nat): Effect
    decreases |format|
  {
    if format == "" then Effect("", [], args)
    else if format[0] != '%' then
      Then(Effect([format[0]], [], args), Run(p, format[1..], args, pos + 1))
    else match ReadDirective(format[1..])
      case Truncated(stars) => ConsumeStars(stars, args)
      case Overrun => Undefined
      case Parsed(d, rest) =>
        var first := Expand(p, d, args, pos);
        if first.Undefined? then Undefined
        else Then(first, Run(p, rest, first.rest, pos + |first.text|))
  }

  /** One directive of a run. */
  lemma RunDirective(p: Printer, format: string, args: seq<Arg>, pos: nat)
    requires format != "" && format[0] == '%' && ReadDirective(format[1..]).Parsed?
    ensures var Parsed(d, rest) := ReadDirective(format[1..]);
            var step := Expand(p, d, args, pos);
            Run(p, format, args, pos)
            == if step.Undefined? then Undefined else Then(step, Run(p, rest, step.rest, pos + |step.text|))
  {
  }

  lemma RunCharacter(p: Printer, format: string, args: seq<Arg>, pos: nat)
    requires format != "" && format[0] != '%'
    ensures Run(p, format, args, pos) == Then(Effect([format[0]], [], args), Run(p, format[1..], args, pos + 1))
  {
  }

  lemma RunEmpty(p: Printer, args: seq<Arg>, pos: nat)
    ensures Run(p, "", args, pos) == Effect("", [], args)
  {
  }

  lemma ThenAssociates(a: Effect, b: Effect, c: Effect)
    ensures Then(Then(a, b), c) == Then(a, Then(b, c))
  {
    if a.Effect? && b.Effect? && c.Effect? {
      assert a.text + b.text + c.text == a.text + (b.text + c.text);
      assert a.writes + b.writes + c.writes == a.writes + (b.writes + c.writes);
    }
  }
}
