# A verified model of the SeshOS kernel's text output, terminal, heap and initramfs

This project models four parts of the SeshOS kernel in Dafny and proves what
they do, for every input.

* **The printf engine** (`kernel/video/printf.c`). Format strings are read into
  directives, integers are built back to front in a 32-byte buffer, and
  characters go through a gadget that truncates but keeps counting.
  `IntegerLaws.PrintedIsRendered` says exactly when the reversed, partly
  taken-back buffer gives the plain left-to-right field.
  `FieldLaws.DirectiveIsStandard` says, for every conversion, exactly when a
  directive has the effect that section 7.21.6.1 of ISO C11 asks for.
* **The framebuffer terminal** (`kernel/video/fbcon.c`, `kernel/video/ansi.c`,
  `kernel/video/renderer.c`). The concrete console has a pixel array and a
  sequence buffer that is scanned again for every character. It refines
  `Screen.State`, which has only a grid of cells and an automaton that
  remembers one number. The codes are a subset of SGR (section 8.3.117 of
  ECMA-48).
* **The kernel heap** (`kernel/memory/malloc.c`). Headers lie in the memory that
  is handed out. `have_allocated` is never set, so the allocator that can be
  reached is a bump allocator; `Allocator.Valid` keeps it false.
* **The initramfs walker** (`kernel/fs/ramfs.c`), over archives in the "ustar
  Interchange Format" of the `pax` utility in POSIX.1-2017. It inverts an
  encoder, whatever bytes the members contain.

`EndToEnd` and `NumberRoundTrips` join the parts: what printf writes, the escape
parser, `atoi`, `atou_` and `getsize` read.

## How the C code is represented

* Loops and in-place updates are methods over arrays and class fields; each is
  proved against a specification function, about which the laws are lemmas.
  Long C functions are cut into one method for each of their blocks.
* A C string is a NUL-terminated stretch of an array (`CStrings.StringAt`), or a
  NUL-free `CString` where it is never written to. The format and argument
  pointers are running indices.
* The FLAGS_ bits are records of booleans. Variable arguments are typed words; a
  missing or mistyped argument makes a run `Undefined`, and so does a format
  that the loop would leave behind its NUL (`FormatLaws.OverstepsExactly` says
  which formats these are). Methods ask for a defined run and for a text of at
  most INT_MAX characters, the largest count their `int` result can carry.
* Unsigned arithmetic wraps explicitly. Signed overflow is undefined in C; the
  model lets it wrap in two's complement, as x86-64 does. It occurs only in the
  negation of the least `int` (a star width) or `long`, and in `atoi` beyond
  nine digits. `kernel/video/printf.h` calls the negation well defined although
  it is an overflow; the model follows the code.
* Hexadecimal digits are always upper case, and a negative precision argument
  counts as precision 0, as in the code. The `Iso` conversions do neither: `%x`
  has lower-case digits and a negative precision argument is an omitted one.
  They also read widths and precisions as numbers without a bound, where the
  code reads them modulo 2^32, and print no character for `%lc` of 0. A number
  in a format is a row of digits without a sign. `%b` is that of ISO C23. Where
  ISO C leaves the result open (`%p`, `(null)`, unknown conversions, `%lc` of
  other characters, whose text depends on the locale), `Iso` is what the code
  does.
* The arguments of `%f`, `%e`, `%g`, `%a`, their upper-case forms and `%ls` are
  not among the modelled ones, so nothing is said of these conversions.
* The output function of a gadget is represented by the sequence of its calls.
  `EndToEnd.Printf` makes these calls on the console when the text is complete.
* The font is an arbitrary table.
* What the specification functions mean is said again, without them, in
  `Conversions` (formats as they are written), `ScreenLaws` (where characters and
  lines go), `Pixels` and `Sgr` (bits, bytes and colours) and `HeapSpec` (flag and
  size bytes).

## Results that hold only under a condition

* The integer printer gives the left-to-right field if and only if
  `IntegerLaws.Representable` holds: sign, prefix, zeros and digits fit into 32
  characters (a space sign may fall off if it would look like padding), and the
  field is not a base-2 zero with `#` and a precision other than 32, for which
  the code prints a `0b`. `%033d` of 1 and `%#.3b` of 0 are inputs that fail.
* That field is the one ISO C asks for if and only if, besides, no digit of a
  `%x` is a letter; `%x` of 10 fails.
* A negative precision argument does no harm if and only if the value is not
  zero (or `#` is given for `%o`) and no zero padding would apply; for `%s`, the
  string must look like padding. `%.*s` of -1 fails.
* A width or precision of 2^32 or more in a format always does harm to an
  integer field, and such a width to a `%c`. A `%s` survives it if and only if
  as much of the string is shown and the width is not needed, or the part that
  is missing looks like padding. "%.4294967296s" fails.
* `%lc` prints what ISO C asks for unless its argument is 0, which fails.
* The format loop steps past the NUL of a format if and only if a directive in
  it is incomplete and the format ends in a flag character or a digit; "%5"
  fails, "5" does not.
* `strstr` finds what ISO C asks for unless both strings are empty.
* `parse` succeeds on an archive if and only if it has at most 31 members; 32
  empty files fail.
* The copy in `realloc` takes 16 bytes too many. It stays inside the heap if and
  only if the block grows by at least 16 bytes; otherwise it needs that much
  memory behind the heap, which `Allocator.Realloc` asks for. Shrinking a block
  of 32 bytes to 8 is an input that fails.
* Writing a visible character needs a cursor row on the screen, as there is no
  scrolling, and an unfinished escape sequence may have 255 characters
  (`Screen.Fits`). By `Pixels.CellInBoundsExactly` no other row would do: some
  pixel of the cell would lie outside the framebuffer.

## Model

| member | source | states |
|---|---|---|
| Numerals.LastDigitsDenote | kernel/video/printf.c:265-270 | the first k digits the digit loop stores denote the value modulo base^k, for every base and value |
| Numerals.DigitCharacters | kernel/video/printf.c:267-268 | the sixteen digits are 0 to 9 and A to F, in the order of their values |
| Numerals.WrittenDenotes | kernel/video/printf.c:265-270 | the digits of a value denote it and have no leading zero; zero is one digit |
| Gadget.OutputGadget.ForBuffer | kernel/video/printf.c:122-131 | a buffer gadget has room for min(size, INT_MAX) characters, and none without a buffer |
| Gadget.OutputGadget.ForFunction | kernel/video/printf.c:133-139 | a function gadget passes every character on |
| Gadget.OutputGadget.Putchar | kernel/video/printf.c:75-91 | every character is counted; the buffer holds the first ones up to its size and is untouched behind them |
| Gadget.OutputGadget.AppendTerm | kernel/video/printf.c:94-103 | the NUL goes behind the text, or into the last place of a full buffer; nothing else changes |
| IntegerPrinter.OutRev | kernel/video/printf.c:157-178 | the buffer reversed, with spaces to the width on the left, or on the right by the gadget's position, even when output is already truncated |
| IntegerPrinter.StoreZeros | kernel/video/printf.c:186-198 | the two padding loops together append exactly the zeros that width and precision ask for, at most to the end of the buffer |
| IntegerPrinter.StorePrefix | kernel/video/printf.c:206-229 | what is left of the zeros after the take-back, then the prefix back to front, cut at 32 characters |
| IntegerPrinter.StoreSign | kernel/video/printf.c:231-241 | at most one sign character, if there is room |
| IntegerPrinter.PrintIntegerFinalization | kernel/video/printf.c:183-244 | prints the finalized field of the given digits; no write leaves the 32-byte buffer |
| IntegerPrinter.StoreDigits | kernel/video/printf.c:265-271 | the digit loop stores the digits least significant first, at most 32 |
| IntegerPrinter.PrintInt | kernel/video/printf.c:247-274 | prints the field of every value, base, precision, width and flag set |
| IntegerLaws.FittingField | kernel/video/printf.c:183-244 | zero padding, take-back, prefix, sign and reversal give the left-to-right field whenever it fits |
| IntegerLaws.PrefixedPadding | kernel/video/printf.c:206-216 | the take-back leaves exactly the zeros that, with the prefix, fill the width |
| IntegerLaws.OverlongField | kernel/video/printf.c:191-241 | a field that does not fit is never printed right, whatever its padding |
| IntegerLaws.PrintedIsRendered | kernel/video/printf.c:157-274 | the printed field is the plain left-to-right one if and only if the field is representable, for all 64-bit values, bases, precisions, widths and flags the format loop produces |
| IntegerLaws.WithinBounds | kernel/video/printf.c:157-274 | in particular it is with precision up to 30, zero padding up to width 32, and base 2 below 2^30 |
| StandardLaws.LowerDigits | kernel/video/printf.c:267-268 | the digits ISO C asks of %x are 0 to 9 and a to f |
| StandardLaws.PrintedIsStandard | kernel/video/printf.c:247-274 | it is the field ISO C asks for if and only if it is representable and no digit of a %x is a letter, as the digits are always upper case |
| StandardLaws.PrintedIsUnprecise | kernel/video/printf.c:783-789 | with precision 0 for an omitted precision, if and only if besides the value is not zero (or it is %#o) and no zero padding applies |
| IntegerLaws.FieldLength | kernel/video/printf.c:172-177 | a representable field takes max(width, sign + prefix + digits) columns |
| IntegerLaws.StoredDigitsDenote | kernel/video/printf.c:251-271 | the stored digits denote the value itself in base 8, 10 and 16, and modulo 2^32 in base 2 |
| FormatLoop.ParseFlags | kernel/video/printf.c:725-737 | consumes the longest run of flag characters and returns the set of those in it |
| FormatLoop.Atou | kernel/video/printf.c:147-153 | consumes the longest run of digits and returns its value modulo 2^32 |
| FormatLoop.EvaluateWidth | kernel/video/printf.c:759-774 | the width field, from digits or an argument; a negative argument left-justifies; stops at a NUL behind a star |
| FormatLoop.EvaluatePrecision | kernel/video/printf.c:776-789 | the precision field, from digits or an argument, where a negative argument counts as 0 |
| FormatLoop.EvaluateLength | kernel/video/printf.c:791-848 | the length modifier, up to the conversion character |
| FormatLoop.IntegerFormat | kernel/video/printf.c:860-887 | base and flags of an integer conversion |
| FormatLoop.IntegerArgument | kernel/video/printf.c:889-934 | the value in the range of the argument type that is congruent to the argument word |
| FormatSpec.IntegerValueIs | kernel/video/printf.c:889-934 | there is exactly one such value, for every length, signedness and word, and it is the one the conversion prints |
| FormatLoop.PrintChar | kernel/video/printf.c:956-974 | the character, padded to the width on the side the flags choose |
| FormatLoop.PrintString | kernel/video/printf.c:976-1006 | the string, or its first `precision` characters, padded to the width |
| FormatLoop.StrnlenS | kernel/string.c:50-54 | the smaller of the string's length and the given size |
| FormatLoop.PrintConversion | kernel/video/printf.c:851-1043 | each conversion prints its text, consumes its argument and, for %n, records the position |
| FormatLoop.FormatDirective | kernel/video/printf.c:754-1043 | one pass through the loop reads one directive, and has the effect of that directive |
| FormatLoop.FormatStringLoop | kernel/video/printf.c:739-1045 | the loop has the effect of the specified run: text, write-backs in order, arguments |
| FormatLoop.VsnprintfImpl | kernel/video/printf.c:1048-1058 | the count is that of the whole text |
| FormatLoop.Vsnprintf | kernel/video/printf.c:1067-1070 | the first min(L, n-1) characters, one NUL, nothing else changed, and the count L for every n and for a NULL buffer |
| FormatLoop.Vprintf | kernel/video/printf.c:1062-1065 | the output function receives the whole text in order, and the count is its length |
| FormatSpec.ReadDirective | kernel/video/printf.c:754-883 | a directive that is read leaves a shorter format, so the loop terminates |
| FormatLaws.DirectiveExtends | kernel/video/printf.c:754-883 | a complete directive is read the same whatever follows it |
| Conversions.PlainFormat | kernel/video/printf.c:747-752 | a format without % prints itself |
| Conversions.SignedLayout | kernel/video/printf.c:858-913 | %d and %i, with any flags, width and length as written: sign, digits of the value in the length's range, and the padding the flags choose |
| Conversions.UnsignedLayout | kernel/video/printf.c:858-934 | %u, %x, %X, %o and %b, with any flags, width and length as written: 0x, 0X, 0b or a leading octal zero for #, digits and padding, never a sign |
| Conversions.PrecisionLayout | kernel/video/printf.c:776-789 | a precision is the least number of digits of %d, and cancels the flag 0 |
| Conversions.UnsignedDenotes | kernel/video/printf.c:914-934 | %u, %x, %X and %o of every length (hh, h, none, l, ll, t, j, z) print digits that denote the argument modulo 2^8, 2^16, 2^32 or 2^64 |
| Conversions.SignedDenotes | kernel/video/printf.c:889-913 | %d and %i of every length print a sign and digits that read back as the signed argument |
| Conversions.LongHex | kernel/video/printf.c:924-925 | %lx prints all 64 bits |
| Conversions.CharacterLayout | kernel/video/printf.c:956-974 | %c prints the argument's low byte, and spaces behind it with - and in front of it without |
| Conversions.StringLayout | kernel/video/printf.c:976-1006 | %s prints the string, padded likewise |
| Conversions.CutStringLayout | kernel/video/printf.c:976-1006 | %.ns prints at most n of its characters, padded likewise |
| Conversions.NullString | kernel/video/printf.c:976-1006 | %s of a null pointer prints (null) |
| Conversions.OtherCharacter | kernel/video/printf.c:1017-1042 | %% prints %, and a character that is no conversion prints itself |
| Conversions.StarWidthRun | kernel/video/printf.c:764-774 | %*d of the int n is %nd, and of a negative one %-md with its magnitude m; so for every conversion |
| Conversions.StarPrecisionRun | kernel/video/printf.c:783-787 | %.*s of the int n is %.ns, and of a negative one %.s; so for every conversion |
| Conversions.StarAtEnd | kernel/video/printf.c:764-789 | a format that ends behind a star has used up the star's argument |
| Conversions.PositionStored | kernel/video/printf.c:1026-1036 | %n stores the number of characters printed so far, in the width its length gives |
| FormatLaws.RunConcat | kernel/video/printf.c:747-1044 | running f1 + f2 is running f1 and then f2 from where f1 stopped, also for %n and for undefined runs |
| FormatLaws.RunMoreArgs | kernel/video/printf.c:747-1044 | a defined run leaves further arguments alone |
| FormatLaws.JoinedRuns | kernel/video/printf.c:747-1044 | formatting is a homomorphism: joined formats on joined arguments give joined effects |
| FormatLaws.DirectiveSuffix | kernel/video/printf.c:754-883 | what is left of the format is a proper suffix of it |
| FormatLaws.OverstepsExactly | kernel/video/printf.c:1039-1042 | the loop steps past the NUL if and only if some directive is incomplete and the format ends in a flag character or a digit, for every format |
| FormatLaws.OversteppingRun | kernel/video/printf.c:1039-1042 | a run of such a format is undefined whatever its arguments |
| FormatLaws.SafeEnd | kernel/video/printf.c:1039-1042 | in particular a format that does not end in a flag character or digit is never left behind its NUL |
| FormatLaws.WidthAtEndOversteps | kernel/video/printf.c:1039-1042 | the loop steps past the end of "%5" |
| DirectiveText.DirectiveReadBack | kernel/video/printf.c:747-848 | writing a directive as text and reading it back gives the same directive, with the flags in any order and any text behind it |
| DirectiveText.NumeralReadBack | kernel/video/printf.c:147-153 | every number is read back from its numeral, and atou_ recovers every 32-bit number |
| DirectiveText.StarWidthMeans | kernel/video/printf.c:764-774 | a star width w acts as the literal width w, or as the left-justified width -w when w is negative |
| FieldLaws.SignAndMagnitude | kernel/video/printf.c:889-913 | sign and magnitude recombine to the argument, for every length and word |
| FieldLaws.DirectiveIsStandard | kernel/video/printf.c:754-1043 | a directive of any conversion that has modelled arguments (not %f, %e, %g, %a, their upper-case forms, %ls) has the effect ISO C asks for if and only if its field is representable and of the right case, it is not %lc of 0, and no number of 2^32 or more and no negative precision argument makes a difference |
| FieldLaws.StepsAreStandard | kernel/video/printf.c:739-1045 | the directives of a run all have the effect ISO C asks for if and only if every one the run meets is faithful in that sense |
| FieldLaws.RunIsStandard | kernel/video/printf.c:739-1045 | then the whole run has the text, write-backs and argument use that ISO C asks for |
| FieldLaws.HexTen | kernel/video/printf.c:267-268 | %x of 10 prints A where ISO C asks for a |
| FieldLaws.MinusOnePrecision | kernel/video/printf.c:783-787 | %.*s of -1 prints nothing where ISO C asks for the whole string |
| FieldLaws.HugePrecision | kernel/video/printf.c:147-153 | "%.4294967296s" prints nothing where ISO C asks for the whole string |
| FieldLaws.WideNul | kernel/video/printf.c:956-974 | %lc of 0 prints a null character where ISO C asks for none |
| FieldLaws.BinaryZeroDirective | kernel/video/printf.c:206-229 | %#.3b of 0 does not print the field it should |
| FieldLaws.WideOneDirective | kernel/video/printf.c:186-198 | neither does %033d of 1 |
| FieldLaws.DirectiveLength | kernel/video/printf.c:956-1006 | each directive takes max(width, body) columns |
| FieldLaws.RunLength | kernel/video/printf.c:739-1058 | the count of a run whose integer fields are representable is the sum of its field widths |
| CStrings.Strlen | kernel/string.c:29-33 | the number of characters before the NUL |
| CStrings.Memcmp | kernel/memory/mem.c:41-60 | zero exactly for equal ranges, the same address or no length, otherwise the order of the first mismatch, behind which nothing is read |
| CStrings.Memcpy | kernel/memory/mem.c:29-39 | the destination range becomes the old source range and nothing else changes, also within one array if the copy does not run into its source |
| CStrings.WithinString | kernel/string.c:106-116 | the comparison in strstr never reads past the haystack's NUL |
| CStrings.Strstr | kernel/string.c:106-116 | the first occurrence of the needle, or none |
| CStrings.StrstrIsStandard | kernel/string.c:106-116 | that is what ISO C asks for if and only if not both strings are empty |
| CStrings.Atoi | kernel/string.c:144-160 | the decimal reading of the string in wrapping 32-bit arithmetic |
| CStrings.CharacterValues | kernel/string.c:144-160 | every character counts with its signed value less 48 |
| CStrings.Strsplit | kernel/string.c:57-82 | the text before and behind the first separator, or the text and an empty string, for fewer than 128 characters |
| Ansi.EscapeParser.SelectGraphicRendition | kernel/video/ansi.c:32-117 | the attributes change as Apply says, for every code |
| Sgr.ColourCodes | kernel/video/ansi.c:50-113 | 30 to 37 set the text and 40 to 47 the background to the colour whose red, green and blue bits the last digit has, with brown for yellow, and nothing else changes |
| Sgr.ModeCodes | kernel/video/ansi.c:35-49 | 1 sets bold, 22 clears it, 0 resets all attributes, and every other code does nothing |
| Ansi.EscapeParser.FindCode | kernel/video/ansi.c:19-33 | the code between the first '[' and the next 'm', if both are there |
| Ansi.EscapeParser.HandleEsc | kernel/video/ansi.c:12-127 | one character is one step of the streaming automaton; a completed code is applied and the buffer emptied |
| Sgr.ScanStep | kernel/video/ansi.c:13-33 | scanning the whole buffer again amounts to one step of the automaton, for all bytes including NUL |
| Pixels.BrightenedBytes | kernel/video/fbcon.c:61-76 | bold adds 0x55 to every byte and saturates, except for yellow |
| Pixels.BoldYellow | kernel/video/fbcon.c:61-63 | bold yellow is 0xFFFF55 |
| Pixels.ColourBytes | kernel/video/fbcon.c:64-76 | the four bytes make up the colour |
| Pixels.RowShowsFont | kernel/video/fbcon.c:53-81 | the seven pixels of a glyph row are the bits of its font byte from left to right, all but the last, in the text colour or its bold shade, over the background |
| Pixels.CellPlace | kernel/video/fbcon.c:54-79 | cell (x, y) is shown from pixel row 16 y and column 8 x on; its eighth column keeps what was there |
| Pixels.CellInBounds | kernel/video/fbcon.c:54-79 | every pixel of a cell on the screen lies in the framebuffer, for every width and height |
| Pixels.CellInBoundsExactly | kernel/video/fbcon.c:54-79 | a cell in a column of the screen lies in the framebuffer if and only if its row is on the screen |
| Pixels.CellsDisjoint | kernel/video/fbcon.c:54-79 | different cells share no pixel |
| Pixels.PixelAfterDraw | kernel/video/fbcon.c:53-81 | drawing a cell changes its own 16 by 7 pixels and no other in the rendering of the grid |
| Terminal.Brighten | kernel/video/fbcon.c:61-76 | the byte loop computes that shade |
| Terminal.Console.DrawGlyph | kernel/video/fbcon.c:53-81 | exactly the 16 by 7 pixels of the cell are painted, in the glyph's colours |
| Terminal.Console.ShowsCell | kernel/video/fbcon.c:53-81 | in every valid console the framebuffer shows each drawn cell there |
| Terminal.Console.Draw | kernel/video/fbcon.c:53-87 | the pixel array still shows the grid, with one more cell, and the cursor has moved on |
| Terminal.Console.Write | kernel/video/fbcon.c:24-91 | every character, escapes and backspace included, is one step of the abstract terminal |
| Terminal.Console.Putchar | kernel/video/renderer.c:12-14 | the same at the cursor in the current colours |
| Terminal.Console.Puts | kernel/video/renderer.c:15-22 | over every string that stays on the screen, the pixel array is the rendering of the grid the abstract run gives |
| Terminal.Console.constructor | kernel/video/fbcon.c:93-122 | width / 8 columns and height / 16 rows, an empty grid, an idle terminal |
| ScreenLaws.RunKeeps | kernel/video/fbcon.c:24-91 | after every run the cursor is in a column of the screen, and the automaton rests outside escape mode |
| ScreenLaws.LineEnds | kernel/video/fbcon.c:33-51 | after any stream that ends outside a sequence, \n goes to column 0 of the next row and \r to column 0 of this one |
| ScreenLaws.BackspaceStep | kernel/video/fbcon.c:37-46 | \b draws a space to the left of the cursor and stays there; in the first column it does nothing |
| ScreenLaws.WriteDraws | kernel/video/fbcon.c:53-87 | a visible character is drawn where and in the colours it is asked for, and the cursor moves on or to the next row |
| ScreenLaws.TextFillsLines | kernel/video/fbcon.c:53-87 | the k-th character of visible text from column x of row y is drawn at column (x + k) mod width and row y + (x + k) / width, in the current colours |
| ScreenLaws.TextMovesOn | kernel/video/fbcon.c:83-87 | the cursor ends behind the last character |
| ScreenLaws.TextFits | kernel/video/fbcon.c:83-91 | visible text fits if and only if the place of its last character is on the screen |
| ScreenLaws.ControlsFit | kernel/video/fbcon.c:24-51 | control characters fit in any row, a backspace unless it would draw below the screen |
| ScreenLaws.BackspaceErases | kernel/video/fbcon.c:37-46 | a character not in the last column and a backspace restore the cursor and leave a space |
| ScreenLaws.RunSequence | kernel/video/ansi.c:12-127 | ESC [ body m applies the number its body denotes and changes nothing else |
| ScreenLaws.SequenceFits | kernel/video/ansi.c:10-14 | a sequence with up to 253 body characters stays within the buffer |
| ScreenLaws.ColourSequences | kernel/video/ansi.c:12-127 | ESC [ 3 i m and ESC [ 4 i m, as sent, set text and background to colour i and change nothing else |
| ScreenLaws.ModeSequences | kernel/video/ansi.c:12-127 | ESC [ 1 m, ESC [ 22 m and ESC [ 0 m, as sent, set bold, clear it and reset the attributes |
| ScreenLaws.GridIsLog | kernel/video/fbcon.c:53-87 | the grid is the record of what was drawn |
| ScreenLaws.EscapesInvisible | kernel/video/fbcon.c:24-51 | for any stream, cursor and drawn glyphs are those of its characters outside escape sequences |
| ScreenLaws.PlainIsTexts | kernel/video/fbcon.c:24-32 | in text mixed with sequences these characters are exactly the text without the sequences |
| ScreenLaws.StrippedLayout | kernel/video/fbcon.c:24-51 | so the final cursor and the drawn glyphs of such a stream are those of the stream with all SGR sequences removed |
| ScreenLaws.StreamDraws | kernel/video/renderer.c:12-22 | in text mixed with sequences every cell has the colours the preceding codes add up to |
| EndToEnd.Printf | kernel/video/printf.c:1081-1087 | printf changes the console as the abstract terminal changes on the formatted text |
| EndToEnd.SgrText | kernel/video/printf.c:739-1045 | printf of "\e[%dm" sends an escape sequence whose body is the decimal argument |
| EndToEnd.CodeSurvives | kernel/string.c:144-160 | the parser acts on the printed code as on the code itself, negative ones and wrapping included |
| EndToEnd.PrintedSgr | kernel/video/ansi.c:12-127 | for every int c it has exactly the effect of SGR code c: no cursor movement, nothing drawn, idle again |
| EndToEnd.PrintSgr | kernel/video/ansi.c:12-127 | on the framebuffer console printf of "\e[%dm" changes the attributes alone; every pixel stays as it was |
| NumberRoundTrips.UnsignedReadBack | kernel/string.c:144-160 | a plain %u prints decimal digits from which atou_ recovers every 32-bit argument, and atoi every one below 2^31 |
| NumberRoundTrips.PointerReadBack | kernel/video/printf.c:1008-1015 | a plain %p prints 18 characters, 0x and 16 digits that denote the pointer |
| NumberRoundTrips.SizeReadBack | kernel/fs/ramfs.c:29-39 | getsize recovers every 32-bit number that %011o printed |
| HeapSpec.EightBytes | kernel/memory/malloc.c:8-11 | the size in a header is the value of its last eight bytes, the least significant first |
| HeapSpec.TilesDisjoint | kernel/memory/malloc.c:47-54 | blocks lie in address order without overlap, so payloads are disjoint from each other and from all headers |
| HeapSpec.WalkVisitsAll | kernel/memory/malloc.c:41-42 | following the sizes in memory visits every block once and stops at last_valid_address |
| HeapSpec.CallsKeepTiling | kernel/memory/malloc.c:21-88 | the heap stays tiled over every run of calls and client writes |
| HeapSpec.ResultsIncrease | kernel/memory/malloc.c:21-79 | no address is returned twice |
| HeapSpec.ResultsArePayloads | kernel/memory/malloc.c:21-79 | every non-null result of a run is at its end still the payload of a block of the size asked for |
| HeapSpec.FreedExactly | kernel/memory/malloc.c:61-88 | over every run a block is free if and only if it was before or some call has freed or moved it |
| HeapSpec.NothingForgotten | kernel/memory/malloc.c:61-88 | a byte that a client has stored, or realloc carried over, counts as defined to the end of the run, also when its block is freed or moved |
| HeapSpec.CopyStaysInside | kernel/memory/malloc.c:75-75 | the copy of realloc stays inside the heap if and only if the block grows by 16 bytes or more |
| HeapSpec.ShrinkingRealloc | kernel/memory/malloc.c:75-75 | shrinking a block of 32 bytes to 8 copies 40 bytes beyond the heap |
| KernelHeap.Allocator.MemInit | kernel/memory/malloc.c:90-92 | sets the start of a heap that has not started and leaves any other alone |
| KernelHeap.Allocator.Malloc | kernel/memory/malloc.c:21-59 | a new last block, its payload 16 bytes behind the old end of the heap; its flag byte is 0 and its size field 16 more than was asked for; no byte but the header changes |
| KernelHeap.Allocator.Free | kernel/memory/malloc.c:81-88 | the flag byte, 16 bytes in front of the payload, becomes 1, and no other byte changes; NULL is ignored |
| KernelHeap.Allocator.Realloc | kernel/memory/malloc.c:61-79 | the first min(old, new) payload bytes are kept; the old block's flag byte becomes 1; the result lies 16 bytes behind the old end of the heap, and is NULL for size 0; the copy reaches exactly to CopyEnd, never overlaps its source, and nothing behind it changes; below the old end of the heap only the old block's flag changes |
| KernelHeap.Allocator.StorePayload | kernel/memory/malloc.c:56-58 | a client's payload write leaves every header and block as it was |
| KernelHeap.Allocator.PerformAll | kernel/memory/malloc.c:21-92 | over every run of malloc, free, realloc and client writes the headers in memory lead through every block ever made; a flag byte is 1 exactly if the block was free or some call has freed or moved it; a payload byte of a block that was there is what the client last stored in it; and every byte defined in any block, also one made by the run, by a write or by realloc from a defined byte, reads back at the end |
| KernelHeap.Allocator.HeapIsWalkable | kernel/memory/malloc.c:34-42 | in every valid state the headers in memory lead through all blocks |
| Ramfs.GetSize | kernel/fs/ramfs.c:29-39 | the right-to-left loop computes the octal number read left to right, modulo 2^32 |
| Ramfs.Parse | kernel/fs/ramfs.c:8-27 | stores every header address the specified walk visits, and returns the number of members |
| Ramfs.WalkStep | kernel/fs/ramfs.c:13-24 | behind any header whose 11 octal digits at 124 give the size n, the next one lies a 512-byte record and n bytes further, rounded up to whole records |
| Ramfs.HeaderLayout | kernel/fs/ramfs.c:13-39 | the encoder puts the name first, the size at 124 and the data at 512, in whole records |
| Ramfs.WalkMember | kernel/fs/ramfs.c:13-24 | the walk steps exactly over a member, whatever its bytes look like |
| Ramfs.WalkInvertsArchive | kernel/fs/ramfs.c:8-27 | on an encoded archive the walk finds exactly the members' headers and the end, if there is room |
| Ramfs.DataBehindHeader | kernel/fs/ramfs.c:52-52 | the bytes from 512 behind a header are its member's data |
| Ramfs.ParseInvertsArchive | kernel/fs/ramfs.c:8-39 | parse succeeds on an archive if and only if it has at most 31 members, and then finds each of them and its data |
| Ramfs.ThirtyTwoFiles | kernel/fs/ramfs.c:8-27 | on 32 empty files the walk runs out of room, on 31 it does not |

## Left out

- Floating-point conversions: they are compiled out.
- FieldLaws.DirectiveIsStandard: says nothing of `%f`, `%e`, `%g`, `%a`, their upper-case forms and `%ls`, because the model has no arguments for them.
- The search loop of `malloc`: `have_allocated` is never set, so it cannot be reached.
- `readFile` and `ls`: the name test of the first is inverted, and the second only prints.
- Terminal.Console.Write: excludes a drawn character below the last row, because the kernel does not scroll and would write outside its framebuffer (`Pixels.CellInBoundsExactly`).
- Terminal.Console.constructor: excludes a framebuffer narrower than one cell, because `TTY_Width` would be 0 and every character would start a new line.
- FormatLoop.Vsnprintf: asks for a text of at most INT_MAX characters, because a longer count does not fit the `int` that is returned; it also asks for a run that C defines (arguments present and of the right type, a format that the loop does not leave behind its NUL).
- KernelHeap.Allocator.Malloc: asks that the block fits, because the code never compares a size with the heap's end; it does not model what then happens.
- KernelHeap.Allocator.Realloc: asks besides that the bytes copied beyond the old block lie inside the heap, for the same reason.
- EndToEnd.Printf: hands the characters to the console when the text is complete, not one by one as they are formatted; nothing flows back from the console to the format loop.
- `strcmp`, `strcat`, `strcpy`, `memset`, `to_hstring`: flat loops, or indexing that no contract can hold for.
- `vsprintf`, `vfctprintf` and the variadic wrappers: they pass their arguments on.
- Port I/O, interrupts, descriptor tables, PCI, ACPI, disks, the serial port, the clock, the keyboard and panic.
