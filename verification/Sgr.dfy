/**
 The escape sequences of kernel/video/ansi.c: a subset of SGR (section 8.3.117
 of ECMA-48), `[`, a decimal code, `m`.

 The kernel keeps the whole sequence and re-scans it for every character.
 `Scan` is the streaming automaton that this amounts to; it remembers one number.
 */
module Sgr {
  import opened CTypes
  import opened Numerals
  import opened CStrings

  const COLOR_BLACK: uint32 := 0xFF000000
  const COLOR_RED: uint32 := 0xFFAA0000
  const COLOR_GREEN: uint32 := 0xFF00AA00
  const COLOR_BLUE: uint32 := 0xFF0000AA
  const COLOR_CYAN: uint32 := 0xFF00AAAA
  const COLOR_PURPLE: uint32 := 0xFFAA00AA
  const COLOR_LGRAY: uint32 := 0xFFAAAAAA
  const COLOR_YELLOW: uint32 := 0xFFAA5500

  datatype Attr = Attr(color: uint32, bg: uint32, bold: bool)

  /** The eight SGR colours, in the order of their codes. */
  const Palette: seq<uint32> := [COLOR_BLACK, COLOR_RED, COLOR_GREEN, COLOR_YELLOW,
                                 COLOR_BLUE, COLOR_PURPLE, COLOR_CYAN, COLOR_LGRAY]

  /** What SGR code does to the attributes. */
  function Apply(code: int, a: Attr): Attr {
    if code == 0 then Attr(COLOR_LGRAY, COLOR_BLACK, false)
    else if code == 1 then a.(bold := true)
    else if code == 22 then a.(bold := false)
    else if 30 <= code <= 37 then a.(color := Palette[code - 30])
    else if 40 <= code <= 47 then a.(bg := Palette[code - 40])
    else a
  }

  /** The colour of each number: its bits are red, green and blue, and yellow is darkened to brown. */
  function PrimaryColour(i: nat): uint32
    requires i < 8
  {
    if i == 3 then 0xFFAA_5500
    else 0xFF00_0000 + (if i % 2 == 1 then 0xAA_0000 else 0) + (if i / 2 % 2 == 1 then 0xAA00 else 0) + (if i / 4 == 1 then 0xAA else 0)
  }

  /** The codes from 30 and from 40 on choose one of the eight colours for text and background, and nothing else. */
  lemma ColourCodes(i: nat, a: Attr)
    requires i < 8
    ensures Apply(30 + i, a) == a.(color := PrimaryColour(i))
    ensures Apply(40 + i, a) == a.(bg := PrimaryColour(i))
    ensures PrimaryColour(i) == if i == 3 then 0xFFAA_5500
                                else 0xFF00_0000 + (if i % 2 == 1 then 0xAA_0000 else 0)
                                     + (if i / 2 % 2 == 1 then 0xAA00 else 0) + (if i / 4 == 1 then 0xAA else 0)
    ensures var c := PrimaryColour(i);
            && (c / 0x1_0000 % 0x100 != 0 <==> i % 2 == 1)
            && (c / 0x100 % 0x100 != 0 <==> i / 2 % 2 == 1)
            && (c % 0x100 != 0 <==> i / 4 == 1)
            && c / 0x100_0000 == 0xFF
  {
    assert Palette[i] == PrimaryColour(i) by {
      if i == 0 {
      } else if i == 1 {
      } else if i == 2 {
      } else if i == 3 {
      } else if i == 4 {
      } else if i == 5 {
      } else if i == 6 {
      } else {
      }
    }
  }

  /** 1 and 22 set and clear bold, 0 resets everything, and all other codes do nothing. */
  lemma ModeCodes(code: int, a: Attr)
    ensures Apply(0, a) == Attr(0xFFAA_AAAA, 0xFF00_0000, false)
    ensures Apply(1, a) == a.(bold := true) && Apply(22, a) == a.(bold := false)
    ensures code != 0 && code != 1 && code != 22 && !(30 <= code < 38) && !(40 <= code < 48) ==> Apply(code, a) == a
  {
  }

  /** Looking for '['; reading a code; or stuck behind a NUL. */
  datatype Scan = Seek | Code(value: int32) | Stuck

  /** One character of an escape sequence: the next state, or the completed code. */
  datatype Step = More(scan: Scan) | Done(code: int32)

  function Feed(s: Scan, ch: char): Step {
    if ch == '\0' then More(Stuck)
    else match s
      case Stuck => More(Stuck)
      case Seek => More(if ch == '[' then Code(0) else Seek)
      case Code(v) => if ch == 'm' then Done(v) else More(Code(Int32(v * 10 + SignedChar(ch) - '0' as int)))
  }

  // ------------------------------------------- the automaton and the buffer

  /** The first index of c in s, or |s|. */
  function IndexOf(s: string, c: char): (k: nat)
    ensures k <= |s| && c !in s[..k] && (k < |s| ==> s[k] == c)
  {
    if s == "" || s[0] == c then 0 else 1 + IndexOf(s[1..], c)
  }

  /** The text behind the first '['. */
  function Body(text: string): string
    requires '[' in text
  {
    text[IndexOf(text, '[') + 1..]
  }

  /** The text up to the first NUL: what the string functions see of the buffer. */
  function Seen(buffer: string): (r: string)
    ensures |r| <= |buffer| && r == buffer[..|r|] && '\0' !in r
    ensures |r| < |buffer| ==> buffer[|r|] == '\0'
  {
    buffer[..IndexOf(buffer, '\0')]
  }

  /** No sequence has been completed yet. */
  predicate Pending(buffer: string) {
    '[' in Seen(buffer) ==> 'm' !in Body(Seen(buffer))
  }

  lemma SeenExtends(buffer: string, ch: char)
    ensures '\0' in buffer ==> Seen(buffer + [ch]) == Seen(buffer)
    ensures '\0' !in buffer ==> Seen(buffer) == buffer
    ensures '\0' !in buffer + [ch] ==> Seen(buffer + [ch]) == buffer + [ch]
    ensures '\0' !in buffer && ch == '\0' ==> Seen(buffer + [ch]) == buffer
  {
    var k := IndexOf(buffer, '\0');
    var all := buffer + [ch];
    if k < |buffer| || ch == '\0' {
      assert all[..k] == buffer[..k];
      FirstIndex(all, '\0', k);
    }
  }

  /** What the buffered characters of an unfinished sequence amount to. */
  ghost function ScanOf(buffer: string): Scan {
    if '\0' in buffer then Stuck
    else if '[' in buffer then Code(AtoiValue(Body(buffer)))
    else Seek
  }

  lemma BodyExtends(buffer: string, ch: char)
    requires '[' in buffer
    ensures '[' in buffer + [ch] && Body(buffer + [ch]) == Body(buffer) + [ch]
  {
    var k := IndexOf(buffer, '[');
    FirstIndex(buffer + [ch], '[', k);
    assert (buffer + [ch])[k + 1..] == buffer[k + 1..] + [ch];
  }

  lemma {:induction false} FirstIndex(s: string, c: char, k: nat)
    requires k < |s| && s[k] == c && c !in s[..k]
    ensures IndexOf(s, c) == k
  {
    if k > 0 {
      assert s[0] == s[..k][0];
      assert s[1..][..k - 1] == s[..k][1..];
      FirstIndex(s[1..], c, k - 1);
    }
  }

  /** Re-scanning the extended buffer is one step of the automaton. */
  lemma ScanStep(buffer: string, ch: char)
    requires Pending(buffer)
    ensures match Feed(ScanOf(buffer), ch)
            case More(s) => Pending(buffer + [ch]) && ScanOf(buffer + [ch]) == s
            case Done(code) => '\0' !in buffer && '[' in buffer && ch == 'm' && code == AtoiValue(Body(buffer))
  {
    hide AtoiValue, Seen, IndexOf;
    SeenExtends(buffer, ch);
    if '\0' in buffer {
      assert '\0' in buffer + [ch];
    } else if ch == '\0' {
      assert (buffer + [ch])[|buffer|] == '\0';
    } else if '[' in buffer {
      BodyExtends(buffer, ch);
      AtoiStep(Body(buffer), ch);
    } else if ch == '[' {
      FirstIndex(buffer + [ch], '[', |buffer|);
      assert Body(buffer + [ch]) == "";
      AtoiEmpty();
    }
  }

  lemma AtoiEmpty()
    ensures AtoiValue("") == 0
  {
    assert Offsets("") == [];
  }
}
