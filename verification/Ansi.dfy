/** The state of kernel/video/ansi.c, with the attribute globals of kernel/tty.c. */
module Ansi {
  import opened CTypes
  import opened CStrings
  import opened Sgr

  /** A string literal of one character. */
  method Literal(c: char) returns (s: array<char>)
    requires c != '\0'
    ensures fresh(s) && Terminated(s[..], 0) && StringAt(s[..], 0) == [c]
  {
    s := new char[][c, '\0'];
    assert s[..][0..1] == [c];
    StringAtIs(s[..], 0, [c]);
  }

  class EscapeParser {
    var escapeCompleted: bool
    const escapeSequence: array<char>
    var escapeSequenceLength: nat
    var color: uint32
    var bgColor: uint32
    var bold: bool

    ghost predicate Valid()
      reads this, escapeSequence
    {
      && escapeSequence.Length == 256 && escapeSequenceLength <= 255
      && !escapeCompleted && Pending(escapeSequence[..escapeSequenceLength])
    }

    /** The state of the streaming automaton that the buffer stands for. */
    ghost function State(): Scan
      requires Valid()
      reads this, escapeSequence
    {
      ScanOf(escapeSequence[..escapeSequenceLength])
    }

    function Attributes(): Attr
      reads this
    {
      Attr(color, bgColor, bold)
    }

    constructor ()
      ensures Valid() && State() == Seek && escapeSequenceLength == 0
      ensures Attributes() == Attr(COLOR_LGRAY, 0, false)
      ensures fresh(escapeSequence)
    {
      escapeCompleted, escapeSequence, escapeSequenceLength := false, new char[256], 0;
      color, bgColor, bold := COLOR_LGRAY, 0, false;
    }

    /** Colour and attribute switching. */
    method SelectGraphicRendition(code: int)
      modifies this`color, this`bgColor, this`bold
      ensures Attributes() == Apply(code, old(Attributes()))
    {
      match code {
        case 0 =>
          color := COLOR_LGRAY;
          bgColor := COLOR_BLACK;
          bold := false;
        case 1 => bold := true;
        case 22 => bold := false;
        case 30 => color := COLOR_BLACK;
        case 31 => color := COLOR_RED;
        case 32 => color := COLOR_GREEN;
        case 33 => color := COLOR_YELLOW;
        case 34 => color := COLOR_BLUE;
        case 35 => color := COLOR_PURPLE;
        case 36 => color := COLOR_CYAN;
        case 37 => color := COLOR_LGRAY;
        case 40 => bgColor := COLOR_BLACK;
        case 41 => bgColor := COLOR_RED;
        case 42 => bgColor := COLOR_GREEN;
        case 43 => bgColor := COLOR_YELLOW;
        case 44 => bgColor := COLOR_BLUE;
        case 45 => bgColor := COLOR_PURPLE;
        case 46 => bgColor := COLOR_CYAN;
        case 47 => bgColor := COLOR_LGRAY;
        case _ =>
      }
    }

    /** The code of a completed sequence in the buffer, found by scanning it for '[' and 'm'. */
    method FindCode() returns (code: Option<int32>)
      requires escapeSequence.Length == 256 && Terminated(escapeSequence[..], 0)
      ensures var text := StringAt(escapeSequence[..], 0);
              code == if '[' in text && 'm' in Body(text)
                      then Some(AtoiValue(Body(text)[..IndexOf(Body(text), 'm')])) else None
    {
      hide StringAt, AtoiValue, IndexOf, Terminated, StrstrResult, Body;
      ghost var text := StringAt(escapeSequence[..], 0);
      var bracket := Literal('[');
      var start := Strstr(escapeSequence, 0, bracket, 0);
      StrstrCharacter(text, '[', start);
      if start == None {
        return None;
      }
      code := CodeAt(start.value);
    }

    /** The code behind the '[' at k, up to the next 'm'. */
    method CodeAt(k: nat) returns (code: Option<int32>)
      requires escapeSequence.Length == 256 && Terminated(escapeSequence[..], 0)
      requires '[' in StringAt(escapeSequence[..], 0) && k == IndexOf(StringAt(escapeSequence[..], 0), '[')
      ensures var body := Body(StringAt(escapeSequence[..], 0));
              code == if 'm' in body then Some(AtoiValue(body[..IndexOf(body, 'm')])) else None
    {
      hide StringAt, AtoiValue, IndexOf, Terminated, StrstrResult, Body;
      ghost var memory := escapeSequence[..];
      ghost var text := StringAt(memory, 0);
      StringAtSuffix(memory, 0, k);
      EndOfBody(text, k);
      var letter := Literal('m');
      var end := Strstr(escapeSequence, k, letter, 0);
      StrstrCharacter(text[k..], 'm', if end.Some? then Some(end.value - k) else None);
      if end == None {
        return None;
      }
      var codeLength := end.value - k - 1;
      TextInMemory(memory, text, k + 1, codeLength);
      var value := ReadCode(k + 1, codeLength);
      return Some(value);
    }

    /** Copies the length characters at first into a string of their own and reads them. */
    method ReadCode(first: nat, length: nat) returns (value: int32)
      requires first + length <= escapeSequence.Length && '\0' !in escapeSequence[first..first + length]
      ensures value == AtoiValue(escapeSequence[first..first + length])
    {
      hide StringAt, AtoiValue, Terminated;
      ghost var digits := escapeSequence[first..first + length];
      var colorCode := new char[length + 1];
      Memcpy(colorCode, 0, escapeSequence, first, length);
      colorCode[length] := '\0';
      assert colorCode[..][0..|digits|] == digits;
      StringAtIs(colorCode[..], 0, digits);
      value := Atoi(colorCode, 0);
    }

    /**
     Appends ch to the sequence; true when that completes it. The buffer holds
     255 characters and their terminator, so a longer sequence must not come.
     */
    method HandleEsc(ch: char) returns (done: bool)
      requires Valid() && escapeSequenceLength < 255
      modifies this, escapeSequence
      ensures Valid()
      ensures match Feed(old(State()), ch)
              case More(s) =>
                !done && State() == s && escapeSequenceLength == old(escapeSequenceLength) + 1
                && Attributes() == old(Attributes())
              case Done(code) =>
                done && State() == Seek && escapeSequenceLength == 0 && Attributes() == Apply(code, old(Attributes()))
    {
      hide Feed, Apply, Pending, Seen, IndexOf, Body, StringAt, Terminated, AtoiValue;
      ghost var buffer := escapeSequence[..escapeSequenceLength];
      escapeSequence[escapeSequenceLength] := ch;
      escapeSequenceLength := escapeSequenceLength + 1;
      escapeSequence[escapeSequenceLength] := '\0';
      assert escapeSequence[..escapeSequenceLength] == buffer + [ch];
      BufferString(escapeSequence[..], buffer + [ch]);
      ScanStep(buffer, ch);
      Completion(buffer, ch);
      if 0x40 <= ch as int <= 0x7E {
        var code := FindCode();
        if code.Some? {
          escapeCompleted := true;
          SelectGraphicRendition(code.value);
        }
      }
      if escapeCompleted {
        escapeCompleted := false;
        escapeSequenceLength := 0;
        EmptyBuffer();
        assert escapeSequence[..0] == "";
        return true;
      }
      return false;
    }
  }

  lemma EmptyBuffer()
    ensures Pending("") && ScanOf("") == Seek
  {
  }

  /** The string functions see the buffer up to its first NUL. */
  lemma BufferString(memory: seq<char>, buffer: string)
    requires |buffer| < |memory| && memory[..|buffer|] == buffer && memory[|buffer|] == '\0'
    ensures Terminated(memory, 0) && StringAt(memory, 0) == Seen(buffer)
  {
    var text := Seen(buffer);
    assert memory[0..|text|] == buffer[..|text|];
    if |text| < |buffer| {
      assert memory[|text|] == memory[..|buffer|][|text|];
    }
    StringAtIs(memory, 0, text);
  }

  /** A sequence is found in the buffer exactly when the automaton completes one. */
  lemma Completion(buffer: string, ch: char)
    requires Pending(buffer)
    ensures var text := Seen(buffer + [ch]);
            match Feed(ScanOf(buffer), ch)
            case More(_) => !('[' in text && 'm' in Body(text))
            case Done(code) =>
              && ch == 'm' && '[' in text && 'm' in Body(text)
              && AtoiValue(Body(text)[..IndexOf(Body(text), 'm')]) == code
  {
    hide AtoiValue, Seen, IndexOf, Body;
    ScanStep(buffer, ch);
    SeenExtends(buffer, ch);
    if Feed(ScanOf(buffer), ch).Done? {
      assert '\0' !in buffer + [ch] && Seen(buffer + [ch]) == buffer + [ch];
      BodyExtends(buffer, ch);
      var body := Body(buffer);
      assert 'm' !in body;
      assert (body + [ch])[|body|] == 'm';
      assert (body + [ch])[..|body|] == body;
      FirstIndex(body + [ch], 'm', |body|);
    }
  }

  lemma StrstrCharacter(h: string, c: char, r: Option<nat>)
    requires StrstrResult(h, [c], r)
    ensures r == if c in h then Some(IndexOf(h, c)) else None
  {
    assert forall k :: 0 <= k < |h| ==> (OccursAt(h, k, [c]) <==> h[k] == c);
    if c in h {
      FirstIndex(h, c, r.value);
    }
  }

  lemma TextInMemory(memory: seq<char>, text: string, first: nat, n: nat)
    requires |text| <= |memory| && text == memory[..|text|] && first + n <= |text| && '\0' !in text
    ensures memory[first..first + n] == text[first..][..n]
    ensures '\0' !in text[first..][..n]
  {
  }

  /** The 'm' that ends a code, counted from its '['. */
  lemma EndOfBody(text: string, k: nat)
    requires '[' in text && k == IndexOf(text, '[')
    ensures Body(text) == text[k + 1..]
    ensures 'm' in text[k..] <==> 'm' in Body(text)
    ensures 'm' in text[k..] ==> IndexOf(text[k..], 'm') == IndexOf(Body(text), 'm') + 1
  {
    var body := Body(text);
    assert text[k..] == "[" + body;
    hide Body, IndexOf;
    MInTail(body);
  }

  lemma Found(s: string, c: char)
    requires c in s
    ensures IndexOf(s, c) < |s|
  {
    assert s[..|s|] == s;
  }

  lemma MInTail(body: string)
    ensures 'm' in "[" + body <==> 'm' in body
    ensures 'm' in body ==> IndexOf("[" + body, 'm') == IndexOf(body, 'm') + 1
  {
    hide IndexOf;
    if 'm' in body {
      var j := IndexOf(body, 'm');
      Found(body, 'm');
      assert ("[" + body)[..j + 1] == "[" + body[..j];
      FirstIndex("[" + body, 'm', j + 1);
    }
  }
}
