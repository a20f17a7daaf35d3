/** Laws of the abstract terminal, for every stream of characters. */
module ScreenLaws {
  import opened CTypes
  import opened Numerals
  import opened CStrings
  import opened Sgr
  import opened Screen

  lemma {:induction false} RunJoin(t: State, width: nat, s1: string, s2: string)
    ensures Run(t, width, s1 + s2) == Run(Run(t, width, s1), width, s2)
    decreases |s1|
  {
    hide Putchar;
    if s1 == "" {
      assert s1 + s2 == s2;
    } else {
      assert (s1 + s2)[1..] == s1[1..] + s2;
      RunJoin(Putchar(t, width, s1[0]), width, s1[1..], s2);
    }
  }

  // ------------------------------------------------------------- invariants

  /** The cursor is in a column of the screen; outside an escape sequence the automaton rests. */
  predicate Consistent(t: State, width: nat) {
    t.x < width && (!t.esc ==> t.scan == Seek && t.pending == 0)
  }

  lemma PutcharKeeps(t: State, width: nat, ch: char)
    requires Consistent(t, width)
    ensures Consistent(Putchar(t, width, ch), width)
  {
    hide Feed, Apply;
  }

  /** Every run keeps the cursor inside the line and the automaton at rest between sequences. */
  lemma {:induction false} RunKeeps(t: State, width: nat, s: string)
    requires Consistent(t, width)
    ensures Consistent(Run(t, width, s), width)
    decreases |s|
  {
    hide Putchar, Consistent;
    if s != "" {
      PutcharKeeps(t, width, s[0]);
      RunKeeps(Putchar(t, width, s[0]), width, s[1..]);
    }
  }

  /** A drawn character, unless in the last column, and a backspace: the cursor is back, the cell is a space. */
  lemma BackspaceErases(t: State, width: nat, ch: char)
    requires width <= 0x1_0000 && !t.esc && !IsControl(ch) && t.x + 1 < width
    ensures Run(t, width, [ch, BACKSPACE])
            == t.(cells := t.cells[(t.x, t.y) := Cell(Glyph(' '), t.attr.color, t.attr.bg, t.attr.bold)])
  {
    hide Feed, Apply;
    var once := Putchar(t, width, ch);
    assert once == t.(x := t.x + 1, cells := t.cells[(t.x, t.y) := Cell(Glyph(ch), t.attr.color, t.attr.bg, t.attr.bold)]);
    assert [ch, BACKSPACE][1..] == [BACKSPACE];
    assert Run(once, width, [BACKSPACE]) == Run(Putchar(once, width, BACKSPACE), width, "");
    assert once.cells[(t.x, t.y) := Cell(Glyph(' '), t.attr.color, t.attr.bg, t.attr.bold)]
        == t.cells[(t.x, t.y) := Cell(Glyph(' '), t.attr.color, t.attr.bg, t.attr.bold)];
  }

  // ------------------------------------------------------- escape sequences

  /** The parameter text of a sequence `ESC [ body m`. */
  predicate IsBody(body: string) {
    '\0' !in body && 'm' !in body && ESC !in body
  }

  function Sequence(body: string): string {
    [ESC, '['] + body + "m"
  }

  /** Reading the body of a sequence accumulates its number and touches nothing else. */
  lemma {:induction false} RunBody(t: State, width: nat, body: string, v: int32)
    requires t.esc && t.scan == Code(v) && IsBody(body)
    ensures Run(t, width, body).scan.Code?
    ensures Run(t, width, body) == t.(scan := Run(t, width, body).scan, pending := t.pending + |body|)
    ensures forall before :: AtoiValue(before) == v ==> Run(t, width, body).scan == Code(AtoiValue(before + body))
    decreases |body|
  {
    hide AtoiValue, Int32;
    if body == "" {
      assert forall before :: before + body == before;
    } else {
      var c := body[0];
      assert c in body;
      var next := Int32(v * 10 + SignedChar(c) - '0' as int);
      RunBody(Putchar(t, width, c), width, body[1..], next);
      forall before | AtoiValue(before) == v
        ensures Run(t, width, body).scan == Code(AtoiValue(before + body))
      {
        AtoiStep(before, c);
        assert before + [c] + body[1..] == before + body;
      }
    }
  }

  /**
   A sequence `ESC [ body m` at an idle terminal only applies the code its body
   denotes: cursor and grid stay, and the terminal is idle again.
   */
  lemma RunSequence(t: State, width: nat, body: string)
    requires Consistent(t, width) && !t.esc && IsBody(body)
    ensures Run(t, width, Sequence(body)) == t.(attr := Apply(AtoiValue(body), t.attr))
  {
    hide AtoiValue, Apply;
    AtoiEmpty();
    var begun := Run(t, width, [ESC, '[']);
    assert begun == t.(esc := true, scan := Code(0), pending := 1) by { OpenSequence(t, width); }
    RunJoin(t, width, [ESC, '['], body + "m");
    RunJoin(begun, width, body, "m");
    assert [ESC, '['] + (body + "m") == Sequence(body);
    RunBody(begun, width, body, 0);
    assert "" + body == body;
    var read := Run(begun, width, body);
    assert Run(read, width, "m") == Run(Putchar(read, width, 'm'), width, "");
  }

  lemma OpenSequence(t: State, width: nat)
    requires Consistent(t, width) && !t.esc
    ensures Run(t, width, [ESC, '[']) == t.(esc := true, scan := Code(0), pending := 1)
  {
    var once := Putchar(t, width, ESC);
    assert [ESC, '['][1..] == ['['];
    assert Run(once, width, ['[']) == Run(Putchar(once, width, '['), width, "");
  }

  /** Such a sequence fits if its body has at most 253 characters. */
  lemma SequenceFits(t: State, width: nat, height: nat, body: string)
    requires Consistent(t, width) && !t.esc && IsBody(body) && |body| <= 253
    ensures RunFits(t, width, height, Sequence(body))
  {
    var once := Putchar(t, width, ESC);
    var begun := Putchar(once, width, '[');
    var s := Sequence(body);
    assert s[1..] == ['['] + (body + "m");
    assert s[1..][1..] == body + "m";
    BodyFits(begun, width, height, body, 0);
  }

  lemma {:induction false} BodyFits(t: State, width: nat, height: nat, body: string, v: int32)
    requires t.esc && t.scan == Code(v) && IsBody(body) && t.pending + |body| < 255
    ensures RunFits(t, width, height, body + "m")
    decreases |body|
  {
    if body == "" {
      assert body + "m" == "m";
      assert "m"[1..] == "";
    } else {
      var c := body[0];
      assert c in body;
      assert (body + "m")[1..] == body[1..] + "m";
      BodyFits(Putchar(t, width, c), width, height, body[1..], Int32(v * 10 + SignedChar(c) - '0' as int));
    }
  }

  // ------------------------------------------------ escapes and the layout

  /** A drawn cell, with its place. */
  datatype Placed = Placed(x: int, y: int, cell: Cell)

  /** What one character draws. */
  function Drawn(t: State, ch: char): seq<Placed> {
    if ch == ESC || t.esc || ch == '\r' || ch == '\n' then []
    else if ch == BACKSPACE then
      if t.x == 0 then [] else [Placed(t.x - 1, t.y, Cell(Glyph(' '), t.attr.color, t.attr.bg, t.attr.bold))]
    else [Placed(t.x, t.y, Cell(Glyph(ch), t.attr.color, t.attr.bg, t.attr.bold))]
  }

  /** Everything a run draws, in order. */
  function DrawnBy(t: State, width: nat, s: string): seq<Placed>
    decreases |s|
  {
    if s == "" then [] else Drawn(t, s[0]) + DrawnBy(Putchar(t, width, s[0]), width, s[1..])
  }

  function Place(cells: map<(int, int), Cell>, log: seq<Placed>): map<(int, int), Cell>
    decreases |log|
  {
    if log == [] then cells else Place(cells[(log[0].x, log[0].y) := log[0].cell], log[1..])
  }

  lemma CellsAreDrawn(t: State, width: nat, ch: char)
    ensures |Drawn(t, ch)| <= 1
    ensures Putchar(t, width, ch).cells == Place(t.cells, Drawn(t, ch))
  {
    hide Feed, Apply;
    var log := Drawn(t, ch);
    assert log != [] ==> log[1..] == [];
  }

  /** The grid is the record of what was drawn. */
  lemma {:induction false} GridIsLog(t: State, width: nat, s: string)
    ensures Run(t, width, s).cells == Place(t.cells, DrawnBy(t, width, s))
    decreases |s|
  {
    hide Putchar, Drawn;
    if s != "" {
      var log, rest := Drawn(t, s[0]), DrawnBy(Putchar(t, width, s[0]), width, s[1..]);
      CellsAreDrawn(t, width, s[0]);
      GridIsLog(Putchar(t, width, s[0]), width, s[1..]);
      if log == [] {
        assert log + rest == rest;
      } else {
        assert (log + rest)[1..] == rest;
      }
    }
  }

  /** The characters of s that are not part of an escape sequence. */
  function Plain(t: State, width: nat, s: string): string
    decreases |s|
  {
    if s == "" then ""
    else (if t.esc || s[0] == ESC then "" else [s[0]]) + Plain(Putchar(t, width, s[0]), width, s[1..])
  }

  /** Cells with their glyphs, without their colours. */
  function Shapes(log: seq<Placed>): seq<(int, int, byte)> {
    seq(|log|, i requires 0 <= i < |log| => (log[i].x, log[i].y, log[i].cell.glyph))
  }

  /** Two terminals with the same cursor lay out plain characters alike. */
  lemma SameLayout(t: State, u: State, width: nat, ch: char)
    requires t.x == u.x && t.y == u.y && !t.esc && !u.esc && ch != ESC
    ensures var t', u' := Putchar(t, width, ch), Putchar(u, width, ch);
            t'.x == u'.x && t'.y == u'.y && !t'.esc && !u'.esc && t'.scan == t.scan && u'.scan == u.scan
    ensures Shapes(Drawn(t, ch)) == Shapes(Drawn(u, ch))
  {
    hide Feed, Apply;
    SameShapes(t, u, ch);
    hide Drawn, Shapes;
  }

  lemma SameShapes(t: State, u: State, ch: char)
    requires t.x == u.x && t.y == u.y && !t.esc && !u.esc && ch != ESC
    ensures Shapes(Drawn(t, ch)) == Shapes(Drawn(u, ch))
  {
  }

  /**
   Escape sequences are invisible to the layout: whatever the stream, the
   cursor and the drawn glyphs are those of its plain characters alone, on any
   terminal with the same cursor.
   */
  lemma {:induction false} EscapesInvisible(t: State, u: State, width: nat, s: string)
    requires t.x == u.x && t.y == u.y && !u.esc
    ensures var plain := Plain(t, width, s);
            && Run(t, width, s).x == Run(u, width, plain).x && Run(t, width, s).y == Run(u, width, plain).y
            && Shapes(DrawnBy(t, width, s)) == Shapes(DrawnBy(u, width, plain))
    decreases |s|
  {
    hide Putchar;
    if s != "" {
      var ch, t' := s[0], Putchar(t, width, s[0]);
      var rest := Plain(t', width, s[1..]);
      if t.esc || ch == ESC {
        StaysPut(t, width, ch);
        EscapesInvisible(t', u, width, s[1..]);
        assert "" + rest == rest;
        assert [] + DrawnBy(t', width, s[1..]) == DrawnBy(t', width, s[1..]);
      } else {
        var u' := Putchar(u, width, ch);
        SameLayout(t, u, width, ch);
        EscapesInvisible(t', u', width, s[1..]);
        assert ([ch] + rest)[1..] == rest;
        ShapesJoin(Drawn(t, ch), DrawnBy(t', width, s[1..]));
        ShapesJoin(Drawn(u, ch), DrawnBy(u', width, rest));
      }
    }
  }

  lemma StaysPut(t: State, width: nat, ch: char)
    requires t.esc || ch == ESC
    ensures Putchar(t, width, ch).x == t.x && Putchar(t, width, ch).y == t.y && Drawn(t, ch) == []
  {
  }

  lemma ShapesJoin(a: seq<Placed>, b: seq<Placed>)
    ensures Shapes(a + b) == Shapes(a) + Shapes(b)
  {
  }

  // --------------------------------------------- text mixed with sequences

  datatype Item = Text(c: char) | Sgr(body: string)

  predicate IsItem(item: Item) {
    match item
    case Text(c) => c != ESC
    case Sgr(body) => IsBody(body)
  }

  function Stream(items: seq<Item>): string {
    if items == [] then ""
    else (if items[0].Text? then [items[0].c] else Sequence(items[0].body)) + Stream(items[1..])
  }

  /** What the items draw when each SGR item just changes the attributes. */
  ghost function ItemsDraw(t: State, width: nat, items: seq<Item>): seq<Placed>
    decreases |items|
  {
    if items == [] then []
    else match items[0]
      case Text(c) => Drawn(t, c) + ItemsDraw(Putchar(t, width, c), width, items[1..])
      case Sgr(body) => ItemsDraw(t.(attr := Apply(AtoiValue(body), t.attr)), width, items[1..])
  }

  lemma {:induction false} DrawnJoin(t: State, width: nat, s1: string, s2: string)
    ensures DrawnBy(t, width, s1 + s2) == DrawnBy(t, width, s1) + DrawnBy(Run(t, width, s1), width, s2)
    decreases |s1|
  {
    hide Putchar, Drawn;
    if s1 == "" {
      assert s1 + s2 == s2;
    } else {
      assert (s1 + s2)[1..] == s1[1..] + s2;
      DrawnJoin(Putchar(t, width, s1[0]), width, s1[1..], s2);
    }
  }

  /** In a mixed stream every cell is drawn in the colours that the preceding codes add up to. */
  lemma {:induction false} StreamDraws(t: State, width: nat, items: seq<Item>)
    requires Consistent(t, width) && !t.esc && forall i :: 0 <= i < |items| ==> IsItem(items[i])
    ensures DrawnBy(t, width, Stream(items)) == ItemsDraw(t, width, items)
    decreases |items|
  {
    hide Putchar, Drawn, Apply, AtoiValue, Sequence;
    if items != [] {
      match items[0]
      case Text(c) =>
        PutcharKeeps(t, width, c);
        TextStaysIdle(t, width, c);
        assert Stream(items)[1..] == Stream(items[1..]);
        StreamDraws(Putchar(t, width, c), width, items[1..]);
      case Sgr(body) =>
        RunSequence(t, width, body);
        SequenceDrawsNothing(t, width, body);
        DrawnJoin(t, width, Sequence(body), Stream(items[1..]));
        var t' := t.(attr := Apply(AtoiValue(body), t.attr));
        StreamDraws(t', width, items[1..]);
        assert [] + ItemsDraw(t', width, items[1..]) == ItemsDraw(t', width, items[1..]);
    }
  }

  lemma TextStaysIdle(t: State, width: nat, c: char)
    requires !t.esc && c != ESC
    ensures !Putchar(t, width, c).esc
  {
  }

  lemma SequenceDrawsNothing(t: State, width: nat, body: string)
    requires Consistent(t, width) && !t.esc && IsBody(body)
    ensures DrawnBy(t, width, Sequence(body)) == []
  {
    var once := Putchar(t, width, ESC);
    var s := Sequence(body);
    assert s[1..] == ['['] + (body + "m");
    assert s[1..][1..] == body + "m";
    BodyDrawsNothing(Putchar(once, width, '['), width, body, 0);
  }

  lemma {:induction false} BodyDrawsNothing(t: State, width: nat, body: string, v: int32)
    requires t.esc && t.scan == Code(v) && IsBody(body)
    ensures DrawnBy(t, width, body + "m") == []
    decreases |body|
  {
    if body == "" {
      assert body + "m" == "m";
      assert "m"[1..] == "";
    } else {
      var c := body[0];
      assert c in body;
      assert (body + "m")[1..] == body[1..] + "m";
      BodyDrawsNothing(Putchar(t, width, c), width, body[1..], Int32(v * 10 + SignedChar(c) - '0' as int));
    }
  }

  // ------------------------------------------------- stripping sequences

  /** The text of a stream, without its SGR sequences. */
  function Texts(items: seq<Item>): string {
    if items == [] then "" else (if items[0].Text? then [items[0].c] else "") + Texts(items[1..])
  }

  lemma {:induction false} PlainJoin(t: State, width: nat, s1: string, s2: string)
    ensures Plain(t, width, s1 + s2) == Plain(t, width, s1) + Plain(Run(t, width, s1), width, s2)
    decreases |s1|
  {
    hide Putchar;
    if s1 == "" {
      assert s1 + s2 == s2;
    } else {
      assert (s1 + s2)[1..] == s1[1..] + s2;
      PlainJoin(Putchar(t, width, s1[0]), width, s1[1..], s2);
    }
  }

  /** No character of a sequence is plain. */
  lemma SequenceIsNotPlain(t: State, width: nat, body: string)
    requires Consistent(t, width) && !t.esc && IsBody(body)
    ensures Plain(t, width, Sequence(body)) == ""
  {
    var once := Putchar(t, width, ESC);
    var s := Sequence(body);
    assert s[1..] == ['['] + (body + "m");
    assert s[1..][1..] == body + "m";
    BodyIsNotPlain(Putchar(once, width, '['), width, body, 0);
  }

  lemma {:induction false} BodyIsNotPlain(t: State, width: nat, body: string, v: int32)
    requires t.esc && t.scan == Code(v) && IsBody(body)
    ensures Plain(t, width, body + "m") == ""
    decreases |body|
  {
    if body == "" {
      assert body + "m" == "m";
      assert "m"[1..] == "";
    } else {
      var c := body[0];
      assert c in body;
      assert (body + "m")[1..] == body[1..] + "m";
      BodyIsNotPlain(Putchar(t, width, c), width, body[1..], Int32(v * 10 + SignedChar(c) - '0' as int));
    }
  }

  /** Outside escape sequences a mixed stream has exactly the characters of its text items. */
  lemma {:induction false} PlainIsTexts(t: State, width: nat, items: seq<Item>)
    requires Consistent(t, width) && !t.esc && forall i :: 0 <= i < |items| ==> IsItem(items[i])
    ensures Plain(t, width, Stream(items)) == Texts(items)
    decreases |items|
  {
    hide Putchar, Apply, AtoiValue, Sequence;
    if items != [] {
      match items[0]
      case Text(c) =>
        PutcharKeeps(t, width, c);
        TextStaysIdle(t, width, c);
        assert Stream(items)[1..] == Stream(items[1..]);
        PlainIsTexts(Putchar(t, width, c), width, items[1..]);
      case Sgr(body) =>
        RunSequence(t, width, body);
        SequenceIsNotPlain(t, width, body);
        PlainJoin(t, width, Sequence(body), Stream(items[1..]));
        PlainIsTexts(t.(attr := Apply(AtoiValue(body), t.attr)), width, items[1..]);
    }
  }

  /**
   Stripping SGR sequences is invisible to the layout: the stream and its bare
   text leave the cursor in the same place and draw the same glyphs in the same
   cells, in the same order.
   */
  lemma StrippedLayout(t: State, u: State, width: nat, items: seq<Item>)
    requires Consistent(t, width) && !t.esc && forall i :: 0 <= i < |items| ==> IsItem(items[i])
    requires t.x == u.x && t.y == u.y && !u.esc
    ensures var all, bare := Stream(items), Texts(items);
            && Run(t, width, all).x == Run(u, width, bare).x && Run(t, width, all).y == Run(u, width, bare).y
            && Shapes(DrawnBy(t, width, all)) == Shapes(DrawnBy(u, width, bare))
  {
    hide Run, DrawnBy, Stream, Texts, Plain, Consistent, IsItem;
    PlainIsTexts(t, width, items);
    EscapesInvisible(t, u, width, Stream(items));
  }

  // ------------------------------------------------- where characters go

  /** Outside escape sequences a newline goes to the start of the next row, a carriage return to the start of this one. */
  lemma LineEnds(t: State, width: nat, s: string)
    requires !Run(t, width, s).esc
    ensures var u := Run(t, width, s);
            && Run(t, width, s + "\n") == u.(x := 0, y := (u.y + 1) % 0x1_0000)
            && Run(t, width, s + "\r") == u.(x := 0)
  {
    hide Run;
    RunJoin(t, width, s, "\n");
    RunJoin(t, width, s, "\r");
    LineEnd(Run(t, width, s), width);
  }

  lemma LineEnd(u: State, width: nat)
    requires !u.esc
    ensures Run(u, width, "\n") == u.(x := 0, y := (u.y + 1) % 0x1_0000)
    ensures Run(u, width, "\r") == u.(x := 0)
  {
    hide Feed, Apply;
    assert Run(u, width, "\n") == Run(Putchar(u, width, '\n'), width, "");
    assert Run(u, width, "\r") == Run(Putchar(u, width, '\r'), width, "");
  }

  /** A backspace puts a space into the cell to the left of the cursor and stays there; in the first column it does nothing. */
  lemma BackspaceStep(t: State, width: nat)
    requires t.x < width < 0x1_0000 && !t.esc
    ensures Run(t, width, "\U{0008}")
            == if t.x == 0 then t
               else t.(x := t.x - 1, cells := t.cells[(t.x - 1, t.y) := Cell(0x20, t.attr.color, t.attr.bg, t.attr.bold)])
  {
    hide Feed, Apply;
    var u := Putchar(t, width, '\U{0008}');
    assert Run(t, width, "\U{0008}") == Run(u, width, "");
  }

  /** Control characters fit in any row, except that a backspace needs one that is on the screen. */
  lemma ControlsFit(t: State, width: nat, height: nat)
    requires t.x < width && !t.esc
    ensures RunFits(t, width, height, "\n") && RunFits(t, width, height, "\r") && RunFits(t, width, height, "\U{001B}")
    ensures RunFits(t, width, height, "\U{0008}") <==> t.x == 0 || t.y < height
  {
    assert "\n"[1..] == "\r"[1..] == "\U{001B}"[1..] == "\U{0008}"[1..] == "";
  }

  /** A visible character is drawn where it is asked for, in the given colours, and in bold if that is set. */
  lemma WriteDraws(t: State, width: nat, ch: char, x: uint16, y: uint16, color: uint32, bg: uint32)
    requires t.x < width < 0x1_0000 && !t.esc && ch as int < 0x100 && ch != '\U{001B}' && ch != '\U{0008}' && ch != '\n' && ch != '\r'
    ensures var cell := Cell(ch as int, color, bg, t.attr.bold);
            Write(t, width, ch, x, y, color, bg)
            == t.(cells := t.cells[(x, y) := cell],
                  x := if t.x + 1 >= width then 0 else (t.x + 1) % 0x1_0000,
                  y := if t.x + 1 >= width then (t.y + 1) % 0x1_0000 else t.y)
  {
  }

  /** No control characters. */
  predicate Visible(s: string) {
    forall i :: 0 <= i < |s| ==> s[i] != '\U{001B}' && s[i] != '\U{0008}' && s[i] != '\n' && s[i] != '\r' && s[i] as int < 0x100
  }

  /** The k-th place behind (x, y), in lines of the given width. */
  lemma NextPlace(x: nat, width: nat, k: nat)
    requires x < width
    ensures var x' := if x + 1 >= width then 0 else x + 1;
            && (x + (k + 1)) % width == (x' + k) % width
            && (x + (k + 1)) / width == (x' + k) / width + if x + 1 >= width then 1 else 0
  {
    if x + 1 >= width {
      var q, r := k / width, k % width;
      assert k == width * q + r;
      ModUnique(k, width, q, r);
      assert x + (k + 1) == width * (q + 1) + r;
      ModUnique(x + (k + 1), width, q + 1, r);
    }
  }

  /** The place k behind a cursor that has moved on by one is the place k + 1 behind the cursor before. */
  lemma PlaceShift(x: nat, y: nat, width: nat, k: nat)
    requires x < width
    ensures var x' := if x + 1 >= width then 0 else x + 1;
            var y' := if x + 1 >= width then (y + 1) % 0x1_0000 else y;
            && (x' + k) % width == (x + (k + 1)) % width
            && (y' + (x' + k) / width) % 0x1_0000 == (y + (x + (k + 1)) / width) % 0x1_0000
  {
    NextPlace(x, width, k);
    if x + 1 >= width {
      ModAdd(y + 1, (0 + k) / width, 0x1_0000);
      assert (y + 1) + (0 + k) / width == y + (x + (k + 1)) / width;
    }
  }

  /**
   Visible text fills the lines: the k-th character is drawn k places behind
   the cursor, in the current colours.
   */
  lemma {:induction false} TextFillsLines(t: State, width: nat, s: string, k: nat)
    requires t.x < width < 0x1_0000 && !t.esc && Visible(s) && k < |s|
    ensures |DrawnBy(t, width, s)| == |s|
    ensures var place := t.x + k;
            s[k] as int < 0x100
            && DrawnBy(t, width, s)[k] == Placed(place % width, (t.y + place / width) % 0x1_0000,
                                                 Cell(s[k] as int, t.attr.color, t.attr.bg, t.attr.bold))
    decreases |s|
  {
    hide Putchar, Drawn;
    var c := s[0];
    FirstPlace(t, width, c);
    var u := Putchar(t, width, c);
    if |s| > 1 {
      TextFillsLines(u, width, s[1..], if k == 0 then 0 else k - 1);
    }
    if k == 0 {
      ModUnique(t.x, width, 0, t.x);
    } else {
      PlaceShift(t.x, t.y, width, k - 1);
      assert DrawnBy(t, width, s)[k] == DrawnBy(u, width, s[1..])[k - 1];
    }
  }

  /** And the cursor ends behind the last one. */
  lemma {:induction false} TextMovesOn(t: State, width: nat, s: string)
    requires t.x < width < 0x1_0000 && !t.esc && Visible(s)
    ensures var u, place := Run(t, width, s), t.x + |s|;
            u.x == place % width && u.y == (t.y + place / width) % 0x1_0000 && u.attr == t.attr && !u.esc
    decreases |s|
  {
    hide Putchar;
    if s == "" {
      ModUnique(t.x, width, 0, t.x);
      assert (t.y + 0) % 0x1_0000 == t.y;
    } else {
      var u := Putchar(t, width, s[0]);
      FirstPlace(t, width, s[0]);
      TextMovesOn(u, width, s[1..]);
      PlaceShift(t.x, t.y, width, |s| - 1);
      assert Run(t, width, s) == Run(u, width, s[1..]) && t.x + |s| == t.x + (|s| - 1 + 1);
    }
  }

  lemma FirstPlace(t: State, width: nat, c: char)
    requires t.x < width < 0x1_0000 && !t.esc && c as int < 0x100
    requires c != '\U{001B}' && c != '\U{0008}' && c != '\n' && c != '\r'
    ensures var u := Putchar(t, width, c);
            && u.x == (if t.x + 1 >= width then 0 else t.x + 1) && !u.esc && u.attr == t.attr
            && u.y == (if t.x + 1 >= width then (t.y + 1) % 0x1_0000 else t.y)
    ensures Drawn(t, c) == [Placed(t.x, t.y, Cell(c as int, t.attr.color, t.attr.bg, t.attr.bold))]
  {
  }

  /** Visible text fits exactly if the place of its last character is on the screen. */
  lemma {:induction false} TextFits(t: State, width: nat, height: nat, s: string)
    requires t.x < width < 0x1_0000 && height < 0x1_0000 && !t.esc && Visible(s)
    ensures RunFits(t, width, height, s) <==> s == "" || t.y + (t.x + |s| - 1) / width < height
    decreases |s|
  {
    hide Putchar;
    if s != "" {
      var u := Putchar(t, width, s[0]);
      FirstPlace(t, width, s[0]);
      TextFits(u, width, height, s[1..]);
      if |s| == 1 {
        ModUnique(t.x, width, 0, t.x);
      } else {
        NextPlace(t.x, width, |s| - 2);
        assert (u.x + (|s| - 2)) / width >= 0;
      }
    }
  }

  // ----------------------------------------------- sequences as they are sent

  lemma DigitRead(v: nat, d: nat)
    requires v < 10 && d < 10
    ensures Int32(v * 10 + SignedChar('0' + d as char) - '0' as int) == 10 * v + d
  {
    assert SignedChar('0' + d as char) == '0' as int + d;
  }

  lemma TwoDigitCode(a: nat, b: nat)
    requires a < 10 && b < 10
    ensures AtoiValue(['0' + a as char, '0' + b as char]) == 10 * a + b && AtoiValue(['0' + a as char]) == a
  {
    hide AtoiValue, Int32, SignedChar;
    var s := ['0' + a as char];
    AtoiEmpty();
    AtoiStep("", '0' + a as char);
    AtoiStep(s, '0' + b as char);
    DigitRead(0, a);
    DigitRead(a, b);
    assert "" + s == s && s + ['0' + b as char] == ['0' + a as char, '0' + b as char];
  }

  /** ESC [ 3 i m and ESC [ 4 i m choose colour i for the text and for the background. */
  lemma ColourSequences(t: State, width: nat, i: nat)
    requires Consistent(t, width) && !t.esc && i < 8
    ensures Run(t, width, "\U{001B}[3" + ['0' + i as char, 'm']) == t.(attr := t.attr.(color := PrimaryColour(i)))
    ensures Run(t, width, "\U{001B}[4" + ['0' + i as char, 'm']) == t.(attr := t.attr.(bg := PrimaryColour(i)))
  {
    var d := '0' + i as char;
    hide Run, AtoiValue, Apply, PrimaryColour, Consistent;
    TwoDigitCode(3, i);
    TwoDigitCode(4, i);
    RunSequence(t, width, ['3', d]);
    RunSequence(t, width, ['4', d]);
    ColourCodes(i, t.attr);
    assert Sequence(['3', d]) == "\U{001B}[3" + [d, 'm'] && Sequence(['4', d]) == "\U{001B}[4" + [d, 'm'];
  }

  /** ESC [ 1 m, ESC [ 22 m and ESC [ 0 m set bold, clear it, and reset everything. */
  lemma ModeSequences(t: State, width: nat)
    requires Consistent(t, width) && !t.esc
    ensures Run(t, width, "\U{001B}[1m") == t.(attr := t.attr.(bold := true))
    ensures Run(t, width, "\U{001B}[22m") == t.(attr := t.attr.(bold := false))
    ensures Run(t, width, "\U{001B}[0m") == t.(attr := Attr(0xFFAA_AAAA, 0xFF00_0000, false))
  {
    hide Run, AtoiValue, Apply, Consistent;
    TwoDigitCode(1, 0);
    TwoDigitCode(0, 0);
    TwoDigitCode(2, 2);
    RunSequence(t, width, "1");
    RunSequence(t, width, "22");
    RunSequence(t, width, "0");
    ModeCodes(0, t.attr);
    assert Sequence("1") == "\U{001B}[1m" && Sequence("22") == "\U{001B}[22m" && Sequence("0") == "\U{001B}[0m";
  }
}
