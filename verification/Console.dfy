/**
 * The text console: an 80x25 screen of characters and colours, and the text it shows.
 *
 * Bytes are bit vectors here: the program joins colours with a bitwise or.
 */
module Console {
  const WIDTH: nat := 80
  const HEIGHT: nat := 25
  const CELLS: nat := 2000

  const NEWLINE: bv8 := 10
  const BACKSPACE: bv8 := 8

  /** One screen cell: a character and its colours. */
  datatype Glyph = Glyph(ch: bv8, attr: bv8)

  const BLANK: Glyph := Glyph(0, 7)

  type Line = seq<Glyph>

  // ---- laying text out ----

  /** Adds a character at the end; a line ends after a newline, or when it is full. */
  function Extend(ls: seq<Line>, g: Glyph): (r: seq<Line>)
    requires |ls| > 0
    ensures |ls| <= |r| <= |ls| + 1
  {
    var last := ls[|ls| - 1] + [g];
    if g.ch == NEWLINE || |last| >= WIDTH then ls[..|ls| - 1] + [last, []]
    else ls[..|ls| - 1] + [last]
  }

  /** The lines a text is laid out in; the last one is still open. */
  function Lines(t: seq<Glyph>): (ls: seq<Line>)
    ensures |ls| > 0
  {
    if t == [] then [[]] else Extend(Lines(t[..|t| - 1]), t[|t| - 1])
  }

  function LastLine(ls: seq<Line>): Line
    requires |ls| > 0
  {
    ls[|ls| - 1]
  }

  /** Where the next character goes. */
  function EndOf(ls: seq<Line>): nat
    requires |ls| > 0
  {
    (|ls| - 1) * WIDTH + |LastLine(ls)|
  }

  /** The screen showing these lines from its top row down. */
  function Picture(ls: seq<Line>): (s: seq<Glyph>)
    ensures |s| == CELLS
  {
    seq(CELLS, p requires 0 <= p < CELLS =>
      if p / WIDTH < |ls| && p % WIDTH < |ls[p / WIDTH]| then ls[p / WIDTH][p % WIDTH] else BLANK)
  }

  function Blanks(n: nat): (s: seq<Glyph>)
    ensures |s| == n && forall i :: 0 <= i < n ==> s[i] == BLANK
  {
    seq(n, i => BLANK)
  }

  /** No blank and no backspace is ever part of the text. */
  predicate Visible(t: seq<Glyph>) {
    forall i :: 0 <= i < |t| ==> t[i].ch != 0 && t[i].ch != BACKSPACE
  }

  /** Closed lines are not empty, fit the screen and hold no blanks; the open one has room. */
  predicate Tidy(ls: seq<Line>) {
    && |ls| > 0 && |LastLine(ls)| < WIDTH
    && (forall r :: 0 <= r < |ls| - 1 ==> 0 < |ls[r]| <= WIDTH)
    && (forall r, c :: 0 <= r < |ls| && 0 <= c < |ls[r]| ==> ls[r][c].ch != 0)
  }

  lemma {:induction false} LinesTidy(t: seq<Glyph>)
    requires Visible(t)
    ensures Tidy(Lines(t))
  {
    hide Lines, Extend, Tidy;
    if t == [] {
      NothingTidy();
    } else {
      LinesTidy(t[..|t| - 1]);
      LinesNext(t);
      ExtendTidy(Lines(t[..|t| - 1]), t[|t| - 1]);
    }
  }

  lemma NothingTidy()
    ensures Tidy(Lines([]))
  {
    LinesNone();
  }

  lemma ExtendTidy(ls: seq<Line>, g: Glyph)
    requires Tidy(ls) && g.ch != 0
    ensures Tidy(Extend(ls, g))
  {
  }

  /** Laying out one more character changes one cell of the picture, the one at the end. */
  lemma PictureExtend(ls: seq<Line>, g: Glyph)
    requires Tidy(ls) && |ls| <= HEIGHT
    ensures EndOf(ls) < CELLS && Picture(ls)[EndOf(ls)] == BLANK
    ensures Picture(Extend(ls, g)) == Picture(ls)[EndOf(ls) := g]
  {
    var r, c, e := |ls| - 1, |LastLine(ls)|, EndOf(ls);
    assert e / WIDTH == r && e % WIDTH == c;
    var ls' := Extend(ls, g);
    forall p | 0 <= p < CELLS
      ensures Picture(ls')[p] == Picture(ls)[e := g][p]
    {
      assert p == p / WIDTH * WIDTH + p % WIDTH;
      if p / WIDTH < r {
        assert ls'[p / WIDTH] == ls[p / WIDTH];
      }
    }
  }

  /** After a character the end is one further, or at the start of the next row. */
  lemma EndExtend(ls: seq<Line>, g: Glyph)
    requires Tidy(ls)
    ensures EndOf(Extend(ls, g)) == if g.ch == NEWLINE then |ls| * WIDTH else EndOf(ls) + 1
    ensures |Extend(ls, g)| == |ls| + (if g.ch == NEWLINE || |LastLine(ls)| == WIDTH - 1 then 1 else 0)
  {
  }

  /** Scrolling the picture up is dropping the first line. */
  lemma PictureScroll(ls: seq<Line>)
    requires |ls| == HEIGHT + 1 && LastLine(ls) == []
    ensures Picture(ls[1..]) == Picture(ls)[WIDTH..] + Blanks(WIDTH)
  {
    forall p | 0 <= p < CELLS
      ensures Picture(ls[1..])[p] == (Picture(ls)[WIDTH..] + Blanks(WIDTH))[p]
    {
      if p < CELLS - WIDTH {
        assert (p + WIDTH) / WIDTH == p / WIDTH + 1 && (p + WIDTH) % WIDTH == p % WIDTH;
      } else {
        assert p / WIDTH == HEIGHT - 1;
      }
    }
  }

  lemma ExtendFirst(ls: seq<Line>, g: Glyph)
    requires |ls| > 0
    ensures Extend(ls, g)[0] == if |ls| >= 2 then ls[0] else ls[0] + [g]
  {
  }

  lemma LinesNext(t: seq<Glyph>)
    requires t != []
    ensures Lines(t) == Extend(Lines(t[..|t| - 1]), t[|t| - 1])
  {
    hide Extend;
  }

  lemma LinesAppend(t: seq<Glyph>, g: Glyph)
    ensures Lines(t + [g]) == Extend(Lines(t), g)
  {
    hide Lines, Extend;
    LinesNext(t + [g]);
    assert (t + [g])[..|t|] == t;
  }

  lemma LinesNone()
    ensures Lines([]) == [[]]
  {
  }

  /** A text starts with its first line; if that is its only line, it is the text. */
  lemma {:induction false} FirstLine(t: seq<Glyph>)
    ensures Lines(t)[0] <= t
    ensures |Lines(t)| == 1 ==> Lines(t)[0] == t
  {
    hide Extend, Lines;
    if t == [] {
      LinesNone();
    } else {
      var t0, g := t[..|t| - 1], t[|t| - 1];
      FirstLine(t0);
      LinesNext(t);
      ExtendFirst(Lines(t0), g);
      assert t == t0 + [g];
    }
  }

  /** Dropping the characters of the first line leaves the layout of the others as it was. */
  lemma {:induction false} DropFirstLine(t: seq<Glyph>)
    requires |Lines(t)| >= 2
    ensures |Lines(t)[0]| <= |t| && Lines(t[|Lines(t)[0]|..]) == Lines(t)[1..]
  {
    hide Extend, Lines;
    FirstLine(t);
    LinesNone();
    assert t != [];
    var t0, g := t[..|t| - 1], t[|t| - 1];
    LinesNext(t);
    FirstLine(t0);
    ExtendFirst(Lines(t0), g);
    if |Lines(t0)| == 1 {
      ExtendOne(Lines(t0), g);
      assert t0 + [g] == t;
      assert t[|Lines(t)[0]|..] == [];
    } else {
      DropFirstLine(t0);
      var k := |Lines(t0)[0]|;
      LinesAppend(t0[k..], g);
      assert t[k..] == t0[k..] + [g];
      ExtendTail(Lines(t0), g);
    }
  }

  lemma ExtendOne(ls: seq<Line>, g: Glyph)
    requires |ls| == 1 && |Extend(ls, g)| >= 2
    ensures Extend(ls, g) == [ls[0] + [g], []]
  {
  }

  /** Extending a layout leaves its first line alone when there is another. */
  lemma ExtendTail(ls: seq<Line>, g: Glyph)
    requires |ls| >= 2
    ensures Extend(ls, g)[1..] == Extend(ls[1..], g)
  {
    var tail, last := ls[1..], ls[|ls| - 1] + [g];
    assert tail[|tail| - 1] == ls[|ls| - 1];
    assert ls[..|ls| - 1][1..] == tail[..|tail| - 1];
    var end := if g.ch == NEWLINE || |last| >= WIDTH then [last, []] else [last];
    assert (ls[..|ls| - 1] + end)[1..] == ls[..|ls| - 1][1..] + end;
  }

  // ---- what typing a character does to the text ----

  /** The text left on the screen: when it runs past the last row its first line is gone. */
  function Scrolled(t: seq<Glyph>): seq<Glyph> {
    if |Lines(t)| > HEIGHT && |Lines(t)[0]| <= |t| then t[|Lines(t)[0]|..] else t
  }

  function GlyphFor(c: bv8, color: bv8): Glyph {
    if c == NEWLINE then Glyph(c, 0) else Glyph(c, color)
  }

  /** Ordinary characters and newlines are appended, a backspace drops the last, a NUL is ignored. */
  function Typed(t: seq<Glyph>, c: bv8, color: bv8): seq<Glyph> {
    if c == 0 then t
    else if c == BACKSPACE then (if t == [] then t else t[..|t| - 1])
    else Scrolled(t + [GlyphFor(c, color)])
  }

  function TypedAll(t: seq<Glyph>, s: seq<bv8>, color: bv8): seq<Glyph> {
    if s == [] then t else Typed(TypedAll(t, s[..|s| - 1], color), s[|s| - 1], color)
  }

  /** Characters that leave a mark: neither NUL nor backspace. */
  predicate Prints(s: seq<bv8>) {
    forall i :: 0 <= i < |s| ==> s[i] != 0 && s[i] != 8
  }

  /** The marks they leave, in order; newlines have no colour. */
  function Marks(s: seq<bv8>, color: bv8): (g: seq<Glyph>)
    ensures |g| == |s|
  {
    seq(|s|, i requires 0 <= i < |s| => Glyph(s[i], if s[i] == 10 then 0 else color))
  }

  lemma TypedNext(t: seq<Glyph>, s: seq<bv8>, c: bv8, color: bv8)
    ensures TypedAll(t, s + [c], color) == Typed(TypedAll(t, s, color), c, color) && TypedAll(t, [], color) == t
  {
    hide Typed;
    assert (s + [c])[..|s|] == s;
  }

  /** Putting `u + v` is putting `u` and then `v`. */
  lemma {:induction false} PutsInParts(t: seq<Glyph>, u: seq<bv8>, v: seq<bv8>, color: bv8)
    ensures TypedAll(t, u + v, color) == TypedAll(TypedAll(t, u, color), v, color)
    decreases |v|
  {
    hide Typed;
    if v == [] {
      assert u + v == u;
    } else {
      PutsInParts(t, u, v[..|v| - 1], color);
      assert (u + v)[..|u + v| - 1] == u + v[..|v| - 1];
    }
  }

  /** Putting one character is typing it. */
  lemma PutsOne(t: seq<Glyph>, c: bv8, color: bv8)
    ensures TypedAll(t, [c], color) == Typed(t, c, color)
  {
    hide Typed;
    TypedNext(t, [], c, color);
    assert [] + [c] == [c];
  }

  lemma MarksNext(t: seq<Glyph>, s: seq<bv8>, color: bv8)
    requires s != []
    ensures var n := |s| - 1;
      t + Marks(s, color) == (t + Marks(s[..n], color)) + [GlyphFor(s[n], color)]
  {
  }

  /**
   * A string of marks comes out in order: what it leaves on the screen is the text before it and
   * its marks, less what scrolls off at the front.
   */
  lemma {:induction false} PutsInOrder(t: seq<Glyph>, s: seq<bv8>, color: bv8)
    requires Prints(s)
    ensures var r, x := TypedAll(t, s, color), t + Marks(s, color);
      |r| <= |x| && r == x[|x| - |r|..]
  {
    hide Lines, Marks, Scrolled, GlyphFor;
    var x := t + Marks(s, color);
    if s == [] {
      assert x == t;
    } else {
      var n := |s| - 1;
      PutsInOrder(t, s[..n], color);
      MarksNext(t, s, color);
      ScrolledIsEnd(TypedAll(t, s[..n], color) + [GlyphFor(s[n], color)]);
      var y, r := t + Marks(s[..n], color), TypedAll(t, s[..n], color);
      assert x[|y| - |r|..] == y[|y| - |r|..] + [GlyphFor(s[n], color)];
    }
  }

  lemma ScrolledIsEnd(t: seq<Glyph>)
    ensures |Scrolled(t)| <= |t| && Scrolled(t) == t[|t| - |Scrolled(t)|..]
  {
    hide Lines;
  }

  /** If nothing scrolls, all of it is there: the text before, and the marks. */
  lemma {:induction false} PutsFits(t: seq<Glyph>, s: seq<bv8>, color: bv8)
    requires Prints(s) && |Lines(t + Marks(s, color))| <= 25
    ensures TypedAll(t, s, color) == t + Marks(s, color)
  {
    hide Lines, Marks, Extend, GlyphFor;
    if s == [] {
      assert t + Marks(s, color) == t;
    } else {
      var n := |s| - 1;
      MarksNext(t, s, color);
      LinesAppend(t + Marks(s[..n], color), GlyphFor(s[n], color));
      PutsFits(t, s[..n], color);
    }
  }

  /** The screen `s` with the cursor at `pos` shows exactly the text `t`. */
  predicate Shows(s: seq<Glyph>, pos: nat, t: seq<Glyph>) {
    Visible(t) && |Lines(t)| <= HEIGHT && s == Picture(Lines(t)) && pos == EndOf(Lines(t))
  }

  /** Erasing the last character is blanking its cell. */
  lemma ShowsLast(t: seq<Glyph>)
    requires Visible(t) && t != [] && |Lines(t)| <= HEIGHT
    ensures var ls := Lines(t);
      && |Lines(t[..|t| - 1])| <= |ls|
      && Picture(Lines(t[..|t| - 1])) == Picture(ls)[EndOf(Lines(t[..|t| - 1])) := BLANK]
  {
    var t0, g := t[..|t| - 1], t[|t| - 1];
    LinesTidy(t0);
    PictureExtend(Lines(t0), g);
  }

  /** Adding a character to the text is writing it at the cursor, and scrolling if need be. */
  lemma TypedOnScreen(t: seq<Glyph>, g: Glyph)
    requires Visible(t) && |Lines(t)| <= HEIGHT && g.ch != 0 && g.ch != BACKSPACE
    ensures var ls := Lines(t);
      var s := Picture(ls)[EndOf(ls) := g];
      var full := |ls| == HEIGHT && (g.ch == NEWLINE || |LastLine(ls)| == WIDTH - 1);
      && (!full ==> Shows(s, EndOf(Extend(ls, g)), t + [g]) && Scrolled(t + [g]) == t + [g])
      && (full ==> Shows(s[WIDTH..] + Blanks(WIDTH), (HEIGHT - 1) * WIDTH, Scrolled(t + [g])))
  {
    hide Lines, Extend, Picture, Tidy;
    var ls, t' := Lines(t), t + [g];
    LinesTidy(t);
    PictureExtend(ls, g);
    EndExtend(ls, g);
    LinesAppend(t, g);
    ScrolledText(t, g);
    if |Lines(t')| > HEIGHT {
      ExtendFull(ls, g);
      PictureScroll(Lines(t'));
    }
  }

  /** Past the last row there is an empty line. */
  lemma ExtendFull(ls: seq<Line>, g: Glyph)
    requires |ls| > 0 && |Extend(ls, g)| > |ls|
    ensures LastLine(Extend(ls, g)) == []
  {
  }

  /** What scrolls off is the first line, and the text is laid out in the others. */
  lemma ScrolledText(t: seq<Glyph>, g: Glyph)
    requires Visible(t) && |Lines(t)| <= HEIGHT && g.ch != 0 && g.ch != BACKSPACE
    ensures var t', ls' := t + [g], Lines(t + [g]);
      && Visible(Scrolled(t'))
      && (if |ls'| > HEIGHT then Lines(Scrolled(t')) == ls'[1..] else Scrolled(t') == t')
  {
    hide Lines;
    if |Lines(t + [g])| > HEIGHT {
      DropFirstLine(t + [g]);
    }
  }

  /** Where a visible character takes the cursor; at the end of the last row the screen scrolls. */
  function EndAfterInk(pos: nat, g: Glyph): nat {
    if g.ch == NEWLINE then (pos / WIDTH + 1) * WIDTH else pos + 1
  }

  lemma CursorInside(t: seq<Glyph>)
    requires Visible(t) && |Lines(t)| <= HEIGHT
    ensures EndOf(Lines(t)) < CELLS
  {
    hide Lines, Tidy;
    LinesTidy(t);
    EndInside(Lines(t));
  }

  /** The screen with a character written at the cursor shows the longer text, scrolled if need be. */
  lemma InkShows(t: seq<Glyph>, g: Glyph)
    requires Visible(t) && |Lines(t)| <= HEIGHT && g.ch != 0 && g.ch != BACKSPACE
    ensures var pos := EndOf(Lines(t));
      && pos < CELLS && EndAfterInk(pos, g) <= CELLS
      && var s := Picture(Lines(t))[pos := g];
      if EndAfterInk(pos, g) == CELLS then Shows(s[WIDTH..] + Blanks(WIDTH), (HEIGHT - 1) * WIDTH, Scrolled(t + [g]))
      else Shows(s, EndAfterInk(pos, g), Scrolled(t + [g]))
  {
    hide Lines, Picture, Extend, Scrolled, Shows, Tidy;
    CursorInside(t);
    LinesTidy(t);
    EndInside(Lines(t));
    EndExtend(Lines(t), g);
    TypedOnScreen(t, g);
  }

  /** Whatever is typed, the text stays visible and within the rows. */
  lemma TypedFits(t: seq<Glyph>, c: bv8, color: bv8)
    requires Visible(t) && |Lines(t)| <= HEIGHT
    ensures Visible(Typed(t, c, color)) && |Lines(Typed(t, c, color))| <= HEIGHT
  {
    hide Lines, Picture, Extend, Scrolled, EndOf;
    if c == BACKSPACE && t != [] {
      ShowsLast(t);
    } else if c != 0 && c != BACKSPACE {
      TypedOnScreen(t, GlyphFor(c, color));
    }
  }

  // ---- the backward scan of a backspace at the start of a row ----

  /** The cell in row `r`, column `c`. */
  function At(s: seq<Glyph>, r: nat, c: nat): Glyph
    requires |s| == CELLS && r < HEIGHT && c < WIDTH
  {
    s[r * WIDTH + c]
  }

  lemma PictureAt(ls: seq<Line>, r: nat, c: nat)
    requires r < HEIGHT && c < WIDTH
    ensures At(Picture(ls), r, c) == if r < |ls| && c < |ls[r]| then ls[r][c] else BLANK
  {
    assert (r * WIDTH + c) / WIDTH == r && (r * WIDTH + c) % WIDTH == c;
  }

  lemma ExtendEnd(ls: seq<Line>, g: Glyph)
    requires |ls| > 0
    ensures if LastLine(Extend(ls, g)) == [] then
              |Extend(ls, g)| == |ls| + 1 && Extend(ls, g)[|ls| - 1] == LastLine(ls) + [g]
            else |Extend(ls, g)| == |ls| && LastLine(Extend(ls, g)) == LastLine(ls) + [g]
  {
  }

  /** Where the last character stands: before the cursor, or at the end of the row above. */
  lemma LastCharacter(t: seq<Glyph>)
    requires t != []
    ensures var ls, ls0 := Lines(t), Lines(t[..|t| - 1]);
      if LastLine(ls) == [] then
        |ls| >= 2 && ls[|ls| - 2] != [] && EndOf(ls0) == (|ls| - 2) * WIDTH + |ls[|ls| - 2]| - 1
      else EndOf(ls0) == EndOf(ls) - 1
  {
    ExtendEnd(Lines(t[..|t| - 1]), t[|t| - 1]);
    assert Lines(t) == Extend(Lines(t[..|t| - 1]), t[|t| - 1]);
    hide Extend, Lines;
  }

  /** Above an empty open line stands a closed one: its last character, then blanks. */
  lemma ScanFacts(ls: seq<Line>)
    requires Tidy(ls) && 2 <= |ls| <= HEIGHT
    ensures var r, above := |ls| - 2, ls[|ls| - 2];
      && 0 < |above| <= WIDTH
      && At(Picture(ls), r, |above| - 1).ch != 0
      && forall c {:trigger At(Picture(ls), r, c)} :: |above| <= c < WIDTH ==> At(Picture(ls), r, c) == BLANK
  {
    var r, above := |ls| - 2, ls[|ls| - 2];
    PictureAt(ls, r, |above| - 1);
    forall c | |above| <= c < WIDTH
      ensures At(Picture(ls), r, c) == BLANK
    {
      PictureAt(ls, r, c);
    }
  }

  lemma EmptyText(t: seq<Glyph>)
    requires EndOf(Lines(t)) == 0
    ensures t == []
  {
    FirstLine(t);
  }

  lemma LastTyped(t: seq<Glyph>)
    requires EndOf(Lines(t)) > 0
    ensures t != []
    ensures var ls, ls0 := Lines(t), Lines(t[..|t| - 1]);
      if LastLine(ls) == [] then
        |ls| >= 2 && ls[|ls| - 2] != [] && EndOf(ls0) == (|ls| - 2) * WIDTH + |ls[|ls| - 2]| - 1
      else EndOf(ls0) == EndOf(ls) - 1
  {
    assert Lines([]) == [[]];
    LastCharacter(t);
  }

  /** A screen and its cursor determine the text they show. */
  lemma {:induction false} ShowsUnique(s: seq<Glyph>, pos: nat, t: seq<Glyph>, t': seq<Glyph>)
    requires Shows(s, pos, t) && Shows(s, pos, t')
    ensures t == t'
    decreases |t|
  {
    hide Lines, Picture, EndOf, Extend;
    if pos == 0 {
      EmptyText(t);
      EmptyText(t');
    } else {
      LastTyped(t);
      LastTyped(t');
      var u, u' := t[..|t| - 1], t'[..|t'| - 1];
      LastSame(s, pos, t, t');
      LastGlyph(t);
      LastGlyph(t');
      ShowsLast(t);
      ShowsLast(t');
      ShowsUnique(s[EndOf(Lines(u)) := BLANK], EndOf(Lines(u)), u, u');
      assert t == u + [t[|t| - 1]] && t' == u' + [t'[|t'| - 1]];
    }
  }

  lemma LastGlyph(t: seq<Glyph>)
    requires Visible(t) && t != [] && |Lines(t)| <= HEIGHT
    ensures var e := EndOf(Lines(t[..|t| - 1])); e < CELLS && Picture(Lines(t))[e] == t[|t| - 1]
    ensures |Lines(t[..|t| - 1])| <= HEIGHT
  {
    LinesTidy(t[..|t| - 1]);
    PictureExtend(Lines(t[..|t| - 1]), t[|t| - 1]);
  }

  /** Two texts on the same screen have their last characters in the same cell. */
  lemma LastSame(s: seq<Glyph>, pos: nat, t: seq<Glyph>, t': seq<Glyph>)
    requires Shows(s, pos, t) && Shows(s, pos, t') && pos > 0 && t != [] && t' != []
    ensures EndOf(Lines(t[..|t| - 1])) == EndOf(Lines(t'[..|t'| - 1]))
  {
    hide Lines, Picture, Extend, Tidy, Visible, EndOf, At;
    var ls, ls' := Lines(t), Lines(t');
    LastTyped(t);
    LastTyped(t');
    LinesTidy(t);
    LinesTidy(t');
    EndInside(ls);
    EndInside(ls');
    if LastLine(ls) == [] {
      ScanFacts(ls);
      ScanFacts(ls');
      var r := |ls| - 2;
      assert At(s, r, |ls[r]| - 1).ch != 0 && At(s, r, |ls'[r]| - 1).ch != 0;
      assert |ls[r]| == |ls'[r]|;
    }
  }

  lemma EndInside(ls: seq<Line>)
    requires Tidy(ls) && |ls| <= HEIGHT
    ensures EndOf(ls) / WIDTH == |ls| - 1 && EndOf(ls) % WIDTH == |LastLine(ls)|
  {
  }

  // ---- what one character does to the cells ----

  /**
   * A visible character, on screen `s` with the cursor at `pos`: one cell is written, and the
   * cursor moves on; past the last cell all rows move up and the last one is blank.
   */
  predicate CellWritten(s: seq<Glyph>, pos: nat, g: Glyph, s': seq<Glyph>, pos': nat)
    requires |s| == |s'| == 2000
  {
    var next := if g.ch == 10 then (pos / 80 + 1) * 80 else pos + 1;
    pos < 2000 &&
    if next < 2000 then s' == s[pos := g] && pos' == next
    else s'[..1920] == s[pos := g][80..] && (forall p :: 1920 <= p < 2000 ==> s'[p] == Glyph(0, 7)) && pos' == 1920
  }

  /** A backspace: the last cell in use before the cursor is blanked, and the cursor stands there. */
  predicate CellErased(s: seq<Glyph>, pos: nat, s': seq<Glyph>, pos': nat)
    requires |s| == |s'| == 2000 && pos <= 2000
  {
    if pos == 0 then s' == s && pos' == 0
    else
      && pos' < pos && s[pos'].ch != 0 && (forall p :: pos' < p < pos ==> s[p].ch == 0)
      && s' == s[pos' := Glyph(0, 7)]
  }

  lemma WrittenCell(s: seq<Glyph>, pos: nat, g: Glyph, s': seq<Glyph>, pos': nat)
    requires |s| == |s'| == CELLS && pos < CELLS && EndAfterInk(pos, g) <= CELLS
    requires if EndAfterInk(pos, g) == CELLS then
               s' == s[pos := g][WIDTH..] + Blanks(WIDTH) && pos' == (HEIGHT - 1) * WIDTH
             else s' == s[pos := g] && pos' == EndAfterInk(pos, g)
    ensures CellWritten(s, pos, g, s', pos')
  {
    if EndAfterInk(pos, g) == CELLS {
      assert s'[..1920] == s[pos := g][80..];
      assert forall p :: 1920 <= p < 2000 ==> s'[p] == Blanks(WIDTH)[p - 1920];
    }
  }

  /** Between the last character of a text and the cursor all cells are blank. */
  lemma LastCell(t: seq<Glyph>)
    requires Visible(t) && t != [] && |Lines(t)| <= HEIGHT
    ensures var s, e, pos := Picture(Lines(t)), EndOf(Lines(t[..|t| - 1])), EndOf(Lines(t));
      && e < pos < CELLS && s[e].ch != 0 && forall p :: e < p < pos ==> s[p].ch == 0
  {
    hide Lines, Picture, Extend, Tidy;
    var ls := Lines(t);
    LinesTidy(t);
    LinesTidy(t[..|t| - 1]);
    LastCharacter(t);
    LastGlyph(t);
    CursorInside(t);
    if LastLine(ls) == [] {
      ScanFacts(ls);
      var r := |ls| - 2;
      forall p | EndOf(Lines(t[..|t| - 1])) < p < EndOf(ls)
        ensures Picture(ls)[p].ch == 0
      {
        assert At(Picture(ls), r, p - r * WIDTH) == BLANK;
      }
    }
  }

  lemma AtSet(s: seq<Glyph>, r: nat, c: nat, g: Glyph, s': seq<Glyph>)
    requires |s| == CELLS && r < HEIGHT && c < WIDTH && s' == s[r * WIDTH + c := g]
    ensures forall r', c' {:trigger At(s', r', c')} :: 0 <= r' < HEIGHT && 0 <= c' < WIDTH ==>
      At(s', r', c') == if r' == r && c' == c then g else At(s, r', c')
  {
  }

  /** Cleared so far: the columns before `i`, and in column `i` the rows before `j`. */
  predicate Cleared(s: seq<Glyph>, i: nat, j: nat)
    requires |s| == CELLS
  {
    forall r, c :: 0 <= r < HEIGHT && 0 <= c < WIDTH && (c < i || (c == i && r < j)) ==> At(s, r, c) == BLANK
  }

  /** Moved up so far: the rows before `i`, and in row `i` the columns before `j`. */
  predicate Moved(s: seq<Glyph>, now: seq<Glyph>, i: nat, j: nat)
    requires |s| == |now| == CELLS && (i < HEIGHT - 1 || (i == HEIGHT - 1 && j == 0))
  {
    forall r, c {:trigger At(now, r, c)} :: 0 <= r < HEIGHT && 0 <= c < WIDTH ==>
      At(now, r, c) == if r < i || (r == i && c < j) then At(s, r + 1, c) else At(s, r, c)
  }

  lemma MovedStart(s: seq<Glyph>)
    requires |s| == CELLS
    ensures Moved(s, s, 0, 0)
  {
  }

  lemma MovedNext(s: seq<Glyph>, now: seq<Glyph>, i: nat, j: nat)
    requires |s| == |now| == CELLS && i < HEIGHT - 1 && j < WIDTH && Moved(s, now, i, j)
    ensures Moved(s, now[i * WIDTH + j := At(now, i + 1, j)], i, j + 1)
  {
    AtSet(now, i, j, At(now, i + 1, j), now[i * WIDTH + j := At(now, i + 1, j)]);
  }

  lemma MovedRow(s: seq<Glyph>, now: seq<Glyph>, i: nat)
    requires |s| == |now| == CELLS && i < HEIGHT - 1 && Moved(s, now, i, WIDTH)
    ensures Moved(s, now, i + 1, 0)
  {
  }

  /** All rows moved up, and the last row blank before column `j`. */
  predicate Wiped(s: seq<Glyph>, now: seq<Glyph>, j: nat)
    requires |s| == |now| == CELLS
  {
    forall r, c {:trigger At(now, r, c)} :: 0 <= r < HEIGHT && 0 <= c < WIDTH ==>
      At(now, r, c) == if r < HEIGHT - 1 then At(s, r + 1, c) else if c < j then BLANK else At(s, r, c)
  }

  lemma MovedAll(s: seq<Glyph>, now: seq<Glyph>)
    requires |s| == |now| == CELLS && Moved(s, now, HEIGHT - 1, 0)
    ensures Wiped(s, now, 0)
  {
  }

  lemma WipedNext(s: seq<Glyph>, now: seq<Glyph>, j: nat)
    requires |s| == |now| == CELLS && j < WIDTH && Wiped(s, now, j)
    ensures Wiped(s, now[(HEIGHT - 1) * WIDTH + j := BLANK], j + 1)
  {
    AtSet(now, HEIGHT - 1, j, BLANK, now[(HEIGHT - 1) * WIDTH + j := BLANK]);
  }

  lemma AllBlank(s: seq<Glyph>)
    requires |s| == CELLS && Cleared(s, WIDTH, 0)
    ensures s == Blanks(CELLS) == Picture(Lines([]))
  {
    forall p | 0 <= p < CELLS
      ensures s[p] == BLANK
    {
      assert s[p] == At(s, p / WIDTH, p % WIDTH);
    }
  }

  lemma AllShifted(s: seq<Glyph>, s': seq<Glyph>)
    requires |s| == |s'| == CELLS && Wiped(s, s', WIDTH)
    ensures s' == s[WIDTH..] + Blanks(WIDTH)
  {
    forall p | 0 <= p < CELLS
      ensures s'[p] == (s[WIDTH..] + Blanks(WIDTH))[p]
    {
      assert s'[p] == At(s', p / WIDTH, p % WIDTH);
      if p < CELLS - WIDTH {
        assert s[p + WIDTH] == At(s, p / WIDTH + 1, p % WIDTH);
      }
    }
  }

  // ---- the screen ----

  /** The framebuffer: a character byte and a colour byte for each cell, and the cursor position. */
  class Screen {
    const memory: array<bv8>
    var cursor: nat

    predicate Valid() {
      memory.Length == 2 * CELLS
    }

    constructor ()
      ensures Valid() && fresh(memory)
    {
      memory := new bv8[2 * CELLS](i => 0);
      cursor := 0;
    }

    ghost function Cells(): seq<Glyph>
      requires Valid()
      reads memory
    {
      seq(CELLS, p requires 0 <= p < CELLS reads memory => Glyph(memory[2 * p], memory[2 * p + 1]))
    }

    /** The screen shows exactly `t`, the cursor at its end. */
    ghost predicate Showing(t: seq<Glyph>)
      requires Valid()
      reads this, memory
    {
      Shows(Cells(), cursor, t)
    }

    method Write(row: nat, col: nat, c: bv8, fg: bv8, bg: bv8)
      requires Valid() && row < HEIGHT && col < WIDTH
      modifies memory
      ensures Cells() == old(Cells())[row * WIDTH + col := Glyph(c, fg | bg)]
    {
      memory[(row * WIDTH + col) * 2] := c;
      memory[(row * WIDTH + col) * 2 + 1] := fg | bg;
    }

    method Get(row: nat, col: nat) returns (c: bv8)
      requires Valid() && row < HEIGHT && col < WIDTH
      ensures c == Cells()[row * WIDTH + col].ch
    {
      c := memory[(row * WIDTH + col) * 2];
    }

    method SetCursor(row: nat, col: nat)
      modifies this`cursor
      ensures cursor == row * WIDTH + col
    {
      cursor := row * WIDTH + col;
    }

    /** `framebuffer_clear`: the screen shows nothing. */
    method Clear()
      requires Valid()
      modifies this`cursor, memory
      ensures Cells() == Blanks(CELLS) && Showing([])
      ensures |Cells()| == 2000 && cursor == 0 && forall p :: 0 <= p < 2000 ==> Cells()[p] == Glyph(0, 7)
    {
      for i := 0 to WIDTH
        invariant Cleared(Cells(), i, 0)
      {
        for j := 0 to HEIGHT
          invariant Cleared(Cells(), i, j)
        {
          AtSet(Cells(), j, i, BLANK, Cells()[j * WIDTH + i := BLANK]);
          Write(j, i, 0, 7, 7);
        }
      }
      AllBlank(Cells());
      SetCursor(0, 0);
    }

    method ShiftUp()
      requires Valid()
      modifies memory
      ensures Cells() == old(Cells())[WIDTH..] + Blanks(WIDTH)
    {
      ghost var s := Cells();
      MovedStart(s);
      hide Moved, Wiped;
      for i := 0 to HEIGHT - 1
        invariant Moved(s, Cells(), i, 0)
      {
        for j := 0 to WIDTH
          invariant Moved(s, Cells(), i, j)
        {
          MovedNext(s, Cells(), i, j);
          CopyCell(i, j);
        }
        MovedRow(s, Cells(), i);
      }
      MovedAll(s, Cells());
      for j := 0 to WIDTH
        invariant Wiped(s, Cells(), j)
      {
        WipedNext(s, Cells(), j);
        Write(HEIGHT - 1, j, 0, 7, 7);
      }
      AllShifted(s, Cells());
    }

    /** Copies a cell, character and colour, from the row below. */
    method CopyCell(i: nat, j: nat)
      requires Valid() && i + 1 < HEIGHT && j < WIDTH
      modifies memory
      ensures Cells() == old(Cells())[i * WIDTH + j := At(old(Cells()), i + 1, j)]
    {
      memory[(i * WIDTH + j) * 2] := memory[((i + 1) * WIDTH + j) * 2];
      memory[(i * WIDTH + j) * 2 + 1] := memory[((i + 1) * WIDTH + j) * 2 + 1];
    }

    /** Finds the last cell in use before the start of row `row`; there is one just above. */
    method ScanBack(row: nat, ghost ls: seq<Line>) returns (r: int, c: int)
      requires Valid() && Tidy(ls) && 2 <= |ls| <= HEIGHT && row == |ls| - 1 && Cells() == Picture(ls)
      ensures r == |ls| - 2 && 0 <= c == |ls[r]| - 1 < WIDTH
    {
      hide Picture, Tidy;
      ScanFacts(ls);
      r, c := row - 1, WIDTH - 1;
      var ch := Get(r, c);
      while ch == 0
        invariant r == |ls| - 2 && |ls[r]| - 1 <= c < WIDTH && ch == At(Cells(), r, c).ch
        decreases c
      {
        if c == 0 {
          c := WIDTH;
          r := r - 1;
        }
        c := c - 1;
        ch := Get(r, c);
      }
    }

    /** The end of `putchar`: wraps, scrolls and moves the cursor. */
    method Settle(row: nat, col: nat)
      requires Valid() && row * WIDTH + col <= CELLS && col <= WIDTH
      modifies this`cursor, memory
      ensures if row * WIDTH + col == CELLS then
                Cells() == old(Cells())[WIDTH..] + Blanks(WIDTH) && cursor == (HEIGHT - 1) * WIDTH
              else Cells() == old(Cells()) && cursor == row * WIDTH + col
    {
      var r, c := row + col / WIDTH, col % WIDTH;
      if r == HEIGHT {
        ShiftUp();
        r := HEIGHT - 1;
      }
      SetCursor(r, c);
    }

    /** The part of `putchar` for a backspace: where it takes the cursor and blanks the cell. */
    method Erase(row: nat, col: nat, ghost t: seq<Glyph>) returns (r: int, c: int)
      requires Valid() && Showing(t) && row == cursor / WIDTH && col == cursor % WIDTH
      modifies memory
      ensures 0 <= r < HEIGHT && 0 <= c < WIDTH && Shows(Cells(), r * WIDTH + c, Typed(t, BACKSPACE, 0))
      ensures CellErased(old(Cells()), cursor, Cells(), r * WIDTH + c)
    {
      hide Lines, Picture, Extend, Tidy;
      ghost var ls := Lines(t);
      LinesTidy(t);
      EndInside(ls);
      r, c := row, col;
      if col > 0 || row > 0 {
        LastTyped(t);
        ShowsLast(t);
        LastCell(t);
        LinesTidy(t[..|t| - 1]);
        EndInside(Lines(t[..|t| - 1]));
        if col > 0 {
          c := col - 1;
        } else {
          r, c := ScanBack(row, ls);
        }
        Write(r, c, 0, 7, 7);
      } else {
        EmptyText(t);
      }
    }

    /** `putchar`: the screen shows the text with the character typed. */
    method PutChar(c: bv8, color: bv8, ghost t: seq<Glyph>)
      requires Valid() && Showing(t)
      modifies this`cursor, memory
      ensures Showing(Typed(t, c, color))
      ensures old(cursor) < 2000
      ensures c == 0 ==> Cells() == old(Cells()) && cursor == old(cursor)
      ensures c == 8 ==> CellErased(old(Cells()), old(cursor), Cells(), cursor)
      ensures c != 0 && c != 8 ==>
        CellWritten(old(Cells()), old(cursor), Glyph(c, if c == 10 then 0 else color), Cells(), cursor)
    {
      hide Lines, Picture, Extend, Scrolled, Tidy, Visible, EndOf, LastLine, CellErased, CellWritten, Blanks;
      CursorInside(t);
      if c == 0 {
        return;
      }
      var row: int, col: int := cursor / WIDTH, cursor % WIDTH;
      if c == NEWLINE {
        InkShows(t, Glyph(c, 0));
        Write(row, col, c, 0, 0);
        row, col := row + 1, 0;
      } else if c == BACKSPACE {
        row, col := Erase(row, col, t);
      } else {
        InkShows(t, Glyph(c, color));
        Write(row, col, c, color, 0);
        col := col + 1;
      }
      Settle(row, col);
      if c != BACKSPACE {
        WrittenCell(old(Cells()), old(cursor), Glyph(c, if c == NEWLINE then 0 else color), Cells(), cursor);
      }
    }

    /** `puts`: one character after the other. */
    method Puts(s: seq<bv8>, color: bv8, ghost t: seq<Glyph>)
      requires Valid() && Showing(t)
      modifies this`cursor, memory
      ensures Showing(TypedAll(t, s, color))
      ensures Prints(s) && |Lines(t + Marks(s, color))| <= 25 ==> Showing(t + Marks(s, color))
    {
      hide Typed, Shows, Lines, Marks;
      if Prints(s) && |Lines(t + Marks(s, color))| <= 25 {
        PutsFits(t, s, color);
      }
      assert s[..0] == [];
      for i := 0 to |s|
        invariant Showing(TypedAll(t, s[..i], color))
      {
        assert s[..i + 1][..i] == s[..i];
        PutChar(s[i], color, TypedAll(t, s[..i], color));
      }
      assert s[..|s|] == s;
    }
  }
}
