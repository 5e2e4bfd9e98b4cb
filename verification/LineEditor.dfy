/** The shell's line editor: keystrokes to an input buffer and to the screen. */
module LineEditor {
  import opened Console

  const MAX_LENGTH: nat := 256
  const WHITE_ON_BLACK: bv8 := 0xF

  /**
   * The line being edited, and what a backspace just left behind it: the editor clears the cell
   * after the one it gives up, so the character erased stays in the buffer.
   */
  datatype Edit = Edit(line: seq<bv8>, erased: seq<bv8>)

  const NOTHING: Edit := Edit([], [])

  /** One keystroke before Enter. */
  function Key(e: Edit, k: bv8): Edit {
    if k == 0 then e
    else if k == BACKSPACE then
      if e.line == [] then e else Edit(e.line[..|e.line| - 1], [e.line[|e.line| - 1]])
    else if |e.line| < MAX_LENGTH - 1 then Edit(e.line + [k], [])
    else e
  }

  function Keys(keys: seq<bv8>): Edit {
    if keys == [] then NOTHING else Key(Keys(keys[..|keys| - 1]), keys[|keys| - 1])
  }

  /** The characters of a line as they appear on the screen. */
  function Glyphs(line: seq<bv8>): (g: seq<Glyph>)
    ensures |g| == |line|
  {
    seq(|line|, i requires 0 <= i < |line| => Glyph(line[i], WHITE_ON_BLACK))
  }

  /** Characters a line can hold. */
  predicate Plain(line: seq<bv8>) {
    forall i :: 0 <= i < |line| ==> line[i] != 0 && line[i] != NEWLINE && line[i] != BACKSPACE
  }

  predicate EditOk(e: Edit) {
    |e.line| < MAX_LENGTH && Plain(e.line) && Plain(e.erased) && |e.erased| <= 1
    && |e.line| + |e.erased| < MAX_LENGTH
  }

  lemma {:induction false} KeysOk(keys: seq<bv8>)
    requires forall i :: 0 <= i < |keys| ==> keys[i] != NEWLINE
    ensures EditOk(Keys(keys))
  {
    if keys != [] {
      KeysOk(keys[..|keys| - 1]);
    }
  }

  /** The first 255 characters typed. */
  function Kept(keys: seq<bv8>): seq<bv8> {
    if |keys| <= 255 then keys else keys[..255]
  }

  lemma KeptNext(keys: seq<bv8>, k: bv8)
    requires k != 0 && k != BACKSPACE
    ensures Key(Edit(Kept(keys), []), k) == Edit(Kept(keys + [k]), [])
  {
    assert |keys| >= 255 ==> (keys + [k])[..255] == keys[..255];
  }

  /** Plain keystrokes are the line, in order, up to 255 of them. */
  lemma {:induction false} PlainKeys(keys: seq<bv8>)
    requires Plain(keys)
    ensures Keys(keys) == Edit(if |keys| <= 255 then keys else keys[..255], [])
  {
    hide Key;
    if keys != [] {
      var n := |keys| - 1;
      PlainKeys(keys[..n]);
      KeptNext(keys[..n], keys[n]);
      assert keys == keys[..n] + [keys[n]];
    }
  }

  // ---- the input never scrolls off ----

  /** A character that is not a newline moves the end of the layout on by one. */
  lemma EndStep(t: seq<Glyph>, g: Glyph)
    requires Visible(t) && g.ch != NEWLINE
    ensures var ls, ls' := Lines(t), Lines(t + [g]);
      && EndOf(ls') == EndOf(ls) + 1 && |ls'| >= |ls|
      && (|ls| >= 2 ==> ls'[0] == ls[0])
  {
    var t' := t + [g];
    assert t'[..|t'| - 1] == t;
    assert Lines(t') == Extend(Lines(t), g);
    LinesTidy(t);
    EndExtend(Lines(t), g);
    ExtendFirst(Lines(t), g);
  }

  /** Characters without newlines move the end of the layout on by one each. */
  lemma {:induction false} EndAfter(p: seq<Glyph>, line: seq<bv8>)
    requires Visible(p) && Plain(line)
    ensures Visible(p + Glyphs(line))
    ensures EndOf(Lines(p + Glyphs(line))) == EndOf(Lines(p)) + |line|
    ensures |Lines(p + Glyphs(line))| >= |Lines(p)|
    ensures |Lines(p)| >= 2 ==> Lines(p + Glyphs(line))[0] == Lines(p)[0]
  {
    hide Lines, Extend, EndOf;
    if line == [] {
      assert p + Glyphs(line) == p;
    } else {
      var init, g := line[..|line| - 1], Glyph(line[|line| - 1], WHITE_ON_BLACK);
      EndAfter(p, init);
      assert p + Glyphs(line) == (p + Glyphs(init)) + [g];
      EndStep(p + Glyphs(init), g);
    }
  }

  /** If the screen overflows while a line is typed, the line scrolled off precedes the input. */
  lemma ScrollSparesInput(p: seq<Glyph>, line: seq<bv8>)
    requires Visible(p) && Plain(line) && |line| < MAX_LENGTH
    requires |Lines(p + Glyphs(line))| == HEIGHT + 1
    ensures |Lines(p + Glyphs(line))[0]| <= |p|
  {
    EndAfter(p, line);
    LinesTidy(p);
    FirstLine(p);
  }

  // ---- what the screen shows ----

  /** The text on the screen after one keystroke: keys the editor ignores change nothing. */
  function ShownAfter(t: seq<Glyph>, e: Edit, k: bv8): seq<Glyph> {
    if k == 0 || (if k == BACKSPACE then e.line == [] else |e.line| >= MAX_LENGTH - 1) then t
    else Typed(t, k, WHITE_ON_BLACK)
  }

  /** The text on the screen after the keystrokes, when it showed `before` at first. */
  function ScreenAfter(before: seq<Glyph>, keys: seq<bv8>): seq<Glyph> {
    if keys == [] then before
    else
      var init := keys[..|keys| - 1];
      ShownAfter(ScreenAfter(before, init), Keys(init), keys[|keys| - 1])
  }

  /** How many characters scroll off when this text is laid out: the first line, if it is one too many. */
  function Overflow(t: seq<Glyph>): nat {
    if |Lines(t)| > HEIGHT then |Lines(t)[0]| else 0
  }

  /** How many characters have scrolled off: only typed characters make any scroll off. */
  function Gone(before: seq<Glyph>, keys: seq<bv8>): nat {
    if keys == [] then 0
    else
      var init, k := keys[..|keys| - 1], keys[|keys| - 1];
      Gone(before, init) +
        if k == 0 || k == BACKSPACE || |Keys(init).line| >= MAX_LENGTH - 1 then 0
        else Overflow(ScreenAfter(before, init) + [GlyphFor(k, WHITE_ON_BLACK)])
  }

  lemma JoinGlyphs(p: seq<Glyph>, line: seq<bv8>, c: bv8)
    requires c != NEWLINE
    ensures (p + Glyphs(line)) + [GlyphFor(c, WHITE_ON_BLACK)] == p + Glyphs(line + [c])
  {
    assert Glyphs(line + [c]) == Glyphs(line) + [Glyph(c, WHITE_ON_BLACK)];
  }

  /** Typing a character adds it, and at most one line scrolls off. */
  lemma TypedLength(t: seq<Glyph>, c: bv8)
    requires c != 0 && c != BACKSPACE && |Lines(t)| <= HEIGHT
    ensures var t' := t + [GlyphFor(c, WHITE_ON_BLACK)];
      && |Lines(t')| <= HEIGHT + 1 && Overflow(t') <= |t'|
      && Typed(t, c, WHITE_ON_BLACK) == t'[Overflow(t')..]
  {
    var t' := t + [GlyphFor(c, WHITE_ON_BLACK)];
    assert t'[..|t'| - 1] == t;
    assert Lines(t') == Extend(Lines(t), t'[|t'| - 1]);
    FirstLine(t');
    assert t'[0..] == t';
  }

  lemma PlainEnd(line: seq<bv8>, c: bv8)
    requires Plain(line + [c])
    ensures c != 0 && c != BACKSPACE && c != NEWLINE
  {
    assert (line + [c])[|line|] == c;
  }

  /** A typed character goes behind the line; what scrolls off comes from the text before it. */
  lemma TypingKeeps(p: seq<Glyph>, line: seq<bv8>, c: bv8)
    requires Visible(p) && Plain(line + [c]) && |line| + 1 < MAX_LENGTH && |Lines(p + Glyphs(line))| <= HEIGHT
    ensures var n := Overflow((p + Glyphs(line)) + [GlyphFor(c, WHITE_ON_BLACK)]);
      && n <= |p|
      && Typed(p + Glyphs(line), c, WHITE_ON_BLACK) == p[n..] + Glyphs(line + [c])
  {
    hide Lines, Extend, Typed, Visible, Plain, Glyphs;
    var t' := p + Glyphs(line + [c]);
    PlainEnd(line, c);
    TypedLength(p + Glyphs(line), c);
    JoinGlyphs(p, line, c);
    if |Lines(t')| > HEIGHT {
      ScrollSparesInput(p, line + [c]);
    }
    assert t'[Overflow(t')..] == p[Overflow(t')..] + Glyphs(line + [c]);
  }

  /** A backspace takes the last character of the line, and none of the text before it. */
  lemma ErasingKeeps(p: seq<Glyph>, line: seq<bv8>)
    requires line != []
    ensures Typed(p + Glyphs(line), BACKSPACE, WHITE_ON_BLACK) == p + Glyphs(line[..|line| - 1])
  {
    assert Glyphs(line)[..|line| - 1] == Glyphs(line[..|line| - 1]);
    assert (p + Glyphs(line))[..|p + Glyphs(line)| - 1] == p + Glyphs(line[..|line| - 1]);
  }

  /** One keystroke on the screen: `n` characters of the text before the line scroll off. */
  lemma StepOnScreen(p: seq<Glyph>, e: Edit, k: bv8, n: nat)
    requires Visible(p) && EditOk(e) && k != NEWLINE && |Lines(p + Glyphs(e.line))| <= HEIGHT
    requires n == if k == 0 || k == BACKSPACE || |e.line| >= MAX_LENGTH - 1 then 0
                  else Overflow((p + Glyphs(e.line)) + [GlyphFor(k, WHITE_ON_BLACK)])
    ensures n <= |p| && ShownAfter(p + Glyphs(e.line), e, k) == p[n..] + Glyphs(Key(e, k).line)
  {
    hide Lines, Visible, Glyphs, Typed, Overflow;
    assert p[0..] == p;
    if k == BACKSPACE && e.line != [] {
      ErasingKeeps(p, e.line);
    } else if k != 0 && k != BACKSPACE && |e.line| < MAX_LENGTH - 1 {
      TypingKeeps(p, e.line, k);
    }
  }

  /** Whatever was typed, the screen stays within its rows. */
  lemma StepFits(t: seq<Glyph>, e: Edit, k: bv8)
    requires Visible(t) && |Lines(t)| <= HEIGHT
    ensures Visible(ShownAfter(t, e, k)) && |Lines(ShownAfter(t, e, k))| <= HEIGHT
  {
    TypedFits(t, k, WHITE_ON_BLACK);
    hide Typed, Lines, Visible;
  }

  /**
   * Throughout the input the screen shows the text that preceded it, less what has scrolled off,
   * and the line typed so far. `Gone` says how much that is: a backspace never takes any of it.
   */
  lemma {:induction false} InputOnScreen(before: seq<Glyph>, keys: seq<bv8>)
    requires Visible(before) && |Lines(before)| <= HEIGHT && forall i :: 0 <= i < |keys| ==> keys[i] != NEWLINE
    ensures var t := ScreenAfter(before, keys);
      && Visible(t) && |Lines(t)| <= HEIGHT && Gone(before, keys) <= |before|
      && t == before[Gone(before, keys)..] + Glyphs(Keys(keys).line)
  {
    hide Lines, Visible, Glyphs, ShownAfter, EditOk, Key, Overflow;
    if keys == [] {
      NothingTyped(before);
    } else {
      var init, k := keys[..|keys| - 1], keys[|keys| - 1];
      InputOnScreen(before, init);
      KeysOk(init);
      var t, g, e := ScreenAfter(before, init), Gone(before, init), Keys(init);
      VisibleTail(before, g);
      StepOnScreen(before[g..], e, k, Gone(before, keys) - g);
      StepFits(t, e, k);
      assert before[g..][Gone(before, keys) - g..] == before[Gone(before, keys)..];
    }
  }

  /** A backspace leaves of the text before the input exactly what was left of it. */
  lemma BackspaceSpares(before: seq<Glyph>, keys: seq<bv8>)
    requires Visible(before) && |Lines(before)| <= HEIGHT && forall i :: 0 <= i < |keys| ==> keys[i] != NEWLINE
    ensures var line := Keys(keys).line;
      && Gone(before, keys) <= |before|
      && ScreenAfter(before, keys + [BACKSPACE])
         == before[Gone(before, keys)..] + Glyphs(if line == [] then line else line[..|line| - 1])
  {
    hide Lines, Visible, Glyphs, ShownAfter, EditOk;
    var keys' := keys + [BACKSPACE];
    assert keys'[..|keys|] == keys;
    InputOnScreen(before, keys');
    assert Keys(keys') == Key(Keys(keys), BACKSPACE);
  }

  /** A plain line that fits the screen is shown behind the text before it, white on black. */
  lemma {:induction false} PlainShown(before: seq<Glyph>, keys: seq<bv8>)
    requires Plain(keys) && |keys| <= 255 && |Lines(before + Marks(keys, 0x0F))| <= 25
    ensures ScreenAfter(before, keys) == before + Marks(keys, 0x0F)
  {
    hide Lines, Extend, Marks, GlyphFor, Keys;
    if keys == [] {
      assert before + Marks(keys, 0x0F) == before;
    } else {
      var n := |keys| - 1;
      MarksNext(before, keys, 0x0F);
      LinesAppend(before + Marks(keys[..n], 0x0F), GlyphFor(keys[n], 0x0F));
      PlainKeys(keys[..n]);
      PlainShown(before, keys[..n]);
    }
  }

  lemma NothingTyped(before: seq<Glyph>)
    ensures before == before[0..] + Glyphs(Keys([]).line)
  {
    assert Glyphs([]) == [];
  }

  lemma VisibleTail(before: seq<Glyph>, k: nat)
    requires Visible(before) && k <= |before|
    ensures Visible(before[k..])
  {
  }

  // ---- the buffer ----

  /** The buffer holds the line, what was erased behind it, and zeros. */
  predicate Buffered(buf: seq<bv8>, e: Edit) {
    |buf| == MAX_LENGTH && EditOk(e)
    && forall i :: 0 <= i < MAX_LENGTH ==>
         buf[i] == if i < |e.line| then e.line[i]
                   else if i < |e.line| + |e.erased| then e.erased[i - |e.line|] else 0
  }

  /** A NUL-terminated string in a buffer. */
  function CString(buf: seq<bv8>): seq<bv8> {
    if buf == [] || buf[0] == 0 then [] else [buf[0]] + CString(buf[1..])
  }

  lemma {:induction false} CStringIs(buf: seq<bv8>, s: seq<bv8>)
    requires |s| < |buf| && buf[..|s|] == s && buf[|s|] == 0 && forall i :: 0 <= i < |s| ==> s[i] != 0
    ensures CString(buf) == s
    decreases |s|
  {
    if s != [] {
      assert buf[1..][..|s| - 1] == s[1..];
      CStringIs(buf[1..], s[1..]);
    }
  }

  /** Storing a character, or clearing the cell after the line, keeps the buffer in step. */
  lemma BufferKey(buf: seq<bv8>, e: Edit, k: bv8)
    requires Buffered(buf, e) && k != NEWLINE && k != 0
    ensures |e.line| < |buf| == MAX_LENGTH
    ensures k != BACKSPACE && |e.line| < MAX_LENGTH - 1 ==> Buffered(buf[|e.line| := k], Key(e, k))
    ensures k == BACKSPACE && e.line != [] ==> Buffered(buf[|e.line| := 0], Key(e, k))
  {
  }

  /** What the shell will take the buffer for: the line, and a character it showed erasing. */
  lemma StringInBuffer(buf: seq<bv8>, e: Edit)
    requires Buffered(buf, e)
    ensures CString(buf) == e.line + e.erased
    ensures CString(buf) == e.line <==> e.erased == []
  {
    CStringIs(buf, e.line + e.erased);
  }

  /** The last keystroke that changed anything was a backspace. */
  predicate EndsErasing(keys: seq<bv8>) {
    keys != [] &&
    var before, k := Keys(keys[..|keys| - 1]).line, keys[|keys| - 1];
    if Keys(keys).line != before then k == BACKSPACE else EndsErasing(keys[..|keys| - 1])
  }

  /** A character stays behind exactly after a last change that was a backspace. */
  lemma {:induction false} ErasedIff(keys: seq<bv8>)
    ensures Keys(keys).erased != [] <==> EndsErasing(keys)
  {
    if keys != [] {
      ErasedIff(keys[..|keys| - 1]);
    }
  }

  lemma KeysNext(keys: seq<bv8>, k: bv8)
    ensures Keys(keys + [k]) == Key(Keys(keys), k) && Keys([]) == NOTHING
  {
    assert (keys + [k])[..|keys|] == keys;
  }

  /** Typing a character and erasing it leaves an empty line, and the character in the buffer. */
  lemma StaleExample(c: bv8)
    requires c != 0 && c != NEWLINE && c != BACKSPACE
    ensures Keys([c, BACKSPACE]) == Edit([], [c])
  {
    hide Keys;
    KeysNext([], c);
    KeysNext([c], BACKSPACE);
    assert [] + [c] == [c] && [c] + [BACKSPACE] == [c, BACKSPACE];
  }

  // ---- the editor ----

  /** The keystrokes up to the first Enter. */
  function UpToEnter(keys: seq<bv8>): (r: seq<bv8>)
    ensures |r| <= |keys| && r == keys[..|r|]
    ensures forall i :: 0 <= i < |r| ==> r[i] != NEWLINE
    ensures |r| < |keys| ==> keys[|r|] == NEWLINE
  {
    if keys == [] || keys[0] == NEWLINE then [] else [keys[0]] + UpToEnter(keys[1..])
  }

  /** Reading on: the next key is either the Enter or one more keystroke. */
  lemma NextKey(keys: seq<bv8>, i: nat, before: seq<Glyph>)
    requires i < |keys| && i <= |UpToEnter(keys)|
    ensures var done := UpToEnter(keys);
      if keys[i] == NEWLINE then i == |done| && done[..i] == done
      else
        && i < |done| && Keys(done[..i + 1]) == Key(Keys(done[..i]), keys[i])
        && ScreenAfter(before, done[..i + 1]) == ShownAfter(ScreenAfter(before, done[..i]), Keys(done[..i]), keys[i])
  {
    var done := UpToEnter(keys);
    hide ShownAfter, Key;
    if keys[i] != NEWLINE {
      assert done[..i + 1][..i] == done[..i] && done[i] == keys[i];
    }
  }

  /** What holds of the buffer and the screen whenever the editor waits for a key. */
  ghost predicate Editing(screen: Screen, buf: array<bv8>, length: nat, e: Edit, t: seq<Glyph>)
    requires screen.Valid()
    reads screen, screen.memory, buf
  {
    length == |e.line| && Buffered(buf[..], e) && screen.Showing(t)
  }

  /** One pass of the loop, for a key other than Enter. */
  method Keystroke(screen: Screen, buf: array<bv8>, length: nat, c: bv8, ghost e: Edit, ghost t: seq<Glyph>)
      returns (length': nat)
    requires screen.Valid() && buf != screen.memory && c != NEWLINE
    requires Editing(screen, buf, length, e, t)
    modifies screen`cursor, screen.memory, buf
    ensures Editing(screen, buf, length', Key(e, c), ShownAfter(t, e, c))
  {
    hide Typed, Buffered, Shows;
    length' := length;
    if c == 0 {
      return;
    }
    BufferKey(buf[..], e, c);
    if c == BACKSPACE {
      if length > 0 {
        buf[length] := 0;
        length' := length - 1;
        screen.PutChar(c, WHITE_ON_BLACK, t);
      }
    } else if length < MAX_LENGTH - 1 {
      screen.PutChar(c, WHITE_ON_BLACK, t);
      buf[length] := c;
      length' := length + 1;
    }
  }

  /**
   * `handleInput`, reading the keystrokes `keys`: the screen shows what the keystrokes up to Enter
   * make of the text before the input, which is what is left of that text and then the line, and
   * the line is in the buffer. `entered` says whether Enter came; if not, the editor is still
   * waiting for more.
   */
  method HandleInput(screen: Screen, buf: array<bv8>, keys: seq<bv8>, ghost before: seq<Glyph>)
      returns (length: nat, entered: bool)
    requires screen.Valid() && screen.Showing(before)
    requires buf.Length == MAX_LENGTH && buf != screen.memory && forall i :: 0 <= i < MAX_LENGTH ==> buf[i] == 0
    modifies screen`cursor, screen.memory, buf
    ensures var e := Keys(UpToEnter(keys));
      length == |e.line| < MAX_LENGTH && Buffered(buf[..], e) && (entered <==> NEWLINE in keys)
    ensures var done := UpToEnter(keys);
      var t := ScreenAfter(before, done);
      && screen.Showing(if entered then Typed(t, NEWLINE, WHITE_ON_BLACK) else t)
      && Gone(before, done) <= |before| && t == before[Gone(before, done)..] + Glyphs(Keys(done).line)
    ensures var done := UpToEnter(keys);
      Plain(done) && |done| <= 255 ==> length == |done| && buf[..length] == done && buf[length] == 0
  {
    hide Typed, Buffered, Shows, Key, Keys, UpToEnter, ShownAfter, ScreenAfter, Gone, Lines, Visible;
    length, entered := 0, false;
    ghost var done := UpToEnter(keys);
    EditingStarts(screen, buf, before);
    KeysOk(done);
    InputOnScreen(before, done);
    assert done[..0] == [];
    for i := 0 to |keys|
      invariant i <= |done| && !entered && NEWLINE !in keys[..i]
      invariant Editing(screen, buf, length, Keys(done[..i]), ScreenAfter(before, done[..i]))
    {
      NextKey(keys, i, before);
      if keys[i] == NEWLINE {
        screen.PutChar(NEWLINE, WHITE_ON_BLACK, ScreenAfter(before, done));
        entered := true;
        if Plain(done) && |done| <= 255 {
          PlainTyped(buf[..], done);
        }
        return;
      }
      length := Keystroke(screen, buf, length, keys[i], Keys(done[..i]), ScreenAfter(before, done[..i]));
    }
    assert done[..|keys|] == done;
    if Plain(done) && |done| <= 255 {
      PlainTyped(buf[..], done);
    }
  }

  /** The buffer after plain keystrokes. */
  lemma PlainTyped(buf: seq<bv8>, keys: seq<bv8>)
    requires Plain(keys) && |keys| <= 255 && Buffered(buf, Keys(keys))
    ensures Keys(keys).line == keys && buf[..|keys|] == keys && buf[|keys|] == 0
  {
    hide Keys;
    PlainKeys(keys);
  }

  lemma EditingStarts(screen: Screen, buf: array<bv8>, before: seq<Glyph>)
    requires screen.Valid() && screen.Showing(before)
    requires buf.Length == MAX_LENGTH && forall i :: 0 <= i < MAX_LENGTH ==> buf[i] == 0
    ensures Visible(before) && |Lines(before)| <= HEIGHT
    ensures Editing(screen, buf, 0, Keys([]), ScreenAfter(before, []))
  {
  }
}
