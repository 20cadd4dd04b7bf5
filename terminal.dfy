/** The standard-output stream the program draws on, and the part of an
    ANSI terminal needed to say what a drawing looks like. The program writes
    two kinds of output: escape sequences (`OutEsc`, which puts the control
    sequence introducer ESC '[' in front of its argument) and plain text
    (`OutText`). The stream is kept as the sequence of those writes. */
module Terminal {
  import opened Wrappers
  import opened Strings

  datatype Token = Esc(code: string) | Text(text: string)

  /** The `StreamWriter` wrapping standard output: everything written so far. */
  class Stream {
    var written: seq<Token>

    constructor ()
      ensures written == []
    {
      written := [];
    }
  }

  /** `OutEsc`: writes ESC '[' followed by `code`. */
  method OutEsc(sw: Stream, code: string)
    modifies sw
    ensures sw.written == old(sw.written) + [Esc(code)]
  {
    sw.written := sw.written + [Esc(code)];
  }

  /** `OutText`: writes `text` as it is. */
  method OutText(sw: Stream, text: string)
    modifies sw
    ensures sw.written == old(sw.written) + [Text(text)]
  {
    sw.written := sw.written + [Text(text)];
  }

  /** The escape the program builds as `col + "G"`: move the cursor to
      column `col` of the current line (1-based). */
  function CursorTo(col: int): Token {
    Esc(IntToString(col) + "G")
  }

  /** What the terminal sees in an escape: `Some(n)` when it is the
      cursor-to-column command with parameter `n`, `None` for anything else
      (hiding or showing the cursor, colours), which leaves cursor and
      cells alone. */
  function ColumnOf(code: string): Option<nat> {
    if |code| >= 2 && code[|code| - 1] == 'G' && IsDigits(code[..|code| - 1])
    then Some(ParseNat(code[..|code| - 1]))
    else None
  }

  /** The escape built for a non-negative column moves the cursor there. */
  lemma CursorToColumn(col: nat)
    ensures CursorTo(col).Esc? && ColumnOf(CursorTo(col).code) == Some(col)
  {
    var code := IntToString(col) + "G";
    assert code[..|code| - 1] == NatToString(col);
    ParseNatToString(col);
  }

  /** One line of a terminal: the cursor column, the character shown in
      each column written so far, whether the cursor is visible, and the
      parameters of the select-graphic-rendition (colour) escape in effect
      ("0" is the default rendition). */
  datatype Screen = Screen(col: int, cells: map<int, char>, cursorShown: bool, sgr: string)

  /** Printing `text`: each character goes into the cursor's cell and the
      cursor moves one column right. */
  function Put(s: Screen, text: string): Screen
    decreases |text|
  {
    if text == [] then s
    else Put(s.(col := s.col + 1, cells := s.cells[s.col := text[0]]), text[1..])
  }

  /** The effect of one write: text is printed; of the escapes, "<n>G" moves
      the cursor, "?25l" hides and "?25h" shows it, "<p>m" sets the colour. */
  function Step(s: Screen, t: Token): Screen {
    match t
    case Text(text) => Put(s, text)
    case Esc(code) =>
      match ColumnOf(code)
      case Some(n) => s.(col := n)
      case None =>
        if code == "?25l" then s.(cursorShown := false)
        else if code == "?25h" then s.(cursorShown := true)
        else if |code| >= 1 && code[|code| - 1] == 'm' then s.(sgr := code[..|code| - 1])
        else s
  }

  /** The screen after the terminal has processed `ts` in order. */
  function Run(s: Screen, ts: seq<Token>): Screen
    decreases |ts|
  {
    if ts == [] then s else Run(Step(s, ts[0]), ts[1..])
  }

  /** Printing `text` fills exactly the columns from the cursor on, one
      character each, and leaves every other cell as it was. */
  lemma {:induction false} PutCells(s: Screen, text: string)
    ensures Put(s, text).col == s.col + |text|
    ensures Put(s, text).cursorShown == s.cursorShown && Put(s, text).sgr == s.sgr
    ensures forall c :: c in Put(s, text).cells <==> c in s.cells || s.col <= c < s.col + |text|
    ensures forall c :: c in Put(s, text).cells ==>
      Put(s, text).cells[c] == if s.col <= c < s.col + |text| then text[c - s.col] else s.cells[c]
    decreases |text|
  {
    if text != [] {
      var s' := s.(col := s.col + 1, cells := s.cells[s.col := text[0]]);
      PutCells(s', text[1..]);
    }
  }

  /** Printing moves the cursor past the text and changes neither cursor
      visibility nor colour. */
  lemma PutMoves(s: Screen, text: string)
    ensures Put(s, text).col == s.col + |text|
    ensures Put(s, text).cursorShown == s.cursorShown && Put(s, text).sgr == s.sgr
  {
    PutCells(s, text);
  }

  /** The cell in column `c` after printing `text`: its character when the
      print covered `c`, otherwise what was there before. */
  lemma PutCell(s: Screen, text: string, c: int)
    ensures s.col <= c < s.col + |text| ==> c in Put(s, text).cells && Put(s, text).cells[c] == text[c - s.col]
    ensures !(s.col <= c < s.col + |text|) ==>
      (c in Put(s, text).cells <==> c in s.cells) && (c in s.cells ==> Put(s, text).cells[c] == s.cells[c])
  {
    PutCells(s, text);
  }

  /** Two prints in a row are one print of the joined text. */
  lemma {:induction false} PutAppend(s: Screen, a: string, b: string)
    ensures Put(Put(s, a), b) == Put(s, a + b)
    decreases |a|
  {
    if a != [] {
      assert (a + b)[0] == a[0] && (a + b)[1..] == a[1..] + b;
      PutAppend(s.(col := s.col + 1, cells := s.cells[s.col := a[0]]), a[1..], b);
    } else {
      assert a + b == b;
    }
  }

  /** Processing two chunks of output in turn is processing their concatenation. */
  lemma {:induction false} RunAppend(s: Screen, a: seq<Token>, b: seq<Token>)
    ensures Run(Run(s, a), b) == Run(s, a + b)
    decreases |a|
  {
    if a != [] {
      assert (a + b)[0] == a[0] && (a + b)[1..] == a[1..] + b;
      RunAppend(Step(s, a[0]), a[1..], b);
    } else {
      assert a + b == b;
    }
  }

  /** Processing one more write after `a`. */
  lemma RunSnoc(s: Screen, a: seq<Token>, t: Token)
    ensures Run(s, a + [t]) == Step(Run(s, a), t)
  {
    RunAppend(s, a, [t]);
    assert [t][1..] == [];
  }

  /** `n` writes of the same one-character glyph print `n` copies of its character. */
  lemma {:induction false} RunRepeatedGlyph(s: Screen, g: string, n: nat)
    requires |g| == 1
    ensures Run(s, Repeat(Text(g), n)) == Put(s, Repeat(g[0], n))
    decreases n
  {
    if n > 0 {
      assert g == [g[0]];
      var s' := Step(s, Text(g));
      RunRepeatedGlyph(s', g, n - 1);
      assert Repeat(Text(g), n)[1..] == Repeat(Text(g), n - 1);
      PutAppend(s, g, Repeat(g[0], n - 1));
    }
  }
}
