/** The differential progress bar. The line it draws is, from column 1:
    the begin glyph, `Width` cells of bar, the finish glyph, then " ", a
    three-character percentage and "%". The bar remembers the last fill
    index `Ind` and percentage `Pct` it drew, and `MoveDelta` writes only
    the cells that differ from that state.

    `Cell` says what every column of that line shows for a given state;
    the lemmas prove that `DrawInitial` lays the line down for state (0, 0)
    and that every forward `MoveDelta` turns the line of the old state into
    the line of the new one, touching nothing right of the percentage. */
module ProgressBar {
  import opened Wrappers
  import opened Strings
  import opened Terminal

  // The glyphs of the bar, one private-use character each. They are get-only
  // properties with the same value in every bar, so they are constants here.
  // The head glyph is the same character as the empty cell.
  const Beg: string := "\U{EE00}"
  const BegFilled: string := "\U{EE03}"
  const Filler: string := "\U{EE04}"
  const Space: string := "\U{EE01}"
  const Head: string := "\U{EE01}"
  const Fin: string := "\U{EE02}"
  const FinFilled: string := "\U{EE05}"

  /** The last drawn state of the bar. */
  class Bar {
    var Width: int
    var Ind: int
    var Pct: int

    constructor ()
      ensures Width == 0 && Ind == 0 && Pct == 0
    {
      Width, Ind, Pct := 0, 0, 0;
    }
  }

  /** `CreateBar`: a 30-cell bar with nothing drawn yet. */
  method CreateBar() returns (bar: Bar)
    ensures fresh(bar)
    ensures bar.Width == 30 && bar.Ind == 0 && bar.Pct == 0
  {
    bar := new Bar();
    bar.Width := 30;
  }

  /** `CountProgress`: the percentage and the fill index for `current` of
      `total` items done, both rounded down from the same ratio. */
  function CountProgress(width: int, current: int, total: int): (r: (int, int))
    requires total > 0 && 0 <= current
    ensures width >= 1 && current <= total ==> 0 <= r.0 <= 100 && 0 <= r.1 <= width - 1
  {
    var counts := (100 * current / total, (width - 1) * current / total);
    assert width >= 1 && current <= total ==> 0 <= counts.0 <= 100 && 0 <= counts.1 <= width - 1 by {
      if width >= 1 && current <= total {
        ScaledFloorMonotone(100, 0, current, total);
        ScaledFloorMonotone(100, current, total, total);
        ScaledFloorMonotone(width - 1, 0, current, total);
        ScaledFloorMonotone(width - 1, current, total, total);
      }
    }
    counts
  }

  /** Both numbers are the floor of the same ratio `current / total`,
      scaled by 100 and by `width - 1`. */
  lemma CountProgressFloors(width: int, current: int, total: int)
    requires total > 0 && 0 <= current
    ensures var r := CountProgress(width, current, total);
      total * r.0 <= 100 * current < total * (r.0 + 1) &&
      total * r.1 <= (width - 1) * current < total * (r.1 + 1)
  {
    FloorDivision(100 * current, total);
    FloorDivision((width - 1) * current, total);
  }

  lemma FloorDivision(a: int, b: int)
    requires b > 0
    ensures b * (a / b) <= a < b * (a / b + 1)
  {
  }

  lemma MultiplyMonotone(k: int, a: int, b: int)
    requires k >= 0 && a <= b
    ensures k * a <= k * b
  {
  }

  /** Multiplying by a positive number can be cancelled from a strict inequality. */
  lemma CancelLess(k: int, a: int, b: int)
    requires k > 0 && k * a < k * b
    ensures a < b
  {
    if a >= b {
      MultiplyMonotone(k, b, a);
    }
  }

  /** With `0 <= current <= total`, the percentage is in [0, 100] and the fill
      index in [0, width - 1]; no work done gives (0, 0), all of it gives
      (100, width - 1); and both grow with `current`. */
  lemma {:induction false} CountProgressRange(width: int, c1: int, c2: int, total: int)
    requires width >= 1 && total > 0 && 0 <= c1 <= c2 <= total
    ensures 0 <= CountProgress(width, c1, total).0 <= CountProgress(width, c2, total).0 <= 100
    ensures 0 <= CountProgress(width, c1, total).1 <= CountProgress(width, c2, total).1 <= width - 1
    ensures CountProgress(width, 0, total) == (0, 0)
    ensures CountProgress(width, total, total) == (100, width - 1)
  {
    ScaledFloorMonotone(100, c1, c2, total);
    ScaledFloorMonotone(width - 1, c1, c2, total);
    ScaledFloorMonotone(100, 0, 0, total);
    ScaledFloorMonotone(width - 1, 0, 0, total);
    ScaledFloorMonotone(100, total, total, total);
    ScaledFloorMonotone(width - 1, total, total, total);
    ScaledFloorMonotone(100, c2, total, total);
    ScaledFloorMonotone(width - 1, c2, total, total);
    ScaledFloorMonotone(100, 0, c1, total);
    ScaledFloorMonotone(width - 1, 0, c1, total);
  }

  /** The floors of `k * c1 / total` and `k * c2 / total` are ordered like
      `c1` and `c2`; they are 0 for no work and `k` for all of it. */
  lemma ScaledFloorMonotone(k: nat, c1: int, c2: int, total: int)
    requires total > 0 && 0 <= c1 <= c2 <= total
    ensures k * c1 / total <= k * c2 / total
    ensures c1 == 0 ==> k * c1 / total == 0
    ensures c2 == total ==> k * c2 / total == k
  {
    MultiplyMonotone(k, c1, c2);
    FloorMonotone(k * c1, k * c2, total);
    if c2 == total {
      FloorOfMultiple(k, total);
    }
  }

  lemma FloorMonotone(a: int, b: int, t: int)
    requires t > 0 && a <= b
    ensures a / t <= b / t
  {
    var qa, qb := a / t, b / t;
    FloorDivision(a, t);
    FloorDivision(b, t);
    CancelLess(t, qa, qb + 1);
  }

  lemma FloorOfMultiple(k: int, t: int)
    requires t > 0
    ensures k * t / t == k
  {
    var q := k * t / t;
    FloorDivision(k * t, t);
    assert t * q <= t * k < t * (q + 1);
    CancelLess(t, k, q + 1);
    if q < k {
      CancelLess(t, q, k);
      MultiplyMonotone(t, q + 1, k);
    }
  }

  /** The three cells of the percentage: `nextPct.ToString().PadLeft(3, ' ')`. */
  function PctText(pct: int): (r: string)
    ensures 0 <= pct <= 100 ==> |r| == 3
  {
    PadLeft(IntToString(pct), 3, ' ')
  }

  /** What column `c` of the line shows when fill index `ind` and percentage
      `pct` have been drawn. */
  function Cell(w: int, ind: int, pct: int, c: int): char
    requires 0 <= pct <= 100 && 1 <= c <= w + 7
  {
    if c == 1 then (if ind == 0 then Beg[0] else BegFilled[0])
    else if c <= w + 1 then
      (if c <= ind + 1 || ind == w - 1 then Filler[0]
       else if c == ind + 2 then Head[0]
       else Space[0])
    else if c == w + 2 then (if ind == w - 1 then FinFilled[0] else Fin[0])
    else if c == w + 3 then ' '
    else if c <= w + 6 then PctText(pct)[c - w - 4]
    else '%'
  }

  /** The screen line shows state (`ind`, `pct`) of a `w`-cell bar. */
  ghost predicate Shows(s: Screen, w: int, ind: int, pct: int) {
    0 <= pct <= 100 &&
    forall c :: 1 <= c <= w + 7 ==> c in s.cells && s.cells[c] == Cell(w, ind, pct, c)
  }

  /** `b` differs from `a` at most in the cells from `lo` to `hi` and the cursor
      column; cursor visibility and colour are the same. */
  ghost predicate SameOutside(a: Screen, b: Screen, lo: int, hi: int) {
    a.cursorShown == b.cursorShown && a.sgr == b.sgr &&
    forall c :: (c < lo || hi < c) ==>
      (c in a.cells <==> c in b.cells) && (c in a.cells ==> a.cells[c] == b.cells[c])
  }

  /** The writes of `DrawInitial` for a bar `w` cells wide. */
  function InitialTokens(w: int): seq<Token> {
    [Esc("?25l")] + [Esc("1G")] + [Text(Beg)] + Repeat(Text(Space), if w > 0 then w else 0)
    + [Text(Fin)] + [Text("   0%")]
  }

  /** `DrawInitial`: hide the cursor, go to column 1 and draw the empty bar
      with its finish glyph and "   0%". */
  method DrawInitial(sw: Stream, bar: Bar)
    modifies sw
    ensures sw.written == old(sw.written) + InitialTokens(bar.Width)
  {
    OutEsc(sw, "?25l");
    OutEsc(sw, "1G");
    OutText(sw, Beg);
    ghost var head := [Esc("?25l")] + [Esc("1G")] + [Text(Beg)];
    assert sw.written == old(sw.written) + head;
    var i := 0;
    while i < bar.Width
      invariant 0 <= i <= if bar.Width > 0 then bar.Width else 0
      invariant sw.written == old(sw.written) + (head + Repeat(Text(Space), i))
    {
      OutText(sw, Space);
      RepeatSnoc(Text(Space), i);
      Associative(head, Repeat(Text(Space), i), [Text(Space)]);
      Associative(old(sw.written), head + Repeat(Text(Space), i), [Text(Space)]);
      i := i + 1;
    }
    ghost var body := head + Repeat(Text(Space), i);
    OutText(sw, Fin);
    Associative(old(sw.written), body, [Text(Fin)]);
    OutText(sw, "   0%");
    Associative(old(sw.written), body + [Text(Fin)], [Text("   0%")]);
  }

  /** Whatever the line showed before (the cursor anywhere, "Analyzing..."
      already printed), after `DrawInitial` it shows the empty bar at 0% and
      the cursor is hidden. */
  lemma DrawInitialShows(s: Screen, w: int)
    requires w >= 2
    ensures Shows(Run(s, InitialTokens(w)), w, 0, 0)
    ensures !Run(s, InitialTokens(w)).cursorShown && Run(s, InitialTokens(w)).sgr == s.sgr
  {
    var s1 := s.(cursorShown := false, col := 1);
    RunInitialTokens(s, w);
    InitialLayout(s1, w);
    var s2 := Put(s1, Beg);
    var s3 := Put(s2, Repeat(Space[0], w));
    PutMoves(s1, Beg);
    PutMoves(s2, Repeat(Space[0], w));
    PutMoves(s3, Fin);
    PutMoves(Put(s3, Fin), "   0%");
  }

  /** On the terminal, `DrawInitial`'s writes hide the cursor, go to column 1
      and print the begin glyph, `w` empty cells, the finish glyph and "   0%". */
  lemma {:induction false} RunInitialTokens(s: Screen, w: nat)
    ensures Run(s, InitialTokens(w)) ==
      Put(Put(Put(Put(s.(cursorShown := false, col := 1), Beg), Repeat(Space[0], w)), Fin), "   0%")
  {
    var t1 := [Esc("?25l")];
    var t2 := t1 + [Esc("1G")];
    var t3 := t2 + [Text(Beg)];
    var t4 := t3 + Repeat(Text(Space), w);
    var t5 := t4 + [Text(Fin)];
    assert ColumnOf("?25l") == None;
    assert ColumnOf("1G") == Some(1) by {
      assert "1G"[..1] == "1";
      assert ParseNat("1") == 1 by { assert "1"[..0] == ""; }
    }
    assert t1 == [] + [Esc("?25l")];
    RunSnoc(s, [], Esc("?25l"));
    RunSnoc(s, t1, Esc("1G"));
    RunSnoc(s, t2, Text(Beg));
    RunAppend(s, t3, Repeat(Text(Space), w));
    RunRepeatedGlyph(Run(s, t3), Space, w);
    RunSnoc(s, t4, Text(Fin));
    RunSnoc(s, t5, Text("   0%"));
  }

  /** The begin glyph, `w` empty cells, the finish glyph and "   0%" printed
      from column 1 are the line of state (0, 0). */
  lemma InitialLayout(s1: Screen, w: int)
    requires w >= 2 && s1.col == 1
    ensures Shows(Put(Put(Put(Put(s1, Beg), Repeat(Space[0], w)), Fin), "   0%"), w, 0, 0)
  {
    var spaces := Repeat(Space[0], w);
    var s2 := Put(s1, Beg);
    var s3 := Put(s2, spaces);
    var s4 := Put(s3, Fin);
    var r := Put(s4, "   0%");
    PutMoves(s1, Beg);
    PutMoves(s2, spaces);
    PutMoves(s3, Fin);
    assert PctText(0) == "  0" by {
      assert IntToString(0) == "0";
    }
    forall c | 1 <= c <= w + 7
      ensures c in r.cells && r.cells[c] == Cell(w, 0, 0, c)
    {
      PutCell(s1, Beg, c);
      PutCell(s2, spaces, c);
      PutCell(s3, Fin, c);
      PutCell(s4, "   0%", c);
    }
  }

  /** The writes that redraw the bar segment when the fill index changes. */
  function BarTokens(w: int, ind: int, nextInd: int): seq<Token> {
    if nextInd == ind then []
    else BegTokens(ind) + [CursorTo(2 + ind)] + FillTokens(ind, nextInd) + TailTokens(w, nextInd)
  }

  /** The begin glyph turns filled on the first advance, from index 0. */
  function BegTokens(ind: int): seq<Token> {
    if ind == 0 then [CursorTo(1), Text(BegFilled)] else []
  }

  /** One filler glyph for each index from `ind` up to `nextInd`. */
  function FillTokens(ind: int, nextInd: int): seq<Token> {
    Repeat(Text(Filler), if nextInd > ind then nextInd - ind else 0)
  }

  /** After the fillers: the head glyph, or, on the last index, one more
      filler and the filled finish glyph. */
  function TailTokens(w: int, nextInd: int): seq<Token> {
    if nextInd == w - 1 then [Text(Filler), Text(FinFilled)] else [Text(Head)]
  }

  /** The writes that redraw the percentage when it changes. */
  function PctTokens(w: int, pct: int, nextPct: int): seq<Token> {
    if nextPct == pct then [] else [CursorTo(4 + w), Text(PctText(nextPct))]
  }

  /** All that `MoveDelta` writes to go from (`ind`, `pct`) to (`nextInd`,
      `nextPct`). */
  function DeltaTokens(w: int, ind: int, pct: int, nextInd: int, nextPct: int): seq<Token> {
    if nextInd == ind && nextPct == pct then []
    else BarTokens(w, ind, nextInd) + PctTokens(w, pct, nextPct)
  }

  /** Nothing at all is written when the state is unchanged; the filled begin
      glyph is written exactly on an advance away from index 0, the filled
      finish glyph exactly when the index moves to the last cell. */
  lemma DeltaTokensWrites(w: int, ind: int, pct: int, nextInd: int, nextPct: int)
    ensures DeltaTokens(w, ind, pct, nextInd, nextPct) == [] <==> nextInd == ind && nextPct == pct
    ensures Text(BegFilled) in DeltaTokens(w, ind, pct, nextInd, nextPct) <==> nextInd != ind && ind == 0
    ensures Text(FinFilled) in DeltaTokens(w, ind, pct, nextInd, nextPct) <==> nextInd != ind && nextInd == w - 1
  {
    if nextInd != ind {
      BarTokensGlyphs(w, ind, nextInd);
    }
    PctTokensPlain(w, pct, nextPct);
  }

  /** The percentage writes are never a glyph of the bar, and are empty
      exactly when the percentage is unchanged. */
  lemma PctTokensPlain(w: int, pct: int, nextPct: int)
    ensures PctTokens(w, pct, nextPct) == [] <==> nextPct == pct
    ensures Text(BegFilled) !in PctTokens(w, pct, nextPct)
    ensures Text(FinFilled) !in PctTokens(w, pct, nextPct)
  {
    var t := PctText(nextPct);
    assert |t| >= 3 by {
      var digits := IntToString(nextPct);
      assert t == PadLeft(digits, 3, ' ');
    }
    assert |BegFilled| == 1 && |FinFilled| == 1;
    assert t != BegFilled && t != FinFilled;
    if nextPct != pct {
      var p := PctTokens(w, pct, nextPct);
      assert p == [CursorTo(4 + w), Text(t)];
      assert p[0] != Text(BegFilled) && p[0] != Text(FinFilled);
    }
  }

  /** A bar segment holds the filled begin glyph exactly when it leaves
      index 0, and the filled finish glyph exactly when it reaches the last
      index. */
  lemma BarTokensGlyphs(w: int, ind: int, nextInd: int)
    requires nextInd != ind
    ensures |BarTokens(w, ind, nextInd)| > 0
    ensures Text(BegFilled) in BarTokens(w, ind, nextInd) <==> ind == 0
    ensures Text(FinFilled) in BarTokens(w, ind, nextInd) <==> nextInd == w - 1
  {
    var pre, fill, tail := BegTokens(ind), FillTokens(ind, nextInd), TailTokens(w, nextInd);
    assert BarTokens(w, ind, nextInd) == pre + [CursorTo(2 + ind)] + fill + tail;
    assert Text(BegFilled) !in fill && Text(FinFilled) !in fill by {
      assert forall t :: t in fill ==> t == Text(Filler);
    }
    assert Text(BegFilled) !in tail && Text(FinFilled) !in pre;
    assert Text(BegFilled) in pre <==> ind == 0;
    assert Text(FinFilled) in tail <==> nextInd == w - 1;
  }

  /** `MoveDelta`: writes what changed since the last draw, then records the
      new state. Nothing is written when the state is unchanged. */
  method MoveDelta(sw: Stream, bar: Bar, nextInd: int, nextPct: int)
    modifies sw, bar
    ensures bar.Width == old(bar.Width) && bar.Ind == nextInd && bar.Pct == nextPct
    ensures sw.written == old(sw.written) + DeltaTokens(old(bar.Width), old(bar.Ind), old(bar.Pct), nextInd, nextPct)
  {
    if nextInd == bar.Ind && nextPct == bar.Pct {
      return;
    }
    var w, ind, pct := bar.Width, bar.Ind, bar.Pct;
    ghost var start := sw.written;
    if nextInd != ind {
      DrawBarSegment(sw, w, ind, nextInd);
    } else {
      assert sw.written == start + BarTokens(w, ind, nextInd) by {
        assert start + [] == start;
      }
    }
    ghost var drawn := sw.written;
    if nextPct != pct {
      DrawPct(sw, w, nextPct);
    } else {
      assert sw.written == drawn + PctTokens(w, pct, nextPct) by {
        assert drawn + [] == drawn;
      }
    }
    Associative(start, BarTokens(w, ind, nextInd), PctTokens(w, pct, nextPct));
    bar.Ind := nextInd;
    bar.Pct := nextPct;
  }

  /** The percentage half of `MoveDelta`: moves to the percentage and
      writes the new one, padded to three characters. */
  method DrawPct(sw: Stream, w: int, nextPct: int)
    modifies sw
    ensures sw.written == old(sw.written) + [CursorTo(4 + w), Text(PctText(nextPct))]
  {
    OutEsc(sw, IntToString(4 + w) + "G");
    var pctStr := PadLeft(IntToString(nextPct), 3, ' ');
    OutText(sw, pctStr);
    Pair(old(sw.written), CursorTo(4 + w), Text(pctStr));
  }

  /** The bar-segment half of `MoveDelta`: turns the begin glyph filled when
      leaving index 0, writes a filler for each index passed, then the head,
      or on the last index a filler and the filled finish glyph. */
  method DrawBarSegment(sw: Stream, w: int, ind: int, nextInd: int)
    requires nextInd != ind
    modifies sw
    ensures sw.written == old(sw.written) + BarTokens(w, ind, nextInd)
  {
    ghost var start := sw.written;
    if ind == 0 {
      OutEsc(sw, IntToString(1) + "G");
      OutText(sw, BegFilled);
      Pair(start, CursorTo(1), Text(BegFilled));
    }
    assert sw.written == start + BegTokens(ind);
    OutEsc(sw, IntToString(2 + ind) + "G");
    ghost var before := sw.written;
    var i := ind;
    while i < nextInd
      invariant ind <= i && (i <= nextInd || i == ind)
      invariant sw.written == before + Repeat(Text(Filler), i - ind)
    {
      OutText(sw, Filler);
      RepeatSnoc(Text(Filler), i - ind);
      Associative(before, Repeat(Text(Filler), i - ind), [Text(Filler)]);
      i := i + 1;
    }
    assert sw.written == before + FillTokens(ind, nextInd);
    ghost var filled := sw.written;
    if nextInd == w - 1 {
      OutText(sw, Filler);
      OutText(sw, FinFilled);
      Pair(filled, Text(Filler), Text(FinFilled));
    } else {
      OutText(sw, Head);
    }
    assert sw.written == filled + TailTokens(w, nextInd);
    Associative5(start, BegTokens(ind), [CursorTo(2 + ind)], FillTokens(ind, nextInd), TailTokens(w, nextInd));
  }

  /** What the bar segment prints from column `2 + ind` on. */
  function TailText(w: int, nextInd: int): string {
    if nextInd == w - 1 then Filler + FinFilled else Head
  }

  lemma RunCursorTo(s: Screen, col: nat)
    ensures Run(s, [CursorTo(col)]) == s.(col := col)
  {
    CursorToColumn(col);
    assert [CursorTo(col)][1..] == [];
  }

  lemma RunText(s: Screen, a: string)
    ensures Run(s, [Text(a)]) == Put(s, a)
  {
    assert [Text(a)][1..] == [];
  }

  lemma RunTail(s: Screen, w: int, nextInd: int)
    ensures Run(s, TailTokens(w, nextInd)) == Put(s, TailText(w, nextInd))
  {
    if nextInd == w - 1 {
      RunText(s, Filler);
      RunAppend(s, [Text(Filler)], [Text(FinFilled)]);
      assert [Text(Filler)] + [Text(FinFilled)] == TailTokens(w, nextInd);
      RunText(Put(s, Filler), FinFilled);
      PutAppend(s, Filler, FinFilled);
    } else {
      RunText(s, Head);
    }
  }

  /** The bar segment of a forward move, run on the terminal: the begin glyph
      (when leaving 0) and the columns from `2 + ind` on are printed. */
  lemma RunBarTokens(s: Screen, w: int, ind: int, nextInd: int)
    requires 0 <= ind < nextInd
    ensures Run(s, BarTokens(w, ind, nextInd)) ==
      Put((if ind == 0 then Put(s.(col := 1), BegFilled) else s).(col := 2 + ind),
          Repeat(Filler[0], nextInd - ind) + TailText(w, nextInd))
  {
    var beg, fill, tail := BegTokens(ind), FillTokens(ind, nextInd), TailTokens(w, nextInd);
    var s1 := if ind == 0 then Put(s.(col := 1), BegFilled) else s;
    assert Run(s, beg) == s1 by {
      if ind == 0 {
        RunAppend(s, [CursorTo(1)], [Text(BegFilled)]);
        assert [CursorTo(1)] + [Text(BegFilled)] == beg;
        RunCursorTo(s, 1);
        RunText(s.(col := 1), BegFilled);
      }
    }
    var s2 := s1.(col := 2 + ind);
    RunCursorTo(s1, 2 + ind);
    RunAppend(s, beg, [CursorTo(2 + ind)]);
    RunAppend(s2, fill, tail);
    RunRepeatedGlyph(s2, Filler, nextInd - ind);
    RunTail(Put(s2, Repeat(Filler[0], nextInd - ind)), w, nextInd);
    PutAppend(s2, Repeat(Filler[0], nextInd - ind), TailText(w, nextInd));
    Associative(beg + [CursorTo(2 + ind)], fill, tail);
    RunAppend(s, beg + [CursorTo(2 + ind)], fill + tail);
  }

  /** A forward move of the fill index redraws the bar segment: afterwards the
      line shows the new index, and nothing outside the begin glyph, the bar
      and the finish glyph has changed. */
  lemma BarStepShows(s: Screen, w: int, ind: int, pct: int, nextInd: int)
    requires w >= 2 && 0 <= ind < nextInd <= w - 1
    requires Shows(s, w, ind, pct)
    ensures Shows(Run(s, BarTokens(w, ind, nextInd)), w, nextInd, pct)
    ensures SameOutside(s, Run(s, BarTokens(w, ind, nextInd)), 1, w + 2)
  {
    RunBarTokens(s, w, ind, nextInd);
    var s1 := if ind == 0 then Put(s.(col := 1), BegFilled) else s;
    var s2 := s1.(col := 2 + ind);
    var text := Repeat(Filler[0], nextInd - ind) + TailText(w, nextInd);
    var r := Put(s2, text);
    PutCells(s.(col := 1), BegFilled);
    PutCells(s2, text);
    assert |text| == nextInd - ind + (if nextInd == w - 1 then 2 else 1);
    forall c | 1 <= c <= w + 7
      ensures c in r.cells && r.cells[c] == Cell(w, nextInd, pct, c)
    {
      if c == 1 {
        assert r.cells[c] == s1.cells[c];
      } else if c < 2 + ind {
        assert r.cells[c] == s.cells[c];
      } else if c < 2 + nextInd {
        assert r.cells[c] == text[c - 2 - ind] == Filler[0];
      } else if c == 2 + nextInd {
        assert r.cells[c] == text[nextInd - ind];
      } else if c == 3 + nextInd && nextInd == w - 1 {
        assert r.cells[c] == text[nextInd - ind + 1];
      } else {
        assert r.cells[c] == s.cells[c];
      }
    }
  }

  /** Only the three percentage columns depend on the percentage. */
  lemma CellPct(w: int, ind: int, pct: int, nextPct: int, c: int)
    requires w >= 0 && 0 <= pct <= 100 && 0 <= nextPct <= 100 && 1 <= c <= w + 7
    ensures w + 4 <= c <= w + 6 ==> Cell(w, ind, nextPct, c) == PctText(nextPct)[c - w - 4]
    ensures !(w + 4 <= c <= w + 6) ==> Cell(w, ind, nextPct, c) == Cell(w, ind, pct, c)
  {
  }

  /** A new percentage rewrites its three columns and nothing else. */
  lemma PctStepShows(s: Screen, w: int, ind: int, pct: int, nextPct: int)
    requires w >= 2 && 0 <= nextPct <= 100
    requires Shows(s, w, ind, pct)
    ensures Shows(Run(s, PctTokens(w, pct, nextPct)), w, ind, nextPct)
    ensures SameOutside(s, Run(s, PctTokens(w, pct, nextPct)), w + 4, w + 6)
  {
    if nextPct != pct {
      var s1 := s.(col := 4 + w);
      var text := PctText(nextPct);
      RunAppend(s, [CursorTo(4 + w)], [Text(text)]);
      assert [CursorTo(4 + w)] + [Text(text)] == PctTokens(w, pct, nextPct);
      RunCursorTo(s, 4 + w);
      RunText(s1, text);
      PutCells(s1, text);
      var r := Put(s1, text);
      forall c | 1 <= c <= w + 7
        ensures c in r.cells && r.cells[c] == Cell(w, ind, nextPct, c)
      {
        CellPct(w, ind, pct, nextPct, c);
        if w + 4 <= c <= w + 6 {
          assert r.cells[c] == text[c - w - 4];
        } else {
          assert r.cells[c] == s.cells[c];
        }
      }
    }
  }

  /** Every forward `MoveDelta` on a line showing (`ind`, `pct`) leaves it
      showing (`nextInd`, `nextPct`); the final '%' and everything right of
      it, the cursor visibility and the colour are untouched. */
  lemma MoveDeltaShows(s: Screen, w: int, ind: int, pct: int, nextInd: int, nextPct: int)
    requires w >= 2 && 0 <= ind <= nextInd <= w - 1 && 0 <= nextPct <= 100
    requires Shows(s, w, ind, pct)
    ensures Shows(Run(s, DeltaTokens(w, ind, pct, nextInd, nextPct)), w, nextInd, nextPct)
    ensures SameOutside(s, Run(s, DeltaTokens(w, ind, pct, nextInd, nextPct)), 1, w + 6)
  {
    if nextInd != ind || nextPct != pct {
      var bar := BarTokens(w, ind, nextInd);
      var s1 := Run(s, bar);
      if nextInd != ind {
        BarStepShows(s, w, ind, pct, nextInd);
      }
      PctStepShows(s1, w, nextInd, pct, nextPct);
      RunAppend(s, bar, PctTokens(w, pct, nextPct));
    }
  }

  /** The writes of `DrawComplete`: default colour and a new line, the
      verdict, default colour again, the exception's text on a line of its
      own when there is one, and the cursor shown again. */
  function CompleteTokens(success: bool, e: Option<string>): seq<Token> {
    [Esc("0m")] + [Text("\r\n")] + VerdictTokens(success) + [Esc("0m")] + ErrorTokens(e) + [Esc("?25h")]
  }

  /** "Over" in green or "Failed" in red. */
  function VerdictTokens(success: bool): seq<Token> {
    if success then [Esc("32m"), Text("Over")] else [Esc("31m"), Text("Failed")]
  }

  function ErrorTokens(e: Option<string>): seq<Token> {
    if e.Some? then [Text("\r\n"), Text(e.value)] else []
  }

  /** `DrawComplete`: the verdict line after the bar. */
  method DrawComplete(sw: Stream, success: bool, e: Option<string>)
    modifies sw
    ensures sw.written == old(sw.written) + CompleteTokens(success, e)
  {
    OutEsc(sw, "0m");
    OutText(sw, "\r\n");
    ghost var head := [Esc("0m")] + [Text("\r\n")];
    assert sw.written == old(sw.written) + head;
    ghost var mid := sw.written;
    if success {
      OutEsc(sw, "32m");
      OutText(sw, "Over");
      Pair(mid, Esc("32m"), Text("Over"));
    } else {
      OutEsc(sw, "31m");
      OutText(sw, "Failed");
      Pair(mid, Esc("31m"), Text("Failed"));
    }
    Associative(old(sw.written), head, VerdictTokens(success));
    head := head + VerdictTokens(success);
    OutEsc(sw, "0m");
    Associative(old(sw.written), head, [Esc("0m")]);
    head := head + [Esc("0m")];
    mid := sw.written;
    if e.Some? {
      OutText(sw, "\r\n");
      OutText(sw, e.value);
      Pair(mid, Text("\r\n"), Text(e.value));
    } else {
      assert mid + [] == mid;
    }
    Associative(old(sw.written), head, ErrorTokens(e));
    head := head + ErrorTokens(e);
    OutEsc(sw, "?25h");
    Associative(old(sw.written), head, [Esc("?25h")]);
  }

  /** The writes of `Recover`. */
  function RecoverTokens(): seq<Token> {
    [Esc("0m"), Esc("?25h")]
  }

  /** `Recover`: put the terminal back to the default colour and show the
      cursor (what the program does when interrupted). */
  method Recover(sw: Stream)
    modifies sw
    ensures sw.written == old(sw.written) + RecoverTokens()
  {
    OutEsc(sw, "0m");
    OutEsc(sw, "?25h");
  }

  lemma RunEsc(s: Screen, code: string)
    requires ColumnOf(code) == None
    ensures Run(s, [Esc(code)]) == Step(s, Esc(code))
  {
    assert [Esc(code)][1..] == [];
  }

  /** Whatever state the terminal was in, after `Recover` the cursor is
      visible and the colour is the default, and the line is unchanged. */
  lemma RecoverRestores(s: Screen)
    ensures Run(s, RecoverTokens()).cursorShown && Run(s, RecoverTokens()).sgr == "0"
    ensures Run(s, RecoverTokens()).cells == s.cells
  {
    assert ColumnOf("0m") == None && ColumnOf("?25h") == None;
    RunAppend(s, [Esc("0m")], [Esc("?25h")]);
    RunEsc(s, "0m");
    RunEsc(Step(s, Esc("0m")), "?25h");
    assert [Esc("0m")] + [Esc("?25h")] == RecoverTokens();
  }

  /** The verdict says "Over" exactly on success and "Failed" exactly on failure. */
  lemma VerdictSays(success: bool)
    ensures Text("Over") in VerdictTokens(success) <==> success
    ensures Text("Failed") in VerdictTokens(success) <==> !success
  {
  }

  /** After `DrawComplete` the cursor is visible and the colour is the
      default, whatever was drawn before and whatever the exception says. */
  lemma {:induction false} CompleteRestores(s: Screen, success: bool, e: Option<string>)
    ensures Run(s, CompleteTokens(success, e)).cursorShown
    ensures Run(s, CompleteTokens(success, e)).sgr == "0"
  {
    var ab := [Esc("0m")] + [Text("\r\n")] + VerdictTokens(success);
    var abc := ab + [Esc("0m")];
    var abcd := abc + ErrorTokens(e);
    assert ColumnOf("0m") == None && ColumnOf("?25h") == None;
    RunAppend(s, abcd, [Esc("?25h")]);
    RunEsc(Run(s, abcd), "?25h");
    RunAppend(s, abc, ErrorTokens(e));
    ErrorKeepsColour(Run(s, abc), e);
    RunAppend(s, ab, [Esc("0m")]);
    RunEsc(Run(s, ab), "0m");
  }

  /** Printing the exception's text leaves the colour alone. */
  lemma ErrorKeepsColour(s: Screen, e: Option<string>)
    ensures Run(s, ErrorTokens(e)).sgr == s.sgr
  {
    if e.Some? {
      RunAppend(s, [Text("\r\n")], [Text(e.value)]);
      assert [Text("\r\n")] + [Text(e.value)] == ErrorTokens(e);
      RunText(s, "\r\n");
      RunText(Put(s, "\r\n"), e.value);
      PutCells(s, "\r\n");
      PutCells(Put(s, "\r\n"), e.value);
    }
  }
}
