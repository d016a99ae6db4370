/** The on-screen text rendering of a density grid: one glyph per cell, one line per row. */
module AsciiArt {
  import opened Types
  import opened Constants

  /** `table[Math.min(d, table.length - 1)]`: densities past the end of the table take its last entry. */
  function GlyphIn(table: seq<string>, d: int): (c: string)
    requires |table| > 0 && d >= 0
    ensures d < |table| ==> c == table[d]
    ensures d >= |table| - 1 ==> c == table[|table| - 1]
  {
    table[Min(d, |table| - 1)]
  }

  /** The glyph the screen shows for density `d`. */
  function Glyph(d: int): string
    requires d >= 0
  {
    GlyphIn(CharMap, d)
  }

  /** Density 0 and only density 0 is shown as the blank; every density at or above MaxDensity is
      shown as the darkest glyph. */
  lemma GlyphBlankIffZero(d: int)
    requires d >= 0
    ensures Glyph(d) == " " <==> d == 0
    ensures d >= MaxDensity ==> Glyph(d) == CharMap[MaxDensity]
  {
    CharMapGlyphsAreSingle();
  }

  predicate NonNegative(g: Grid)
  {
    forall y, x :: 0 <= y < |g| && 0 <= x < |g[y]| ==> g[y][x] >= 0
  }

  predicate NoNewlines(table: seq<string>)
  {
    forall i :: 0 <= i < |table| ==> '\n' !in table[i]
  }

  predicate SingleChars(table: seq<string>)
  {
    forall i :: 0 <= i < |table| ==> |table[i]| == 1
  }

  /** `row.map(glyph).join('')`. */
  function RowText(table: seq<string>, row: seq<int>): string
    requires |table| > 0
    requires forall i :: 0 <= i < |row| ==> row[i] >= 0
  {
    if |row| == 0 then "" else GlyphIn(table, row[0]) + RowText(table, row[1..])
  }

  /** The text of every row, in order: one line per grid row, which holds no line break when no
      glyph does, and is as wide as its row when every glyph is one character. */
  function Rows(table: seq<string>, g: Grid): (lines: seq<string>)
    requires |table| > 0 && NonNegative(g)
    ensures |lines| == |g|
    ensures forall i :: 0 <= i < |g| ==> lines[i] == RowText(table, g[i])
    ensures NoNewlines(table) ==> forall i :: 0 <= i < |g| ==> '\n' !in lines[i]
    ensures SingleChars(table) ==> forall i :: 0 <= i < |g| ==> |lines[i]| == |g[i]|
  {
    assert NoNewlines(table) ==> forall i :: 0 <= i < |g| ==> '\n' !in RowText(table, g[i]) by {
      if NoNewlines(table) {
        forall i | 0 <= i < |g| ensures '\n' !in RowText(table, g[i]) {
          RowTextHasNoNewline(table, g[i]);
        }
      }
    }
    assert SingleChars(table) ==> forall i :: 0 <= i < |g| ==> |RowText(table, g[i])| == |g[i]| by {
      if SingleChars(table) {
        forall i | 0 <= i < |g| ensures |RowText(table, g[i])| == |g[i]| {
          RowTextWidth(table, g[i]);
        }
      }
    }
    seq(|g|, (i: int) requires 0 <= i < |g| => RowText(table, g[i]))
  }

  /** `lines.join('\n')`. */
  function JoinLines(lines: seq<string>): string
  {
    if |lines| == 0 then ""
    else if |lines| == 1 then lines[0]
    else lines[0] + "\n" + JoinLines(lines[1..])
  }

  /** The rendered text with a given glyph table. */
  function RenderWith(table: seq<string>, g: Grid): string
    requires |table| > 0 && NonNegative(g)
  {
    JoinLines(Rows(table, g))
  }

  /** The text the art element displays for grid `g`. */
  function Render(g: Grid): string
    requires NonNegative(g)
  {
    RenderWith(CharMap, g)
  }

  /** `s.split('\n')`: the pieces between line breaks. */
  function Split(s: string): (parts: seq<string>)
    ensures |parts| >= 1
  {
    if |s| == 0 then [""]
    else
      var rest := Split(s[1..]);
      if s[0] == '\n' then [""] + rest else [[s[0]] + rest[0]] + rest[1..]
  }

  lemma {:induction false} SplitSingle(a: string)
    requires '\n' !in a
    ensures Split(a) == [a]
  {
    if |a| > 0 {
      assert '\n' !in a[1..];
      SplitSingle(a[1..]);
      assert [a[0]] + a[1..] == a;
    }
  }

  lemma {:induction false} SplitAfterLine(a: string, b: string)
    requires '\n' !in a
    ensures Split(a + "\n" + b) == [a] + Split(b)
  {
    if |a| == 0 {
      assert a + "\n" + b == "\n" + b;
      assert ("\n" + b)[1..] == b;
    } else {
      var s := a + "\n" + b;
      assert s[0] == a[0];
      assert s[1..] == a[1..] + "\n" + b;
      assert '\n' !in a[1..];
      SplitAfterLine(a[1..], b);
      assert [a[0]] + a[1..] == a;
    }
  }

  /** Splitting the joined lines at line breaks gives the lines back, provided none holds a break. */
  lemma {:induction false} SplitJoinLines(lines: seq<string>)
    requires |lines| >= 1
    requires forall i :: 0 <= i < |lines| ==> '\n' !in lines[i]
    ensures Split(JoinLines(lines)) == lines
  {
    if |lines| == 1 {
      SplitSingle(lines[0]);
    } else {
      SplitJoinLines(lines[1..]);
      SplitAfterLine(lines[0], JoinLines(lines[1..]));
    }
  }

  lemma {:induction false} RowTextHasNoNewline(table: seq<string>, row: seq<int>)
    requires |table| > 0 && NoNewlines(table)
    requires forall i :: 0 <= i < |row| ==> row[i] >= 0
    ensures '\n' !in RowText(table, row)
  {
    if |row| > 0 {
      RowTextHasNoNewline(table, row[1..]);
    }
  }

  /** When every glyph is one character, a row's text has one character per cell, and character x
      is the glyph of cell x. */
  lemma {:induction false} RowTextWidth(table: seq<string>, row: seq<int>)
    requires |table| > 0 && SingleChars(table)
    requires forall i :: 0 <= i < |row| ==> row[i] >= 0
    ensures |RowText(table, row)| == |row|
    ensures forall x :: 0 <= x < |row| ==> RowText(table, row)[x] == GlyphIn(table, row[x])[0]
  {
    if |row| > 0 {
      RowTextWidth(table, row[1..]);
    }
  }

  /** The rendered text has exactly one line per grid row, separated by single line breaks with
      none trailing: splitting it at '\n' yields the rows' texts in order. */
  lemma RenderLines(table: seq<string>, g: Grid)
    requires |table| > 0 && NoNewlines(table) && NonNegative(g)
    requires |g| >= 1
    ensures Split(RenderWith(table, g)) == Rows(table, g)
  {
    SplitJoinLines(Rows(table, g));
  }

  /** With the corrected table, a grid of the editor's shape renders as GridHeight lines of
      GridWidth characters each. */
  lemma RenderIsGridShaped(g: Grid)
    requires Shaped(g) && NonNegative(g)
    ensures |Split(Render(g))| == GridHeight
    ensures forall i :: 0 <= i < GridHeight ==> |Split(Render(g))[i]| == GridWidth
  {
    CharMapGlyphsAreSingle();
    RenderLines(CharMap, g);
  }

  /** With the table as written, one cell at full density already makes its row three characters
      wide, so a rendered line is wider than its row whenever it holds such a cell. */
  lemma AsWrittenRowTooWide()
    ensures |RowText(CharMapAsWritten, [MaxDensity])| == 3
    ensures |RowText(CharMap, [MaxDensity])| == 1
  {
    assert RowText(CharMapAsWritten, [MaxDensity]) == CharMapAsWritten[10] + RowText(CharMapAsWritten, []);
    assert RowText(CharMap, [MaxDensity]) == CharMap[10] + RowText(CharMap, []);
  }
}
