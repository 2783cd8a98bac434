/** The page a console would show on an unbounded sheet of rows, driven by the same characters. */
module ConsolePage {

  const COLUMNS: nat := 80
  const ROWS: nat := 25

  /** A character and its colour, as the 16 bits the display reads. */
  type Cell = x: int | 0 <= x < 0x1_0000

  /** C's char: signed. */
  type Char = x: int | -128 <= x < 128

  function Glyph(c: Char, attrib: nat): Cell
    requires 0 <= c
  {
    c + 256 * (attrib % 256)
  }

  function Blank(attrib: nat): Cell {
    0x20 + 256 * (attrib % 256)
  }

  type Row = r: seq<Cell> | |r| == COLUMNS ghost witness seq(COLUMNS, _ => 0)

  function BlankRow(attrib: nat): Row {
    seq(COLUMNS, _ => Blank(attrib))
  }

  /** All rows ever written, and the cursor. The sheet always has at least a screenful of rows. */
  datatype Page = Page(rows: seq<Row>, x: nat, y: nat) {
    ghost predicate Valid() {
      |rows| >= ROWS && x < COLUMNS && |rows| - ROWS <= y < |rows|
    }
  }

  function Cleared(attrib: nat): Page {
    Page(seq(ROWS, _ => BlankRow(attrib)), 0, 0)
  }

  /** The cursor's column and row after the character, before a full line wraps. */
  function Advance(x: nat, y: nat, c: Char): (nat, nat) {
    if c == 8 then (if x == 0 then 0 else x - 1, y)
    else if c == 9 then ((x + 8) / 8 * 8, y)
    else if c == 13 then (0, y)
    else if c == 10 then (0, y + 1)
    else if c >= 32 then (x + 1, y)
    else (x, y)
  }

  function Wrap(x: nat, y: nat): (nat, nat) {
    if x >= COLUMNS then (0, y + 1) else (x, y)
  }

  predicate Printable(c: Char) {
    c >= 32
  }

  /** One character: perhaps a glyph at the cursor, then the cursor moves; a row below the last is
      begun blank, in the colour of the moment. */
  function Put(p: Page, c: Char, attrib: nat): Page
    requires p.Valid()
  {
    var rows := if Printable(c) then p.rows[p.y := p.rows[p.y][p.x := Glyph(c, attrib)]] else p.rows;
    var (x1, y1) := Advance(p.x, p.y, c);
    var (x2, y2) := Wrap(x1, y1);
    Page(if y2 < |rows| then rows else rows + [BlankRow(attrib)], x2, y2)
  }

  function PutAll(p: Page, s: seq<Char>, attrib: nat): Page
    requires p.Valid()
    decreases |s|
  {
    if s == [] then p else PutKeepsValid(p, s[0], attrib); PutAll(Put(p, s[0], attrib), s[1..], attrib)
  }

  /** The cursor never leaves the last screenful of rows, nor the columns. */
  lemma PutKeepsValid(p: Page, c: Char, attrib: nat)
    requires p.Valid()
    ensures Put(p, c, attrib).Valid() && |p.rows| <= |Put(p, c, attrib).rows| <= |p.rows| + 1
  {
  }

  lemma {:induction false} PutAllKeepsValid(p: Page, s: seq<Char>, attrib: nat)
    requires p.Valid()
    ensures PutAll(p, s, attrib).Valid() && |p.rows| <= |PutAll(p, s, attrib).rows|
    decreases |s|
  {
    hide Put;
    if s != [] {
      PutKeepsValid(p, s[0], attrib);
      PutAllKeepsValid(Put(p, s[0], attrib), s[1..], attrib);
    }
  }

  lemma {:induction false} PutAllAppends(p: Page, s: seq<Char>, c: Char, attrib: nat)
    requires p.Valid()
    ensures PutAll(p, s, attrib).Valid()
    ensures PutAll(p, s + [c], attrib) == Put(PutAll(p, s, attrib), c, attrib)
    decreases |s|
  {
    hide Put;
    PutAllKeepsValid(p, s, attrib);
    if s == [] {
      PutKeepsValid(p, c, attrib);
      assert (s + [c])[1..] == [];
    } else {
      PutKeepsValid(p, s[0], attrib);
      assert (s + [c])[1..] == s[1..] + [c];
      PutAllAppends(Put(p, s[0], attrib), s[1..], c, attrib);
    }
  }

  /** A row above the last screenful is never written again. */
  lemma {:induction false} OldRowsStay(p: Page, s: seq<Char>, attrib: nat, i: nat)
    requires p.Valid() && i < |p.rows| - ROWS
    ensures PutAll(p, s, attrib).Valid() && i < |PutAll(p, s, attrib).rows|
    ensures PutAll(p, s, attrib).rows[i] == p.rows[i]
    decreases |s|
  {
    PutAllKeepsValid(p, s, attrib);
    if s != [] {
      PutKeepsValid(p, s[0], attrib);
      OldRowsStay(Put(p, s[0], attrib), s[1..], attrib, i);
    }
  }

  // ----- where characters land -----

  /** A character of at least 32 changes the cell at the cursor, any other none; a row begun is blank. */
  lemma PutCells(p: Page, c: Char, attrib: nat)
    requires p.Valid()
    ensures var q := Put(p, c, attrib);
      && (forall r: nat, k: nat | r < |p.rows| && k < 80 ::
            q.rows[r][k] == if c >= 32 && r == p.y && k == p.x then c + 256 * (attrib % 256) else p.rows[r][k])
      && forall r: nat, k: nat | |p.rows| <= r < |q.rows| && k < 80 :: q.rows[r][k] == 0x20 + 256 * (attrib % 256)
  {
  }

  /** The cell shows the character in that colour. */
  predicate ShownAt(p: Page, row: nat, column: nat, c: Char, attrib: nat) {
    row < |p.rows| && column < 80 && p.rows[row][column] == c + 256 * (attrib % 256)
  }

  /** The next column that is a multiple of 8. */
  ghost predicate NextStop(x: nat, column: nat) {
    x < column <= x + 8 && column % 8 == 0
  }

  /** Where the next glyph appears: after a newline at the start of the next row; after a carriage return
      at the start of this one; after a backspace one column back, but never before the first; after a tab
      at the next tab stop; after a glyph in the next column; after any other character where it would have
      appeared. A row is 80 columns, and what comes after it starts the next row. */
  lemma NextGlyph(p: Page, k: Char, c: Char, attrib: nat)
    requires p.Valid() && c >= 32
    ensures Put(p, k, attrib).Valid()
    ensures var q := Put(Put(p, k, attrib), c, attrib);
      && (k == 10 ==> ShownAt(q, p.y + 1, 0, c, attrib))
      && (k == 13 ==> ShownAt(q, p.y, 0, c, attrib))
      && (k == 8 ==> ShownAt(q, p.y, if p.x > 0 then p.x - 1 else 0, c, attrib))
      && (k == 9 ==> exists column: nat ::
            NextStop(p.x, column) && ShownAt(q, if column < 80 then p.y else p.y + 1, column % 80, c, attrib))
      && (k >= 32 ==> ShownAt(q, if p.x < 79 then p.y else p.y + 1, (p.x + 1) % 80, c, attrib))
      && (k < 32 && k !in {8, 9, 10, 13} ==> ShownAt(q, p.y, p.x, c, attrib))
  {
    var q1 := Put(p, k, attrib);
    PutKeepsValid(p, k, attrib);
    PutCells(q1, c, attrib);
    if k == 9 {
      var column := (p.x + 8) / 8 * 8;
      assert NextStop(p.x, column) && column <= 80;
      assert ShownAt(Put(q1, c, attrib), if column < 80 then p.y else p.y + 1, column % 80, c, attrib);
    }
  }

  /** Text flows: printable characters fill the cells from the cursor on in reading order, and leave what
      stood before the cursor. */
  lemma {:induction false} TextFlows(p: Page, s: seq<Char>, attrib: nat)
    requires p.Valid() && forall i | 0 <= i < |s| :: s[i] >= 32
    ensures var q := PutAll(p, s, attrib);
      && q.Valid() && |p.rows| <= |q.rows| && 80 * q.y + q.x == 80 * p.y + p.x + |s|
      && (forall i: nat {:trigger s[i]} | i < |s| ::
            && p.y + (p.x + i) / 80 < |q.rows|
            && q.rows[p.y + (p.x + i) / 80][(p.x + i) % 80] == s[i] + 256 * (attrib % 256))
      && (forall r: nat, k: nat | r < |p.rows| && k < 80 && 80 * r + k < 80 * p.y + p.x ::
            q.rows[r][k] == p.rows[r][k])
    decreases |s|
  {
    hide Put, PutAll;
    if s == [] {
      PutAllNone(p, attrib);
    } else {
      var n := |s| - 1;
      TextFlows(p, s[..n], attrib);
      var q' := PutAll(p, s[..n], attrib);
      assert s == s[..n] + [s[n]];
      PutAllAppends(p, s[..n], s[n], attrib);
      GlyphFlows(q', s[n], attrib);
      PutCells(q', s[n], attrib);
      var q := Put(q', s[n], attrib);
      Reading(p.x + n, p.y, q'.x, q'.y);
      forall i: nat {:trigger s[i]} | i < |s|
        ensures p.y + (p.x + i) / 80 < |q.rows|
        ensures q.rows[p.y + (p.x + i) / 80][(p.x + i) % 80] == s[i] + 256 * (attrib % 256)
      {
        if i < n {
          assert s[..n][i] == s[i];
          OtherCell(p.x + i, p.x + n);
        }
      }
    }
  }

  lemma PutAllNone(p: Page, attrib: nat)
    requires p.Valid()
    ensures PutAll(p, [], attrib) == p
  {
  }

  lemma GlyphFlows(p: Page, c: Char, attrib: nat)
    requires p.Valid() && c >= 32
    ensures var q := Put(p, c, attrib);
      q.Valid() && |p.rows| <= |q.rows| && 80 * q.y + q.x == 80 * p.y + p.x + 1
  {
  }

  lemma Reading(w: nat, y: nat, x': nat, y': nat)
    requires 80 * y' + x' == 80 * y + w && x' < 80
    ensures y' == y + w / 80 && x' == w % 80
  {
  }

  lemma OtherCell(v: nat, w: nat)
    requires v < w
    ensures v / 80 < w / 80 || v % 80 < w % 80
  {
  }

  /** Column `c` of screen row `r`. */
  function CellAt(cells: seq<Cell>, r: nat, c: nat): Cell
    requires |cells| == ROWS * COLUMNS && r < ROWS && c < COLUMNS
  {
    cells[80 * r + c]
  }

  /** What is on the screen: the last 25 rows, row by row. */
  ghost predicate Shows(cells: seq<Cell>, p: Page)
    requires p.Valid()
  {
    && |cells| == ROWS * COLUMNS
    && forall r: nat, c: nat | r < ROWS && c < COLUMNS ::
         CellAt(cells, r, c) == p.rows[|p.rows| - ROWS + r][c]
  }
}
