/** The console: a 25x80 text buffer in display memory, scrolled in place. */
module Console {
  import opened Bits
  import opened MemoryCopy
  import opened ConsolePage

  type Byte = x: int | 0 <= x < 256

  const BYTES: nat := 4000

  /** The buffer as the display reads it: 16-bit cells, low byte first. */
  ghost function Cells(b: seq<Byte>): (cells: seq<Cell>)
    requires |b| == BYTES
    ensures |cells| == ROWS * COLUMNS
  {
    seq(2000, k requires 0 <= k < 2000 => (b[2 * k] as int) + 256 * (b[2 * k + 1] as int))
  }

  // ----- what the edits of the buffer show -----

  /** The screen row of the cursor. */
  function ScreenRow(p: Page): nat
    requires p.Valid()
  {
    p.y + ROWS - |p.rows|
  }

  lemma ShowsGlyph(cells: seq<Cell>, p: Page, g: Cell)
    requires p.Valid() && Shows(cells, p)
    ensures Shows(cells[80 * ScreenRow(p) + p.x := g], p.(rows := p.rows[p.y := p.rows[p.y][p.x := g]]))
  {
    var cells', q := cells[80 * ScreenRow(p) + p.x := g], p.(rows := p.rows[p.y := p.rows[p.y][p.x := g]]);
    forall r: nat, c: nat | r < ROWS && c < COLUMNS
      ensures CellAt(cells', r, c) == q.rows[|q.rows| - ROWS + r][c]
    {
      assert CellAt(cells, r, c) == p.rows[|p.rows| - ROWS + r][c];
      OneCell(r, c, ScreenRow(p), p.x);
    }
  }

  lemma OneCell(r: nat, c: nat, r': nat, c': nat)
    requires c < 80 && c' < 80
    ensures 80 * r + c == 80 * r' + c' <==> r == r' && c == c'
  {
  }

  /** Every row moved up by one, and a blank row below. */
  function ScrolledUp(cells: seq<Cell>, attrib: nat): seq<Cell>
    requires |cells| == ROWS * COLUMNS
  {
    cells[80..] + BlankRow(attrib)
  }

  lemma ShowsScrolled(cells: seq<Cell>, p: Page, q: Page, attrib: nat)
    requires p.Valid() && q.Valid() && Shows(cells, p) && q.rows == p.rows + [BlankRow(attrib)]
    ensures Shows(ScrolledUp(cells, attrib), q)
  {
    forall r: nat, c: nat | r < ROWS && c < COLUMNS
      ensures CellAt(ScrolledUp(cells, attrib), r, c) == q.rows[|q.rows| - ROWS + r][c]
    {
      if r < 24 { assert CellAt(ScrolledUp(cells, attrib), r, c) == CellAt(cells, r + 1, c); }
    }
  }

  lemma ShowsSameRows(cells: seq<Cell>, p: Page, q: Page)
    requires p.Valid() && q.Valid() && Shows(cells, p) && q.rows == p.rows
    ensures Shows(cells, q)
  {
  }

  /** The character's effect on the page, in the order the console works: glyph, cursor, scroll. */
  lemma PutShows(cells: seq<Cell>, p: Page, c: Char, attrib: nat)
    requires p.Valid() && |cells| == ROWS * COLUMNS && Shows(cells, p)
    ensures var q := Put(p, c, attrib);
      var written := if Printable(c) then cells[80 * ScreenRow(p) + p.x := Glyph(c, attrib)] else cells;
      && q.Valid() && |written| == ROWS * COLUMNS
      && Shows(if |q.rows| > |p.rows| then ScrolledUp(written, attrib) else written, q)
  {
    hide Shows, Glyph, ScrolledUp;
    PutKeepsValid(p, c, attrib);
    var q := Put(p, c, attrib);
    var written := if Printable(c) then cells[80 * ScreenRow(p) + p.x := Glyph(c, attrib)] else cells;
    var p1 := if Printable(c) then p.(rows := p.rows[p.y := p.rows[p.y][p.x := Glyph(c, attrib)]]) else p;
    if Printable(c) { ShowsGlyph(cells, p, Glyph(c, attrib)); }
    assert Shows(written, p1);
    if |q.rows| > |p.rows| {
      ShowsScrolled(written, p1, q, attrib);
    } else {
      ShowsSameRows(written, p1, q);
    }
  }

  // ----- bytes and cells -----

  lemma CellStored(b: seq<Byte>, k: nat, lo: Byte, hi: Byte)
    requires |b| == BYTES && k < 2000
    ensures Cells(b[2 * k := lo][2 * k + 1 := hi]) == Cells(b)[k := (lo as int) + 256 * (hi as int)]
  {
  }

  /** Moving all but the first row of bytes up by a row moves the cells. */
  lemma CellsMovedUp(b: seq<Byte>, k: nat)
    requires |b| == BYTES && k < 1920
    ensures Cells(Moved(b, 0, 160, 3840))[k] == Cells(b)[k + 80]
  {
    assert Moved(b, 0, 160, 3840)[2 * k] == b[2 * (k + 80)];
    assert Moved(b, 0, 160, 3840)[2 * k + 1] == b[2 * (k + 80) + 1];
  }

  /** What a 16-bit store keeps of a value. */
  function Low16(value: nat): Cell {
    value % 256 + 256 * (value / 256 % 256)
  }

  lemma ValueBytes(c: nat, attrib: nat)
    requires c < 256
    ensures Low16(BitOr(256 * attrib, c)) == c + 256 * (attrib % 256)
  {
    hide BitOr;
    assert Pow2(8) == 256 by { assert Pow2(4) == 16; }
    ModOfProduct(attrib, 256);
    OrAligned(256 * attrib, c, 8);
    UniqueRemainder(256 * attrib + c, 256, attrib, c);
  }

  lemma {:induction false} AndNotZero(x: nat)
    ensures BitAndNot(x, 0) == x
  {
    if x > 0 { AndNotZero(x / 2); }
  }

  /** `(x + 8) & ~(8 - 1)` is the next multiple of 8. */
  lemma TabStop(x: nat)
    ensures BitAndNot(x, 7) == x / 8 * 8
  {
    hide BitAndNot;
    AndNotHalves(x, 7);
    AndNotHalves(x / 2, 3);
    AndNotHalves(x / 2 / 2, 1);
    AndNotZero(x / 2 / 2 / 2);
  }

  class Display {
    const text: array<Byte>
    var attrib: nat
    var x: nat
    var y: nat
    ghost var page: Page

    ghost predicate Shaped()
      reads this
    {
      text.Length == BYTES
    }

    /** The buffer is the last 25 rows of the page, and the cursor is in bounds. */
    ghost predicate Valid()
      reads this, text
    {
      && Shaped() && page.Valid() && x == page.x && y == ScreenRow(page)
      && Shows(Cells(text[..]), page)
    }

    constructor (text: array<Byte>, fore: Byte, back: Byte)
      requires text.Length == BYTES
      modifies text
      ensures Valid() && this.text == text && page == Cleared(attrib) && x == 0 && y == 0
      ensures attrib == 16 * back + fore % 16
    {
      this.text := text;
      attrib, x, y := 0, 0, 0;
      page := Cleared(0);
      new;
      SetTextColor(fore, back);
      Cls();
    }

    method SetTextColor(fore: Byte, back: Byte)
      modifies this`attrib
      ensures attrib == 16 * back + fore % 16
    {
      assert Pow2(4) == 16;
      AndMask(fore, 4);
      OrAligned(16 * back, fore % 16, 4) by { ModOfProduct(back, 16); }
      attrib := BitOr(back * 16, BitAnd(fore, 15));
    }

    /** A 16-bit store of cell `k`. */
    method StoreCell(k: nat, value: nat)
      requires Shaped() && k < 2000
      modifies text
      ensures Cells(text[..]) == Cells(old(text[..]))[k := Low16(value)]
    {
      CellStored(text[..], k, value % 256, value / 256 % 256);
      text[2 * k] := value % 256;
      text[2 * k + 1] := value / 256 % 256;
    }

    /** memsetw: `count` cells from `k` on. */
    method Memsetw(k: nat, value: nat, count: nat)
      requires Shaped() && k + count <= 2000
      modifies text
      ensures forall j | 0 <= j < 2000 ::
        Cells(text[..])[j] == if k <= j < k + count then Low16(value) else Cells(old(text[..]))[j]
    {
      hide Cells;
      var i := 0;
      while i < count
        invariant i <= count
        invariant forall j | 0 <= j < 2000 ::
          Cells(text[..])[j] == if k <= j < k + i then Low16(value) else Cells(old(text[..]))[j]
      {
        StoreCell(k + i, value);
        i := i + 1;
      }
    }

    /** Clears the screen: a fresh page. */
    method Cls()
      requires Shaped()
      modifies this`x, this`y, this`page, text
      ensures Valid() && page == Cleared(attrib) && x == 0 && y == 0
    {
      hide Cells;
      var blank := BitOr(256 * attrib, 0x20);
      ValueBytes(0x20, attrib);
      var i := 0;
      while i < 25
        invariant i <= 25
        invariant forall j | 0 <= j < 80 * i :: Cells(text[..])[j] == Blank(attrib)
      {
        Memsetw(i * 80, blank, 80);
        i := i + 1;
      }
      x, y := 0, 0;
      page := Cleared(attrib);
    }

    /** Moves everything up when the cursor is below the last row. */
    method Scroll()
      requires Shaped() && y <= 25
      modifies this`y, text
      ensures y == if old(y) == 25 then 24 else old(y)
      ensures Cells(text[..]) == if old(y) == 25 then ScrolledUp(Cells(old(text[..])), attrib) else Cells(old(text[..]))
    {
      hide Cells, ForwardCopy, Moved;
      var blank := BitOr(256 * attrib, 0x20);
      ValueBytes(0x20, attrib);
      if y >= 25 {
        var temp := y - 25 + 1;
        CopyDownMoves(text[..], 0, 160, 3840);
        Memcpy(text, 0, temp * 160, (25 - temp) * 160);
        forall k: nat | k < 1920
          ensures Cells(text[..])[k] == Cells(old(text[..]))[k + 80]
        {
          CellsMovedUp(old(text[..]), k);
        }
        Memsetw((25 - temp) * 80, blank, 80);
        y := 24;
        assert Cells(text[..]) == ScrolledUp(Cells(old(text[..])), attrib);
      }
    }

    method Putch(c: Char)
      requires Valid()
      modifies this`x, this`y, this`page, text
      ensures Valid() && page == Put(old(page), c, attrib)
    {
      hide Cells, Shows, ScrolledUp, Glyph, Advance, Wrap;
      PutShows(Cells(text[..]), page, c, attrib);
      PutKeepsValid(page, c, attrib);
      CursorParts(page, c, attrib);
      WriteGlyph(c);
      MoveCursor(c);
      Scroll();
      page := Put(page, c, attrib);
    }

    /** A printable character goes into the cell at the cursor. */
    method WriteGlyph(c: Char)
      requires Shaped() && x < 80 && y < 25
      modifies text
      ensures Cells(text[..]) ==
        if Printable(c) then Cells(old(text[..]))[80 * y + x := Glyph(c, attrib)] else Cells(old(text[..]))
    {
      hide Cells;
      if c >= 32 {
        ValueBytes(c, attrib);
        StoreCell(y * 80 + x, BitOr(256 * attrib, c));
      }
    }

    /** Where the character leaves the cursor, a full line wrapped. */
    method MoveCursor(c: Char)
      modifies this`x, this`y
      ensures (x, y) == Wrap(Advance(old(x), old(y), c).0, Advance(old(x), old(y), c).1)
    {
      if c == 8 {
        if x != 0 { x := x - 1; }
      } else if c == 9 {
        TabStop(x + 8);
        x := BitAndNot(x + 8, 7);
      } else if c == 13 {
        x := 0;
      } else if c == 10 {
        x := 0;
        y := y + 1;
      } else if c >= 32 {
        x := x + 1;
      }
      if x >= 80 {
        x := 0;
        y := y + 1;
      }
    }

    /** strlen: the characters before the terminating zero. */
    method Strlen(s: seq<Char>) returns (n: nat)
      requires 0 in s
      ensures n < |s| && s[n] == 0 && 0 !in s[..n]
    {
      n := 0;
      while s[n] != 0
        invariant n < |s| && 0 !in s[..n]
        decreases |s| - n
      {
        n := n + 1;
        assert 0 in s[n..];
      }
    }

    /** Displays a zero-terminated string. */
    method Puts(s: seq<Char>, ghost n: nat)
      requires Valid() && n < |s| && s[n] == 0 && 0 !in s[..n]
      modifies this`x, this`y, this`page, text
      ensures Valid() && page == PutAll(old(page), s[..n], attrib)
    {
      hide Put, PutAll;
      var i := 0;
      assert s[..0] == [];
      PutAllNone(page, attrib);
      var length := Strlen(s);
      assert length == n;
      while i < length
        invariant i <= n && length == n && Valid()
        invariant page == PutAll(old(page), s[..i], attrib)
      {
        PutAllAppends(old(page), s[..i], s[i], attrib);
        assert s[..i + 1] == s[..i] + [s[i]];
        Putch(s[i]);
        i := i + 1;
        length := Strlen(s);
      }
    }
  }

  /** The cursor on the screen moves as the cursor on the page does; the page grows exactly when the
      screen's cursor falls off the last row. */
  lemma CursorParts(p: Page, c: Char, attrib: nat)
    requires p.Valid()
    ensures var q := Put(p, c, attrib); var (x1, y1) := Advance(p.x, ScreenRow(p), c); var (x2, y2) := Wrap(x1, y1);
      && q.Valid() && q.x == x2 && y2 <= 25
      && (|q.rows| > |p.rows| <==> y2 == 25) && ScreenRow(q) == if y2 == 25 then 24 else y2
  {
  }
}
