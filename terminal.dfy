/**
 * The VGA text console behind `put`: an 80 x 25 grid of (character,
 * attribute) byte pairs and the cursor globals `xpos`/`ypos`. Line feed and
 * carriage return only move the cursor; any other character is written at
 * the cursor in white on black, after moving to the next row when the
 * current one is full and scrolling the screen up when the cursor is below
 * the last row.
 */
module Terminal {
  import opened Words
  import StdLib

  const Rows: nat := 25
  const Cols: nat := 80
  const RowBytes: nat := Cols * 2
  const ScreenBytes: nat := Rows * RowBytes
  /** WHITE_ON_BLACK. */
  const Attribute: char := 7 as char

  /** The byte offset of the character cell at (row, col). */
  function Offset(row: nat, col: nat): nat
  {
    (row * Cols + col) * 2
  }

  /** A blank cell pair of the row a scroll uncovers. */
  function Blank(k: int): char
  {
    if k % 2 == 0 then ' ' else Attribute
  }

  /** The screen scrolled up by one row, the uncovered last row blank. */
  function Scrolled(cells: string): (r: string)
    requires |cells| == ScreenBytes
    ensures |r| == ScreenBytes
  {
    cells[RowBytes..] + seq(RowBytes, k => Blank(k))
  }

  lemma ScrolledAt(cells: string)
    requires |cells| == ScreenBytes
    ensures forall k :: 0 <= k < ScreenBytes - RowBytes ==> Scrolled(cells)[k] == cells[k + RowBytes]
    ensures forall k :: ScreenBytes - RowBytes <= k < ScreenBytes ==> Scrolled(cells)[k] == Blank(k)
  {
  }

  /** The screen scrolled up by n rows. */
  function ScrolledBy(cells: string, n: nat): (r: string)
    requires |cells| == ScreenBytes
    ensures |r| == ScreenBytes
  {
    if n == 0 then cells else Scrolled(ScrolledBy(cells, n - 1))
  }

  /**
   * Scrolling by n rows keeps the content: what was on row i + n is now on
   * row i, and the last n rows are blank.
   */
  lemma {:induction false} ScrolledByShifts(cells: string, n: nat)
    requires |cells| == ScreenBytes && n <= Rows
    ensures forall k :: 0 <= k < ScreenBytes - n * RowBytes ==> ScrolledBy(cells, n)[k] == cells[k + n * RowBytes]
    ensures forall k :: ScreenBytes - n * RowBytes <= k < ScreenBytes ==> ScrolledBy(cells, n)[k] == Blank(k)
  {
    if n > 0 {
      ScrolledByShifts(cells, n - 1);
      var prev, r := ScrolledBy(cells, n - 1), ScrolledBy(cells, n);
      assert r == Scrolled(prev);
      ScrolledAt(prev);
      forall k | 0 <= k < ScreenBytes - n * RowBytes
        ensures r[k] == cells[k + n * RowBytes]
      {
        assert r[k] == prev[k + RowBytes];
      }
      forall k | ScreenBytes - n * RowBytes <= k < ScreenBytes
        ensures r[k] == Blank(k)
      {
        if k < ScreenBytes - RowBytes {
          assert r[k] == prev[k + RowBytes] == Blank(k + RowBytes);
        }
      }
    }
  }

  /** The console: the cursor and the screen cells. */
  datatype Display = Display(xpos: nat, ypos: nat, cells: string)

  predicate Sound(d: Display)
  {
    |d.cells| == ScreenBytes && d.xpos <= Cols
  }

  /** The cell put writes next, after moving past a full row: (column, row). */
  function NextCell(d: Display): (nat, nat)
  {
    if d.xpos > Cols - 1 then (0, d.ypos + 1) else (d.xpos, d.ypos)
  }

  /** The rows the screen has to scroll for the cursor row y to be on it. */
  function Overflow(y: nat): (n: nat)
    ensures y - n < Rows
    ensures y < Rows ==> n == 0
  {
    if y > Rows - 1 then y - (Rows - 1) else 0
  }

  /** The console after put(c), scrolling as often as the cursor row needs. */
  function AfterPut(d: Display, c: char): (r: Display)
    requires Sound(d)
    ensures Sound(r)
  {
    if c == '\n' then Display(0, d.ypos + 1, d.cells)
    else if c == '\r' then Display(0, d.ypos, d.cells)
    else
      var (x, y) := NextCell(d);
      var n := Overflow(y);
      var at := Offset(y - n, x);
      assert at + 1 < ScreenBytes;
      Display(x + 1, y - n, ScrolledBy(d.cells, n)[at := c][at + 1 := Attribute])
  }

  /**
   * Line feed and carriage return send the cursor to column 0, line feed one
   * row down, and leave the screen as it was. Any other character lands, in
   * white on black, on the screen at the cell the cursor is on after moving
   * past a full row and scrolling, the cursor moves one column right of it,
   * and every other cell holds what the scroll left there.
   */
  lemma AfterPutMeans(d: Display, c: char)
    requires Sound(d)
    ensures var r := AfterPut(d, c);
      (c == '\n' ==> r == Display(0, d.ypos + 1, d.cells))
      && (c == '\r' ==> r == Display(0, d.ypos, d.cells))
      && (c != '\n' && c != '\r' ==>
        var (x, y) := NextCell(d);
        r.ypos < Rows && r.ypos == y - Overflow(y) && r.xpos == x + 1
        && Offset(r.ypos, x) + 1 < ScreenBytes
        && r.cells[Offset(r.ypos, x)] == c && r.cells[Offset(r.ypos, x) + 1] == Attribute
        && forall k :: 0 <= k < ScreenBytes && k != Offset(r.ypos, x) && k != Offset(r.ypos, x) + 1 ==>
             r.cells[k] == ScrolledBy(d.cells, Overflow(y))[k])
  {
  }

  /** The console after putting each character of s in turn. */
  function AfterPuts(d: Display, s: string): (r: Display)
    requires Sound(d)
    ensures Sound(r)
    decreases |s|
  {
    if s == [] then d else AfterPut(AfterPuts(d, s[..|s| - 1]), s[|s| - 1])
  }

  lemma {:induction false} AfterPutsConcat(d: Display, s: string, t: string)
    requires Sound(d)
    ensures AfterPuts(d, s + t) == AfterPuts(AfterPuts(d, s), t)
    decreases |t|
  {
    if t == [] {
      assert s + t == s;
    } else {
      assert (s + t)[..|s + t| - 1] == s + t[..|t| - 1];
      AfterPutsConcat(d, s, t[..|t| - 1]);
    }
  }

  /** The cursor alone, as put as written moves it. */
  datatype Cursor = Cursor(xpos: nat, ypos: nat)

  /**
   * put as written: the cursor it leaves and the byte offset it writes the
   * character at. It scrolls at most once, so a cursor two or more rows
   * below the screen stays below it, and the write lands past the screen.
   */
  function PutAsWritten(cur: Cursor, c: char): (r: (Cursor, Option<nat>))
    ensures c == '\n' ==> r == (Cursor(0, cur.ypos + 1), None)
    ensures c == '\r' ==> r == (Cursor(0, cur.ypos), None)
    ensures c != '\n' && c != '\r' ==>
      var (x, y) := NextCell(Display(cur.xpos, cur.ypos, []));
      r.0 == Cursor(x + 1, if y > Rows - 1 then y - 1 else y)
      && r.1 == Some(Offset(r.0.ypos, x))
  {
    if c == '\n' then (Cursor(0, cur.ypos + 1), None)
    else if c == '\r' then (Cursor(0, cur.ypos), None)
    else
      var (x, y) := if cur.xpos > Cols - 1 then (0, cur.ypos + 1) else (cur.xpos, cur.ypos);
      var row := if y > Rows - 1 then y - 1 else y;
      (Cursor(x + 1, row), Some(Offset(row, x)))
  }

  /** The offsets written while putting s as written, and the final cursor. */
  function PutsAsWritten(cur: Cursor, s: string): (Cursor, seq<nat>)
    decreases |s|
  {
    if s == [] then (cur, [])
    else
      var (next, w) := PutAsWritten(cur, s[0]);
      var (last, ws) := PutsAsWritten(next, s[1..]);
      (last, (if w.Some? then [w.value] else []) + ws)
  }

  /**
   * Two line feeds on the last row and a character: put as written writes
   * the character at byte 4000, just past the 4000-byte screen.
   */
  lemma TwoLineFeedsWriteOffScreen()
    ensures PutsAsWritten(Cursor(0, Rows - 1), "\n\na").1 == [ScreenBytes]
  {
    assert "\n\na"[0] == '\n' && "\n\na"[1..] == "\na";
    assert "\na"[0] == '\n' && "\na"[1..] == "a";
    assert "a"[0] == 'a' && "a"[1..] == "";
  }

  /**
   * Where one scroll is enough — the row put moves to is at most one below
   * the screen — put as written moves the cursor and writes exactly as the
   * scrolling loop does.
   */
  lemma AsWrittenAgrees(d: Display, c: char)
    requires Sound(d) && c != '\n' && c != '\r' && NextCell(d).1 <= Rows
    ensures var (cur, w) := PutAsWritten(Cursor(d.xpos, d.ypos), c); var r := AfterPut(d, c);
      cur == Cursor(r.xpos, r.ypos) && w == Some(Offset(r.ypos, r.xpos - 1))
  {
    assert NextCell(Display(d.xpos, d.ypos, [])) == NextCell(d);
  }

  /** The console of kernel/kernel.c: `xpos`, `ypos` and the `vidptr` buffer. */
  class Console {
    var xpos: nat
    var ypos: nat
    var vid: array<char>

    ghost predicate Valid()
      reads this
    {
      vid.Length == ScreenBytes && xpos <= Cols
    }

    ghost function State(): (d: Display)
      reads this, vid
      requires Valid()
      ensures Sound(d)
    {
      Display(xpos, ypos, vid[..])
    }

    /** The globals at boot, with the screen cleared to zero bytes by kmain. */
    constructor ()
      ensures Valid() && fresh(vid)
      ensures State() == Display(0, 0, seq(ScreenBytes, _ => 0 as char))
    {
      xpos, ypos := 0, 0;
      vid := new char[ScreenBytes](_ => 0 as char);
    }

    /**
     * put(c), scrolling until the cursor row is on the screen so that the
     * write always lands on it.
     */
    method Put(c: char)
      requires Valid()
      modifies this, vid
      ensures Valid() && vid == old(vid)
      ensures State() == AfterPut(old(State()), c)
    {
      if c == '\n' {
        ypos := ypos + 1;
      }
      if c == '\n' || c == '\r' {
        xpos := 0;
        return;
      }
      if xpos > Cols - 1 {
        ypos := ypos + 1;
        xpos := 0;
      }
      ghost var d := old(State());
      ghost var n := Overflow(ypos);
      assert (xpos, ypos) == NextCell(d);
      ScrollIntoView();
      ghost var t := vid[..];
      var i := Offset(ypos, xpos);
      vid[i] := c;
      vid[i + 1] := Attribute;
      assert vid[..] == t[i := c][i + 1 := Attribute];
      xpos := xpos + 1;
      assert State() == Display(xpos, ypos, ScrolledBy(d.cells, n)[i := c][i + 1 := Attribute]);
    }

    /** The scroll loop of put: scrolls until the cursor row is on the screen. */
    method ScrollIntoView()
      requires Valid()
      modifies this, vid
      ensures Valid() && vid == old(vid) && xpos == old(xpos)
      ensures ypos == old(ypos) - Overflow(old(ypos))
      ensures vid[..] == ScrolledBy(old(vid[..]), Overflow(old(ypos)))
    {
      ghost var y, s := ypos, vid[..];
      while ypos > Rows - 1
        invariant Valid() && vid == old(vid) && xpos == old(xpos)
        invariant ypos <= y && (ypos == y || Rows - 1 <= ypos)
        invariant vid[..] == ScrolledBy(s, y - ypos)
        decreases ypos
      {
        Scroll();
        ypos := ypos - 1;
      }
    }

    /**
     * The scroll step of put: rows 1 .. 24 are copied one row up with the
     * ascending byte copy, then the last row is filled with blanks.
     */
    method Scroll()
      requires Valid()
      modifies vid
      ensures vid[..] == Scrolled(old(vid[..]))
    {
      ghost var m := vid[..];
      StdLib.Copy(vid, 0, RowBytes, ScreenBytes - RowBytes);
      StdLib.CopiedFaithful(m, 0, RowBytes, ScreenBytes - RowBytes);
      ClearLastRow();
      ScrolledAt(m);
      assert vid[..] == Scrolled(m);
    }

    /** The fill loop of the scroll: blanks over the last row, nothing else touched. */
    method ClearLastRow()
      requires Valid()
      modifies vid
      ensures forall k :: 0 <= k < ScreenBytes - RowBytes ==> vid[k] == old(vid[k])
      ensures forall k :: ScreenBytes - RowBytes <= k < ScreenBytes ==> vid[k] == Blank(k)
    {
      var j := ScreenBytes - RowBytes;
      while j < ScreenBytes
        invariant ScreenBytes - RowBytes <= j <= ScreenBytes && j % 2 == 0
        invariant forall k :: 0 <= k < ScreenBytes - RowBytes ==> vid[k] == old(vid[k])
        invariant forall k :: ScreenBytes - RowBytes <= k < j ==> vid[k] == Blank(k)
      {
        vid[j] := ' ';
        vid[j + 1] := Attribute;
        j := j + 2;
      }
    }
  }
}
