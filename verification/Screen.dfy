/** src/screen.c and the character output of src/printf.c: a window of 25 rows over an unbounded tape. */
module Screen {
  import opened Bits

  const ROWS: nat := 25
  const COLS: nat := 80
  const CELLS: nat := ROWS * COLS
  const BG_BLACK: nat := 0x0700
  const BACKSPACE: char := '\U{8}'

  /** `(unsigned short)(BG_BLACK | c)` for a signed char: the upper half of the byte range extends. */
  function CellOf(c: char): nat {
    if c as int % 256 < 128 then BG_BLACK + c as int % 256 else 0xFF00 + c as int % 256
  }

  // ---------------------------------------------------------------- the tape

  /** Everything ever written up to the cursor, and the number of rows that have left the screen. */
  datatype Tape = Tape(cells: seq<nat>, top: nat)

  predicate OnScreen(t: Tape) {
    t.top * COLS <= |t.cells| < t.top * COLS + CELLS
  }

  /** The cursor's position on the screen. */
  function Cursor(t: Tape): nat
    requires OnScreen(t)
  {
    |t.cells| - t.top * COLS
  }

  /** What the screen shows at position i: the tape from row `top` on, blank behind its end. */
  function Shown(t: Tape, i: nat): nat {
    if t.top * COLS + i < |t.cells| then t.cells[t.top * COLS + i] else BG_BLACK
  }

  function Blanks(n: nat): (s: seq<nat>)
    ensures |s| == n && forall i | 0 <= i < n :: s[i] == BG_BLACK
  {
    seq(n, _ => BG_BLACK)
  }

  /** One row leaves the screen when the cursor would be below the last one. */
  function Follow(cells: seq<nat>, top: nat): Tape {
    Tape(cells, if |cells| >= top * COLS + CELLS then top + 1 else top)
  }

  /** Printing one character; None for a backspace in the top left corner, where the source writes in
      front of the video memory. */
  function Type(t: Tape, c: char): (r: Option<Tape>)
    requires OnScreen(t)
    ensures r.Some? ==> OnScreen(r.value)
  {
    if c == '\n' then Some(Follow(t.cells + Blanks(COLS - |t.cells| % COLS), t.top))
    else if c == BACKSPACE then (if Cursor(t) == 0 then None else Some(Tape(t.cells[..|t.cells| - 1], t.top)))
    else Some(Follow(t.cells + [CellOf(c)], t.top))
  }

  function TypeAll(t: Tape, s: string): (r: Option<Tape>)
    requires OnScreen(t)
    ensures r.Some? ==> OnScreen(r.value)
    decreases |s|
  {
    if s == "" then Some(t)
    else
      var r := Type(t, s[0]);
      if r.None? then None else TypeAll(r.value, s[1..])
  }

  // ---------------------------------------------------------------- the screen

  class Console {
    const video: array<nat>
    var cursor: int

    constructor (video: array<nat>)
      requires video.Length == CELLS
      ensures this.video == video
    {
      this.video := video;
      cursor := 0;
    }

    /** The screen shows the tape. */
    ghost predicate Shows(t: Tape)
      reads this, video
    {
      && video.Length == CELLS && OnScreen(t) && cursor == Cursor(t)
      && forall i | 0 <= i < CELLS :: video[i] == Shown(t, i)
    }

    /** clear_screen */
    method ClearScreen()
      requires video.Length == CELLS
      modifies video
      ensures forall i | 0 <= i < CELLS :: video[i] == BG_BLACK
    {
      for i := 0 to CELLS
        invariant forall k | 0 <= k < i :: video[k] == BG_BLACK
      {
        video[i] := BG_BLACK;
      }
    }

    /** scroll_screen: copies forward in place, then blanks the rest. */
    method ScrollScreen(line: nat)
      requires video.Length == CELLS
      modifies video
      ensures line > ROWS - 1 ==> video[..] == old(video[..])
      ensures line <= ROWS - 1 ==> video[..] == old(video[..])[line * COLS..] + Blanks(line * COLS)
    {
      if line > ROWS - 1 {
        return;
      }
      var n := (ROWS - line) * COLS;
      var i := 0;
      while i < n
        invariant i <= n
        invariant forall k | 0 <= k < i :: video[k] == old(video[line * COLS + k])
        invariant forall k | i <= k < CELLS :: video[k] == old(video[k])
      {
        video[i] := video[line * COLS + i];
        i := i + 1;
      }
      while i < CELLS
        invariant n <= i <= CELLS
        invariant forall k | 0 <= k < n :: video[k] == old(video[line * COLS + k])
        invariant forall k | n <= k < i :: video[k] == BG_BLACK
      {
        video[i] := BG_BLACK;
        i := i + 1;
      }
    }

    /** set_cursor, without the CRT ports. */
    method SetCursor(offset: int)
      requires video.Length == CELLS
      modifies this, video
      ensures offset < CELLS ==> cursor == offset && video[..] == old(video[..])
      ensures offset >= CELLS ==> cursor == offset - COLS && video[..] == old(video[..])[COLS..] + Blanks(COLS)
    {
      cursor := offset;
      if cursor / COLS >= ROWS {
        ScrollScreen(1);
        cursor := cursor - COLS;
      }
    }

    /** The screen after moving on to a longer tape, cells already in place where they fit. */
    lemma ShownAfterFollow(t: Tape, cells: seq<nat>, i: nat)
      requires OnScreen(t) && |cells| == t.top * COLS + CELLS && i < CELLS
      ensures Shown(Follow(cells, t.top), i) == if i < CELLS - COLS then Shown(Tape(cells, t.top), COLS + i) else BG_BLACK
    {
    }

    /** caos_putchar */
    method PutChar(c: char, ghost t: Tape)
      requires Shows(t) && c != '\n' && c != BACKSPACE
      modifies this, video
      ensures Shows(Type(t, c).value)
    {
      video[cursor] := CellOf(c);
      ghost var cells := t.cells + [CellOf(c)];
      ghost var before := video[..];
      assert forall i | 0 <= i < CELLS :: before[i] == Shown(Tape(cells, t.top), i);
      cursor := cursor + 1;
      SetCursor(cursor);
      forall i: nat | i < CELLS
        ensures video[..][i] == Shown(Follow(cells, t.top), i)
      {
        if |cells| == t.top * COLS + CELLS {
          ShownAfterFollow(t, cells, i);
        }
      }
    }

    /** The line feed of caos_printf. */
    method NewLine(ghost t: Tape)
      requires Shows(t)
      modifies this, video
      ensures Shows(Type(t, '\n').value)
    {
      ghost var cells := t.cells + Blanks(COLS - |t.cells| % COLS);
      ghost var before := video[..];
      assert forall i | 0 <= i < CELLS :: before[i] == Shown(Tape(cells, t.top), i);
      RowArithmetic(t.top, cursor);
      SetCursor((cursor / COLS + 1) * COLS);
      forall i: nat | i < CELLS
        ensures video[..][i] == Shown(Follow(cells, t.top), i)
      {
        if |cells| == t.top * COLS + CELLS {
          ShownAfterFollow(t, cells, i);
        }
      }
    }

    static lemma RowArithmetic(top: nat, cursor: nat)
      ensures top * COLS + cursor + (COLS - (top * COLS + cursor) % COLS) == top * COLS + (cursor / COLS + 1) * COLS
    {
    }

    /** caos_delchar, one character; false at position 0, where the source leaves the video memory. */
    method DelChar(ghost t: Tape) returns (ok: bool)
      requires Shows(t)
      modifies this, video
      ensures ok <==> Type(t, BACKSPACE).Some?
      ensures ok ==> Shows(Type(t, BACKSPACE).value)
      ensures !ok ==> Shows(t)
    {
      if cursor == 0 {
        return false;
      }
      cursor := cursor - 1;
      SetCursor(cursor);
      video[cursor] := BG_BLACK;
      ok := true;
    }

    /** The output loop of caos_printf on a terminated string: the screen is again a window on the tape,
        typed on, and the result is the number of characters. It is None where a backspace would leave the
        screen. */
    method PutString(sz: array<char>, ghost len: nat, ghost t: Tape) returns (n: Option<nat>)
      requires Shows(t) && sz as object != video
      requires len < sz.Length && sz[len] == '\0' && forall k | 0 <= k < len :: sz[k] != '\0'
      modifies this, video
      ensures n == (if TypeAll(t, sz[..len]).Some? then Some(len) else None)
      ensures n.Some? ==> Shows(TypeAll(t, sz[..len]).value)
    {
      ghost var s := sz[..len];
      var i := 0;
      ghost var now := t;
      while sz[i] != '\0'
        invariant i <= len && Shows(now) && TypeAll(t, s) == TypeAll(now, s[i..])
        decreases len - i
      {
        assert s[i..][0] == sz[i] && s[i..][1..] == s[i + 1..];
        if sz[i] == '\n' {
          NewLine(now);
        } else if sz[i] == BACKSPACE {
          var done := DelChar(now);
          if !done {
            return None;
          }
        } else {
          PutChar(sz[i], now);
        }
        now := Type(now, sz[i]).value;
        i := i + 1;
      }
      n := Some(i);
    }

    /** init_screen */
    method InitScreen()
      requires video.Length == CELLS
      modifies this, video
      ensures Shows(Tape([], 0))
    {
      cursor := 0;
      SetCursor(0);
      ClearScreen();
    }
  }

  // ---------------------------------------------------------------- what the window shows

  /** One character on endless paper. */
  function OnPaper(cells: seq<nat>, c: char): seq<nat> {
    if c == '\n' then cells + Blanks(COLS - |cells| % COLS)
    else if c == BACKSPACE then (if cells == [] then cells else cells[..|cells| - 1])
    else cells + [CellOf(c)]
  }

  /** The tape as text alone, with no screen: what a printer with endless paper would keep. */
  function Paper(cells: seq<nat>, s: string): seq<nat>
    decreases |s|
  {
    if s == "" then cells else Paper(OnPaper(cells, s[0]), s[1..])
  }

  /** Whatever scrolls off, the tape is the endless paper. */
  lemma {:induction false} TapeIsPaper(t: Tape, s: string)
    requires OnScreen(t) && TypeAll(t, s).Some?
    ensures TypeAll(t, s).value.cells == Paper(t.cells, s)
    decreases |s|
  {
    if s != "" {
      TapeIsPaper(Type(t, s[0]).value, s[1..]);
    }
  }

  /** The window shows the last 25 rows: its last row is the cursor's, unless nothing has scrolled yet. */
  predicate AtEnd(t: Tape) {
    t.top == 0 || |t.cells| >= (t.top + ROWS - 1) * COLS
  }

  /** Without backspaces the window always shows the last 25 rows, and nothing faults. */
  lemma {:induction false} LastRowsShown(t: Tape, s: string)
    requires OnScreen(t) && AtEnd(t) && forall i | 0 <= i < |s| :: s[i] != BACKSPACE
    ensures TypeAll(t, s).Some? && AtEnd(TypeAll(t, s).value)
    decreases |s|
  {
    if s != "" {
      LastRowsShown(Type(t, s[0]).value, s[1..]);
    }
  }

  /** The row the cursor is in, on endless paper. */
  function RowOf(cells: seq<nat>): nat {
    |cells| / COLS
  }

  /** The highest row the cursor reaches while s is typed. */
  function HighestRow(cells: seq<nat>, s: string): nat
    decreases |s|
  {
    if s == "" then RowOf(cells)
    else
      var later := HighestRow(OnPaper(cells, s[0]), s[1..]);
      if RowOf(cells) > later then RowOf(cells) else later
  }

  /** It is the greatest row that the paper of any prefix ends in. */
  lemma {:induction false} HighestRowIs(cells: seq<nat>, s: string)
    ensures forall k | 0 <= k <= |s| :: RowOf(Paper(cells, s[..k])) <= HighestRow(cells, s)
    ensures exists k :: 0 <= k <= |s| && RowOf(Paper(cells, s[..k])) == HighestRow(cells, s)
    decreases |s|
  {
    assert Paper(cells, s[..0]) == cells;
    if s != "" {
      var next := OnPaper(cells, s[0]);
      HighestRowIs(next, s[1..]);
      forall k | 1 <= k <= |s|
        ensures Paper(cells, s[..k]) == Paper(next, s[1..][..k - 1])
      {
        assert s[..k][1..] == s[1..][..k - 1];
      }
      var j :| 0 <= j <= |s[1..]| && RowOf(Paper(next, s[1..][..j])) == HighestRow(next, s[1..]);
      assert RowOf(Paper(cells, s[..j + 1])) == HighestRow(next, s[1..]);
    }
  }

  lemma StepTop(t: Tape, c: char)
    requires OnScreen(t) && Type(t, c).Some?
    ensures var t' := Type(t, c).value;
            && t'.cells == OnPaper(t.cells, c)
            && RowOf(t'.cells) < t'.top + ROWS
            && t'.top == if RowOf(t'.cells) >= t.top + ROWS then RowOf(t'.cells) - (ROWS - 1) else t.top
  {
  }

  lemma {:induction false} TopFollowsRows(t: Tape, s: string)
    requires OnScreen(t) && TypeAll(t, s).Some?
    ensures TypeAll(t, s).value.top ==
            if HighestRow(t.cells, s) >= t.top + ROWS then HighestRow(t.cells, s) - (ROWS - 1) else t.top
    decreases |s|
  {
    if s != "" {
      StepTop(t, s[0]);
      TopFollowsRows(Type(t, s[0]).value, s[1..]);
    }
  }

  /** From the empty screen, whatever is typed, backspaces and all: the window's top row is 24 above the
      highest row that the cursor has reached so far, or the first row. */
  lemma TopIsHighestRow(s: string)
    requires TypeAll(Tape([], 0), s).Some?
    ensures var top := TypeAll(Tape([], 0), s).value.top;
            && (forall k | 0 <= k <= |s| :: RowOf(Paper([], s[..k])) <= top + (ROWS - 1))
            && (top > 0 ==> exists k :: 0 <= k <= |s| && RowOf(Paper([], s[..k])) == top + (ROWS - 1))
  {
    HighestRowIs([], s);
    TopFollowsRows(Tape([], 0), s);
  }

  /** A cell has the character in its low byte and, for ASCII, grey on black in the other. */
  lemma CellShows(c: char)
    ensures CellOf(c) % 256 == c as int % 256
    ensures c as int < 128 ==> CellOf(c) == 0x0700 + c as int
  {
  }

  predicate PlainText(s: string) {
    forall i | 0 <= i < |s| :: s[i] as int < 128 && s[i] != '\n' && s[i] as int != 8
  }

  lemma {:induction false} TypedCells(t: Tape, s: string)
    requires OnScreen(t) && t.top == 0 && PlainText(s) && |t.cells| + |s| < 2000
    ensures TypeAll(t, s).Some?
    ensures var t' := TypeAll(t, s).value;
            && t'.top == 0 && |t'.cells| == |t.cells| + |s|
            && (forall i | 0 <= i < |t.cells| :: t'.cells[i] == t.cells[i])
            && (forall i | 0 <= i < |s| :: t'.cells[|t.cells| + i] == 0x0700 + s[i] as int)
    decreases |s|
  {
    if s != "" {
      CellShows(s[0]);
      var t1 := Type(t, s[0]).value;
      assert t1.cells == t.cells + [0x0700 + s[0] as int] && t1.top == 0;
      TypedCells(t1, s[1..]);
      var t' := TypeAll(t, s).value;
      forall i | 0 <= i < |s|
        ensures t'.cells[|t.cells| + i] == 0x0700 + s[i] as int
      {
        if i > 0 {
          assert s[i] == s[1..][i - 1];
        } else {
          assert t'.cells[|t.cells|] == t1.cells[|t.cells|];
        }
      }
    }
  }

  /** Plain text on the empty screen stands there character for character, and the rest is blank. */
  lemma TypedIsShown(s: string, i: nat)
    requires PlainText(s) && |s| < 2000 && i < 2000
    ensures TypeAll(Tape([], 0), s).Some?
    ensures Shown(TypeAll(Tape([], 0), s).value, i) == if i < |s| then 0x0700 + s[i] as int else 0x0700
  {
    TypedCells(Tape([], 0), s);
  }

  /** A newline goes to the start of the next of the 80-column rows, over blanks. */
  lemma NewLineStartsRow(t: Tape)
    requires OnScreen(t)
    ensures var cells := Type(t, '\n').value.cells;
            && |cells| % 80 == 0 && |t.cells| < |cells| <= |t.cells| + 80
            && cells[..|t.cells|] == t.cells
            && forall i | |t.cells| <= i < |cells| :: cells[i] == 0x0700
  {
  }

  /** The window has 25 rows: the top row moves on by one exactly when the cursor would get into row 25. */
  lemma OneRowScrolls(t: Tape, c: char)
    requires OnScreen(t) && Type(t, c).Some?
    ensures var t' := Type(t, c).value;
            t'.top == if |t'.cells| >= 80 * (t.top + 25) then t.top + 1 else t.top
  {
  }

  /** A backspace right behind a printed character takes it back, wherever the window is, except that a
      scroll is not undone. */
  lemma BackspaceUndoes(t: Tape, c: char)
    requires OnScreen(t) && c != '\n' && c != BACKSPACE
    ensures var t1 := Type(t, c).value;
            && Type(t1, BACKSPACE).Some?
            && Type(t1, BACKSPACE).value.cells == t.cells
            && (Type(t1, BACKSPACE).value == t <==> Cursor(t) + 1 < CELLS)
  {
    assert (t.cells + [CellOf(c)])[..|t.cells|] == t.cells;
  }
}
