/** The terminal's cursor and its view of the text buffer: where typed characters and arrow keys
    leave them. What is drawn is not modelled. */
module Terminal {
  import opened Common

  const TERM_WIDTH: int := 80
  const TERM_HEIGHT: int := 24
  const FVB_PAGES: int := 10

  datatype Direction = Up | Down

  /** Cursor position on the screen and first buffer row the screen shows. */
  datatype Screen = Screen(x: int, y: int, onScreen: bool, row: int)

  // --------------------------------------------------------------- scrolling

  /** The next scroll up would pass the last page of the buffer. */
  predicate PageRolls(s: Screen, dir: Direction) {
    dir == Up && s.y > 0 && s.row + 1 + TERM_HEIGHT >= FVB_PAGES * TERM_HEIGHT
  }

  /** One iteration of `__view_shift`; the second result tells that it returns at once. */
  function ShiftOnce(s: Screen, dir: Direction): (Screen, bool) {
    if dir == Up then
      if s.y - 1 < 0 then (s.(y := 0, onScreen := true), true)
      else if PageRolls(s, dir) then (s.(y := s.y - 1, row := FVB_PAGES - 2 * TERM_HEIGHT + 1), false)
      else (s.(y := s.y - 1, row := s.row + 1), false)
    else
      if s.row - 1 < 0 then (s.(row := 0), false)
      else (s.(y := s.y + 1, row := s.row - 1), false)
  }

  /** `__view_shift` */
  function Shift(s: Screen, dir: Direction, amount: nat): Screen
    decreases amount
  {
    if amount == 0 then s.(onScreen := 0 < s.y < TERM_HEIGHT)
    else
      var (t, stop) := ShiftOnce(s, dir);
      if stop then t else Shift(t, dir, amount - 1)
  }

  /** Index of the cursor's cell in the text buffer. */
  function BufferIndex(s: Screen): int {
    (s.row + s.y) * TERM_WIDTH + s.x
  }

  /** A scroll step leaves the cursor on its cell of the buffer exactly when it does not roll a page. */
  lemma ShiftOnceKeepsCellExactly(s: Screen, dir: Direction)
    requires s.y >= 0 && s.row >= 0
    ensures BufferIndex(ShiftOnce(s, dir).0) == BufferIndex(s) <==> !PageRolls(s, dir)
  {
    var t := ShiftOnce(s, dir).0;
    assert BufferIndex(t) - BufferIndex(s) == (t.row + t.y - s.row - s.y) * TERM_WIDTH;
  }

  function Scroll(s: Screen, dirs: seq<Direction>): Screen
    decreases |dirs|
  {
    if dirs == [] then s else Scroll(Shift(s, dirs[0], 1), dirs[1..])
  }

  /** No scroll of the sequence rolls a page. */
  predicate NeverRolls(s: Screen, dirs: seq<Direction>)
    decreases |dirs|
  {
    dirs == [] || (!PageRolls(s, dirs[0]) && NeverRolls(Shift(s, dirs[0], 1), dirs[1..]))
  }

  /** Any sequence of arrow-key scrolls short of the last page leaves the cursor on its cell. */
  lemma {:induction false} ScrollKeepsCell(s: Screen, dirs: seq<Direction>)
    requires s.y >= 0 && s.row >= 0 && NeverRolls(s, dirs)
    ensures BufferIndex(Scroll(s, dirs)) == BufferIndex(s) && Scroll(s, dirs).x == s.x
    decreases |dirs|
  {
    if dirs != [] {
      ShiftOnceKeepsCellExactly(s, dirs[0]);
      var t := Shift(s, dirs[0], 1);
      assert t.x == s.x && t.row == ShiftOnce(s, dirs[0]).0.row && t.y == ShiftOnce(s, dirs[0]).0.y;
      ScrollKeepsCell(t, dirs[1..]);
    }
  }

  lemma {:induction false} ShiftKeepsColumn(s: Screen, dir: Direction, amount: nat)
    ensures Shift(s, dir, amount).x == s.x
    decreases amount
  {
    if amount > 0 { ShiftKeepsColumn(ShiftOnce(s, dir).0, dir, amount - 1); }
  }

  /** Scrolling down moves the view towards the first row of the buffer and stops there. */
  lemma {:induction false} ShiftDownExactly(s: Screen, amount: nat)
    requires s.row >= 0
    ensures var t, n := Shift(s, Down, amount), if amount < s.row then amount else s.row;
            t.y == s.y + n && t.row == s.row - n && t.x == s.x
    decreases amount
  {
    if amount > 0 { ShiftDownExactly(ShiftOnce(s, Down).0, amount - 1); }
  }

  /** Scrolling back up restores cursor and view, as long as the view does not stop at the first row
      and no page can roll. */
  lemma ScrollRoundTrip(s: Screen, amount: nat)
    requires s.y >= 0 && amount <= s.row && s.row + s.y + TERM_HEIGHT < FVB_PAGES * TERM_HEIGHT
    ensures var t := Shift(Shift(s, Down, amount), Up, amount);
            t.x == s.x && t.y == s.y && t.row == s.row
  {
    ShiftDownExactly(s, amount);
    ShiftUpKeepsCell(Shift(s, Down, amount), amount);
  }

  /** After a shift the cursor counts as on the screen exactly when it is below the first row and
      above the end of the screen, or when it was scrolled up against the first row. */
  lemma {:induction false} OnScreenExactly(s: Screen, dir: Direction, amount: nat)
    requires s.y >= 0
    ensures var t := Shift(s, dir, amount);
            t.y >= 0 && (t.onScreen <==> 0 < t.y < TERM_HEIGHT || (dir == Up && amount > s.y))
    ensures dir == Up ==> Shift(s, dir, amount).y == if amount < s.y then s.y - amount else 0
    decreases amount
  {
    if amount > 0 && (dir == Down || s.y > 0) { OnScreenExactly(ShiftOnce(s, dir).0, dir, amount - 1); }
  }

  // ------------------------------------------------------------------ cursor

  /** `__cursor_inc` */
  function CursorInc(s: Screen): Screen {
    var right := s.(x := s.x + 1);
    var wrapped := if right.x >= TERM_WIDTH then right.(x := 0, y := right.y + 1) else right;
    if wrapped.y >= TERM_HEIGHT - 1 then Shift(wrapped, Up, 1) else wrapped
  }

  /** `__cursor_dec` */
  function CursorDec(s: Screen): Screen {
    var left := s.(x := s.x - 1);
    var wrapped := if left.x < 0 then left.(x := TERM_WIDTH - 1, y := left.y - 1) else left;
    if wrapped.y < 0 then wrapped.(y := 0) else wrapped
  }

  /** `tio_write_char` */
  function WriteChar(s: Screen, c: char): Screen {
    if c == '\n' then
      var t := s.(x := 0, y := s.y + 1);
      if t.y >= TERM_HEIGHT - 1 then Shift(t, Up, 1) else t
    else if c == '\r' then s.(x := 0)
    else CursorInc(if s.onScreen then s else Shift(s, Up, (s.y - TERM_HEIGHT + 1) % U32))
  }

  predicate IsLineBreak(c: char) {
    c == '\n' || c == '\r'
  }

  lemma CursorColumns(s: Screen, c: char)
    ensures CursorInc(s).x == if s.x + 1 >= TERM_WIDTH then 0 else s.x + 1
    ensures WriteChar(s, c).x == if IsLineBreak(c) || s.x + 1 >= TERM_WIDTH then 0 else s.x + 1
    ensures CursorDec(s).x == if s.x - 1 < 0 then TERM_WIDTH - 1 else s.x - 1
  {
    forall t: Screen, dir: Direction, n: nat ensures Shift(t, dir, n).x == t.x { ShiftKeepsColumn(t, dir, n); }
  }

  /** Stepping right moves to the next cell of the text buffer, across the screen's edge and its
      last row, exactly when it does not roll a page; stepping left moves to the previous cell
      exactly when the cursor is not at the top left of the screen. */
  lemma CursorStepsExactly(s: Screen)
    requires 0 <= s.x < TERM_WIDTH && s.y >= 0 && s.row >= 0
    ensures var y := if s.x == TERM_WIDTH - 1 then s.y + 1 else s.y;
            BufferIndex(CursorInc(s)) == BufferIndex(s) + 1
            <==> !(y >= TERM_HEIGHT - 1 && s.row + 1 + TERM_HEIGHT >= FVB_PAGES * TERM_HEIGHT)
    ensures BufferIndex(CursorDec(s)) == BufferIndex(s) - 1 <==> s.x > 0 || s.y > 0
  {
    var right := s.(x := s.x + 1);
    var wrapped := if right.x >= TERM_WIDTH then right.(x := 0, y := right.y + 1) else right;
    assert BufferIndex(wrapped) == BufferIndex(s) + 1;
    if wrapped.y >= TERM_HEIGHT - 1 {
      ShiftOnceKeepsCellExactly(wrapped, Up);
      var t := ShiftOnce(wrapped, Up).0;
      assert BufferIndex(CursorInc(s)) == BufferIndex(t);
    }
  }

  /** One step right within the buffer: to the next column or the first of the next row, and when
      that is the last row of the screen or below, the view follows by one row. */
  lemma CursorIncExactly(s: Screen)
    requires 0 <= s.x < TERM_WIDTH && s.y >= 0
    ensures var x, y := if s.x == 79 then 0 else s.x + 1, if s.x == 79 then s.y + 1 else s.y;
            CursorInc(s)
            == if y < 23 then Screen(x, y, s.onScreen, s.row)
               else Screen(x, y - 1, 0 < y - 1 < 24, if s.row + 25 < 240 then s.row + 1 else -37)
  {
    var y := if s.x == 79 then s.y + 1 else s.y;
    if y >= 23 { assert Shift(s.(x := if s.x == 79 then 0 else s.x + 1, y := y), Up, 1).y == y - 1; }
  }

  /** One step left: to the previous column or the last of the previous row, never above the screen. */
  lemma CursorDecExactly(s: Screen)
    requires 0 <= s.x < TERM_WIDTH && s.y >= 0
    ensures CursorDec(s)
            == if s.x > 0 then s.(x := s.x - 1) else s.(x := 79, y := if s.y > 0 then s.y - 1 else 0)
  {
  }

  /** Scrolling up moves the view by as many rows as the cursor has above it, if it can. */
  lemma {:induction false} ShiftUpKeepsCell(s: Screen, amount: nat)
    requires s.y >= 0 && s.row >= 0 && s.row + s.y + TERM_HEIGHT < FVB_PAGES * TERM_HEIGHT
    ensures var t, n := Shift(s, Up, amount), if amount < s.y then amount else s.y;
            t.y == s.y - n && t.row == s.row + n && t.x == s.x
    decreases amount
  {
    if amount > 0 && s.y > 0 { ShiftUpKeepsCell(ShiftOnce(s, Up).0, amount - 1); }
  }

  lemma BroughtIntoView(s: Screen)
    requires s.y >= 0 && s.row >= 0 && s.row + s.y + TERM_HEIGHT < FVB_PAGES * TERM_HEIGHT
    ensures var t := Shift(s, Up, (s.y - TERM_HEIGHT + 1) % U32);
            && t.y == (if s.y >= 23 then 23 else 0) && t.row + t.y == s.row + s.y && t.x == s.x
            && s.row <= t.row && t.onScreen
  {
    var amount := (s.y - TERM_HEIGHT + 1) % U32;
    assert if s.y >= TERM_HEIGHT - 1 then amount == s.y - TERM_HEIGHT + 1 else amount > s.y;
    ShiftUpKeepsCell(s, amount);
    OnScreenExactly(s, Up, amount);
  }

  /** A character written while the cursor does not count as on the screen: the view first follows so
      that the cursor's row is the last one, or the first if it was above that. */
  lemma OffScreenWriteExactly(s: Screen, c: char)
    requires 0 <= s.x < TERM_WIDTH && s.y >= 0 && s.row >= 0 && !s.onScreen
    requires s.row + s.y + 1 + TERM_HEIGHT < FVB_PAGES * TERM_HEIGHT && !IsLineBreak(c)
    ensures var x, down := if s.x == 79 then 0 else s.x + 1, if s.x == 79 then 1 else 0;
            WriteChar(s, c)
            == if s.y >= 23 then Screen(x, 22 + down, true, s.row + s.y - 22) else Screen(x, down, true, s.row + s.y)
  {
    BroughtIntoView(s);
    CursorIncExactly(Shift(s, Up, (s.y - TERM_HEIGHT + 1) % U32));
  }

  /** A line feed goes to the first column of the next row, and when that is the last row of the
      screen or below, the view follows by one row. */
  lemma LineFeedExactly(s: Screen)
    requires s.y >= 0
    ensures WriteChar(s, '\n')
            == if s.y + 1 < 23 then Screen(0, s.y + 1, s.onScreen, s.row)
               else Screen(0, s.y, 0 < s.y < 24, if s.row + 25 < 240 then s.row + 1 else -37)
  {
    if s.y + 1 >= 23 { assert Shift(s.(x := 0, y := s.y + 1), Up, 1).y == s.y; }
  }

  /** Unless it is a line break, a character is written to the cursor's cell, wherever the view was,
      and the cursor then stands on the next cell and on the screen, as long as no page can roll. */
  lemma WriteSteps(s: Screen, c: char)
    requires 0 <= s.x < TERM_WIDTH && s.y >= 0 && s.row >= 0 && (s.onScreen ==> s.y < TERM_HEIGHT)
    requires s.row + s.y + 1 + TERM_HEIGHT < FVB_PAGES * TERM_HEIGHT && !IsLineBreak(c)
    ensures var t := WriteChar(s, c);
            BufferIndex(t) == BufferIndex(s) + 1 && 0 <= t.x < TERM_WIDTH && 0 <= t.y < TERM_HEIGHT
  {
    BroughtIntoView(s);
    var shown := if s.onScreen then s else Shift(s, Up, (s.y - TERM_HEIGHT + 1) % U32);
    StepStaysOnScreen(shown);
  }

  /** A line feed moves to the first cell of the next buffer row exactly when it does not roll a
      page, and a carriage return to the first cell of its own row. */
  lemma LineBreaksExactly(s: Screen)
    requires s.y >= 0 && s.row >= 0
    ensures BufferIndex(WriteChar(s, '\n')) == (s.row + s.y + 1) * TERM_WIDTH
            <==> !(s.y + 1 >= TERM_HEIGHT - 1 && s.row + 1 + TERM_HEIGHT >= FVB_PAGES * TERM_HEIGHT)
    ensures BufferIndex(WriteChar(s, '\r')) == (s.row + s.y) * TERM_WIDTH
  {
    var t := s.(x := 0, y := s.y + 1);
    if t.y >= TERM_HEIGHT - 1 {
      ShiftOnceKeepsCellExactly(t, Up);
      assert BufferIndex(WriteChar(s, '\n')) == BufferIndex(ShiftOnce(t, Up).0);
    }
  }

  lemma StepStaysOnScreen(s: Screen)
    requires 0 <= s.x < TERM_WIDTH && 0 <= s.y < TERM_HEIGHT && s.row >= 0
    requires s.row + s.y + 1 + TERM_HEIGHT < FVB_PAGES * TERM_HEIGHT
    ensures var t := CursorInc(s);
            BufferIndex(t) == BufferIndex(s) + 1 && 0 <= t.x < TERM_WIDTH && 0 <= t.y < TERM_HEIGHT
  {
    CursorStepsExactly(s);
    CursorColumns(s, ' ');
  }

  /** The cursor is in a column of the screen, and what counts as on the screen is. */
  predicate InBounds(s: Screen) {
    0 <= s.x < TERM_WIDTH && s.y >= 0 && (s.onScreen ==> s.y < TERM_HEIGHT)
  }

  /** No operation breaks that, whatever the view and whether or not a page rolls. */
  lemma StaysInBounds(s: Screen, dir: Direction, amount: nat, c: char)
    requires InBounds(s)
    ensures InBounds(Shift(s, dir, amount)) && InBounds(CursorInc(s)) && InBounds(CursorDec(s)) && InBounds(WriteChar(s, c))
  {
    ShiftInBounds(s, dir, amount);
    IncInBounds(s);
    if c == '\n' {
      ShiftInBounds(s.(x := 0, y := s.y + 1, onScreen := false), Up, 1);
      ShiftIgnoresFlag(s.(x := 0, y := s.y + 1), Up, 1);
    } else if c != '\r' {
      var n := (s.y - TERM_HEIGHT + 1) % U32;
      ShiftInBounds(s, Up, n);
      IncInBounds(if s.onScreen then s else Shift(s, Up, n));
    }
  }

  lemma ShiftInBounds(s: Screen, dir: Direction, amount: nat)
    requires InBounds(s)
    ensures InBounds(Shift(s, dir, amount))
  {
    ShiftKeepsColumn(s, dir, amount);
    OnScreenExactly(s, dir, amount);
  }

  lemma {:induction false} ShiftIgnoresFlag(s: Screen, dir: Direction, amount: nat)
    ensures Shift(s, dir, amount) == Shift(s.(onScreen := false), dir, amount)
    decreases amount
  {
    if amount > 0 {
      ShiftIgnoresFlag(ShiftOnce(s, dir).0, dir, amount - 1);
      ShiftIgnoresFlag(ShiftOnce(s.(onScreen := false), dir).0, dir, amount - 1);
    }
  }

  lemma IncInBounds(s: Screen)
    requires InBounds(s)
    ensures InBounds(CursorInc(s))
  {
    var right := s.(x := s.x + 1);
    var wrapped := if right.x >= TERM_WIDTH then right.(x := 0, y := right.y + 1) else right;
    ShiftInBounds(wrapped.(onScreen := false), Up, 1);
    ShiftIgnoresFlag(wrapped, Up, 1);
  }

  class Tio {
    var x: int
    var y: int
    var onScreen: bool
    var row: int

    ghost function View(): Screen
      reads this
    {
      Screen(x, y, onScreen, row)
    }

    /** `tio_init` */
    constructor ()
      ensures View() == Screen(0, 0, true, 0)
    {
      x, y, onScreen, row := 0, 0, true, 0;
    }

    /** `__view_shift` */
    method ViewShift(dir: Direction, amount: nat)
      modifies this
      ensures View() == Shift(old(View()), dir, amount)
    {
      var i := 0;
      while i < amount
        invariant i <= amount
        invariant Shift(View(), dir, amount - i) == Shift(old(View()), dir, amount)
      {
        if dir == Up {
          y := y - 1;
          if y < 0 {
            y := 0;
            onScreen := true;
            return;
          }
          row := row + 1;
          var rows := FVB_PAGES * TERM_HEIGHT;
          if row + TERM_HEIGHT >= rows {
            row := FVB_PAGES - 2 * TERM_HEIGHT + 1;
          }
        } else {
          row := row - 1;
          if row < 0 { row := 0; } else { y := y + 1; }
        }
        i := i + 1;
      }
      onScreen := 0 < y < TERM_HEIGHT;
    }

    /** `__cursor_inc` */
    method Inc()
      modifies this
      ensures View() == CursorInc(old(View()))
    {
      x := x + 1;
      if x >= TERM_WIDTH {
        y := y + 1;
        x := 0;
      }
      if y >= TERM_HEIGHT - 1 { ViewShift(Up, 1); }
    }

    /** `__cursor_dec` */
    method Dec()
      modifies this
      ensures View() == CursorDec(old(View()))
    {
      x := x - 1;
      if x < 0 {
        y := y - 1;
        x := TERM_WIDTH - 1;
      }
      if y < 0 { y := 0; }
    }

    /** `tio_try_cursor_inc` */
    method TryInc(charsTyped: int, padding: int) returns (moved: bool)
      modifies this
      ensures moved <==> old(x) < padding + charsTyped - 1
      ensures View() == if moved then CursorInc(old(View())) else old(View())
    {
      if x < padding + charsTyped - 1 {
        Inc();
        return true;
      }
      return false;
    }

    /** `tio_try_cursor_dec` */
    method TryDec(padding: int) returns (moved: bool)
      modifies this
      ensures moved <==> old(x) > padding
      ensures View() == if moved then CursorDec(old(View())) else old(View())
    {
      if x <= padding { return false; }
      Dec();
      return true;
    }

    /** `tio_write_char_color` */
    method Write(c: char)
      modifies this
      ensures View() == WriteChar(old(View()), c)
    {
      if c == '\n' {
        y := y + 1;
        x := 0;
        if y >= TERM_HEIGHT - 1 { ViewShift(Up, 1); }
        return;
      } else if c == '\r' {
        x := 0;
        return;
      }
      if !onScreen { ViewShift(Up, (y - TERM_HEIGHT + 1) % U32); }
      Inc();
    }
  }
}
