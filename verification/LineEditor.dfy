/** The line editor `kbGetLine`: an in-place character buffer that must always agree with an
    abstract line of text and a cursor in it, and with the cursor on the terminal. */
module LineEditor {
  import opened KeyDecoder
  import opened Terminal

  /** Columns the shell's prompt takes. */
  const PROMPT: int := 2

  // ---------------------------------------------------------- abstract editor

  datatype Line = Line(text: string, cursor: nat)

  const EMPTY_LINE: Line := Line("", 0)

  function Insert(l: Line, c: char): Line
    requires l.cursor <= |l.text|
  {
    Line(l.text[..l.cursor] + [c] + l.text[l.cursor..], l.cursor + 1)
  }

  function DeleteBefore(l: Line): Line
    requires 0 < l.cursor <= |l.text|
  {
    Line(l.text[..l.cursor - 1] + l.text[l.cursor..], l.cursor - 1)
  }

  /** Deleting takes back an insertion. */
  lemma InsertThenDelete(l: Line, c: char)
    requires l.cursor <= |l.text|
    ensures DeleteBefore(Insert(l, c)) == l
  {
    var t := Insert(l, c).text;
    assert t[..l.cursor] == l.text[..l.cursor] && t[l.cursor + 1..] == l.text[l.cursor..];
    assert l.text == l.text[..l.cursor] + l.text[l.cursor..];
  }

  /** The key can be looked up in the character tables. */
  predicate InTables(key: MappedKey) {
    key.printable ==> key.scancode < TABLE_SIZE
  }

  function KeyChar(key: MappedKey): char
    requires key.printable && InTables(key)
  {
    if key.capitalized then Uppercase(key.scancode) else Lowercase(key.scancode)
  }

  predicate IsPress(key: MappedKey, code: nat) {
    key.down && !key.printable && key.mappedCode == code
  }

  /** What a key does to the line, given whether the terminal let the cursor move. */
  function Edit(l: Line, key: MappedKey, moved: bool): (l': Line)
    requires l.cursor <= |l.text| && InTables(key)
    ensures l'.cursor <= |l'.text| <= |l.text| + 1
  {
    if key.down && key.printable then Insert(l, KeyChar(key))
    else if IsPress(key, KEY_ARROW_LEFT) then
      l.(cursor := if moved && l.cursor > 0 then l.cursor - 1 else l.cursor)
    else if IsPress(key, KEY_ARROW_RIGHT) then
      l.(cursor := if moved && l.cursor < |l.text| then l.cursor + 1 else l.cursor)
    else if IsPress(key, KEY_BACKSPACE) && l.cursor > 0 then DeleteBefore(l)
    else l
  }

  /** What a key does to the screen. */
  function Echo(s: Screen, l: Line, key: MappedKey): Screen
    requires InTables(key)
  {
    if key.down && key.printable then WriteChar(s, KeyChar(key))
    else if IsPress(key, KEY_ARROW_LEFT) then (if s.x > PROMPT then CursorDec(s) else s)
    else if IsPress(key, KEY_ARROW_RIGHT) then (if s.x < PROMPT + |l.text| then CursorInc(s) else s)
    else if IsPress(key, KEY_ARROW_UP) then Shift(s, Down, 1)
    else if IsPress(key, KEY_ARROW_DOWN) then Shift(s, Up, 1)
    else if IsPress(key, KEY_BACKSPACE) && l.cursor > 0 then CursorDec(s)
    else s
  }

  /** The terminal's answer to an arrow key. */
  predicate Moved(s: Screen, l: Line, key: MappedKey) {
    (IsPress(key, KEY_ARROW_LEFT) && s.x > PROMPT) || (IsPress(key, KEY_ARROW_RIGHT) && s.x < PROMPT + |l.text|)
  }

  /** Which keys do what: the E0 scancodes 0x4b, 0x4d, 0x48 and 0x50 are the arrows left, right, up
      and down, and scancode 0x0e is backspace. No other event is taken for one of them. */
  lemma EditingKeysExactly(keys: seq<bool>, ev: KeyEvent)
    requires |keys| == KEY_CODES && InTable(ev)
    ensures IsPress(KeyOf(keys, ev), KEY_ARROW_LEFT) <==> ev == KeyEvent(0x4b, true, true)
    ensures IsPress(KeyOf(keys, ev), KEY_ARROW_RIGHT) <==> ev == KeyEvent(0x4d, true, true)
    ensures IsPress(KeyOf(keys, ev), KEY_ARROW_UP) <==> ev == KeyEvent(0x48, true, true)
    ensures IsPress(KeyOf(keys, ev), KEY_ARROW_DOWN) <==> ev == KeyEvent(0x50, true, true)
    ensures IsPress(KeyOf(keys, ev), KEY_BACKSPACE) <==> ev == KeyEvent(0x0e, true, false)
  {
    if !ev.e0 {
      NormalKeys(ev.code);
    }
  }

  lemma NormalKeys(code: nat)
    requires code < TABLE_SIZE
    ensures Mapped(code) != KEY_ARROW_LEFT && Mapped(code) != KEY_ARROW_RIGHT && Mapped(code) != KEY_ARROW_DOWN
    ensures Mapped(code) == KEY_ARROW_UP ==> Lowercase(code) != '?'
    ensures Mapped(code) == KEY_BACKSPACE && Lowercase(code) == '?' <==> code == 0x0e
  {
  }

  /** What each event does to the line, given whether the terminal let the cursor move. A printable
      key types the character the tables give for it, the upper one if it is capitalized. */
  lemma EditExactly(keys: seq<bool>, ev: KeyEvent, l: Line, moved: bool)
    requires |keys| == KEY_CODES && InTable(ev) && l.cursor <= |l.text|
    ensures var key, c, n := KeyOf(keys, ev), l.cursor, |l.text|;
            Edit(l, key, moved)
            == if ev.pressed && !ev.e0 && Lowercase(ev.code) != '?' then
                 var ch := if key.capitalized then Uppercase(ev.code) else Lowercase(ev.code);
                 Line(l.text[..c] + [ch] + l.text[c..], c + 1)
               else if ev == KeyEvent(0x4b, true, true) && moved && c > 0 then Line(l.text, c - 1)
               else if ev == KeyEvent(0x4d, true, true) && moved && c < n then Line(l.text, c + 1)
               else if ev == KeyEvent(0x0e, true, false) && c > 0 then Line(l.text[..c - 1] + l.text[c..], c - 1)
               else l
  {
    EditingKeysExactly(keys, ev);
  }

  /** Arrow up shows one row more above, if there is one, and arrow down one more below, if the
      cursor can stay on the screen; the cursor keeps its place in the buffer. */
  lemma ArrowsScrollExactly(keys: seq<bool>, ev: KeyEvent, s: Screen, l: Line)
    requires |keys| == KEY_CODES && InTable(ev) && s.y >= 0 && s.row >= 0 && !PageRolls(s, Up)
    ensures var t := Echo(s, l, KeyOf(keys, ev));
            && (ev == KeyEvent(0x48, true, true) ==>
                  t.x == s.x && t.row + t.y == s.row + s.y && t.row == if s.row > 0 then s.row - 1 else 0)
            && (ev == KeyEvent(0x50, true, true) ==>
                  t.x == s.x && t.row + t.y == s.row + s.y && t.row == if s.y > 0 then s.row + 1 else s.row)
  {
    EditingKeysExactly(keys, ev);
    ShiftDownExactly(s, 1);
  }

  // ------------------------------------------------------------ in the buffer

  /** The buffer holds the line and a NUL, and the two locals describe it. */
  ghost predicate Holds(buffer: seq<char>, index: int, size: int, l: Line) {
    && index == l.cursor <= |l.text| && size == |l.text| + 1 <= |buffer|
    && buffer[..|l.text|] == l.text && buffer[|l.text|] == '\0'
  }

  /** Shift the tail one place right and put `c` at `index`. */
  method InsertChar(buffer: array<char>, index: int, size: int, c: char, ghost l: Line)
    requires Holds(buffer[..], index, size, l) && size < buffer.Length
    modifies buffer
    ensures Holds(buffer[..], index + 1, size + 1, Insert(l, c))
  {
    ghost var was := buffer[..];
    if index != size - 1 {
      var i := size;
      while i > index
        invariant index <= i <= size
        invariant forall j | 0 <= j <= i && j < size :: buffer[j] == was[j]
        invariant forall j | i < j <= size :: buffer[j] == was[j - 1]
      {
        buffer[i] := buffer[i - 1];
        i := i - 1;
      }
    }
    buffer[index] := c;
    buffer[size] := '\0';
    InsertedText(was, buffer[..], l, c);
  }

  lemma InsertedText(was: seq<char>, now: seq<char>, l: Line, c: char)
    requires |now| == |was| > |l.text| + 1 && l.cursor <= |l.text| && was[..|l.text|] == l.text
    requires forall j | 0 <= j < l.cursor :: now[j] == was[j]
    requires now[l.cursor] == c && forall j | l.cursor < j <= |l.text| :: now[j] == was[j - 1]
    ensures now[..|l.text| + 1] == Insert(l, c).text
  {
    var t := Insert(l, c).text;
    assert forall j | 0 <= j < |l.text| :: was[j] == l.text[j];
    forall j | 0 <= j < |t| ensures now[j] == t[j] {}
  }

  /** Shift the tail one place left over the character before `index`. */
  method DeleteChar(buffer: array<char>, index: int, size: int, ghost l: Line)
    requires Holds(buffer[..], index, size, l) && index > 0
    modifies buffer
    ensures Holds(buffer[..], index - 1, size - 1, DeleteBefore(l))
  {
    ghost var was := buffer[..];
    if index != size - 1 {
      var i := index - 1;
      while i < size - 1
        invariant index - 1 <= i <= size - 1
        invariant forall j | 0 <= j < index - 1 :: buffer[j] == was[j]
        invariant forall j | index - 1 <= j < i :: buffer[j] == was[j + 1]
        invariant forall j | i <= j < size :: buffer[j] == was[j]
      {
        buffer[i] := buffer[i + 1];
        i := i + 1;
      }
    }
    buffer[size - 2] := '\0';
    DeletedText(was, buffer[..], l);
  }

  lemma DeletedText(was: seq<char>, now: seq<char>, l: Line)
    requires |now| == |was| > |l.text| && 0 < l.cursor <= |l.text| && was[..|l.text|] == l.text
    requires forall j | 0 <= j < l.cursor - 1 :: now[j] == was[j]
    requires forall j | l.cursor - 1 <= j < |l.text| - 1 :: now[j] == was[j + 1]
    ensures now[..|l.text| - 1] == DeleteBefore(l).text
  {
    var t := DeleteBefore(l).text;
    assert forall j | 0 <= j < |l.text| :: was[j] == l.text[j];
    forall j | 0 <= j < |t| ensures now[j] == t[j] {}
  }

  /** The buffer side of one round of `kbGetLine`, for any answer of the terminal. */
  method EditBuffer(buffer: array<char>, index: int, size: int, key: MappedKey, moved: bool, ghost l: Line)
    returns (index': int, size': int)
    requires Holds(buffer[..], index, size, l) && InTables(key)
    requires key.down && key.printable ==> size < buffer.Length
    modifies buffer
    ensures Holds(buffer[..], index', size', Edit(l, key, moved))
  {
    index', size' := index, size;
    if !key.down { return; }
    if !key.printable {
      if key.mappedCode == KEY_ARROW_LEFT {
        if moved {
          index' := index' - 1;
          if index' < 0 { index' := 0; }
        }
      } else if key.mappedCode == KEY_ARROW_RIGHT {
        if moved { index' := index' + 1; }
        if index' > size - 1 { index' := size - 1; }
      } else if key.mappedCode == KEY_BACKSPACE {
        if index <= 0 { return; }
        DeleteChar(buffer, index, size, l);
        index', size' := index - 1, size - 1;
        if index' < 0 { index' := 0; }
        if size' < 1 { size' := 1; }
      }
    } else {
      InsertChar(buffer, index, size, KeyChar(key), l);
      index', size' := index + 1, size + 1;
    }
  }

  /** The terminal side of one round of `kbGetLine`. */
  method EchoKey(tio: Tio, index: int, size: int, key: MappedKey, ghost l: Line) returns (moved: bool)
    requires index == l.cursor && size == |l.text| + 1 && InTables(key)
    modifies tio
    ensures moved == Moved(old(tio.View()), l, key)
    ensures tio.View() == Echo(old(tio.View()), l, key)
  {
    moved := false;
    if !key.down { return; }
    if !key.printable {
      if key.mappedCode == KEY_ARROW_LEFT {
        moved := tio.TryDec(PROMPT);
      } else if key.mappedCode == KEY_ARROW_RIGHT {
        moved := tio.TryInc(size, PROMPT);
      } else if key.mappedCode == KEY_ARROW_UP {
        tio.ViewShift(Down, 1);
      } else if key.mappedCode == KEY_ARROW_DOWN {
        tio.ViewShift(Up, 1);
      } else if key.mappedCode == KEY_BACKSPACE {
        if index > 0 { tio.Dec(); }
      }
    } else {
      tio.Write(KeyChar(key));
    }
  }

  // ----------------------------------------------------------------- sessions

  /** The line being edited and the screen it is edited on. */
  datatype Session = Session(line: Line, screen: Screen)

  ghost predicate AllInTables(keys: seq<MappedKey>) {
    forall i | 0 <= i < |keys| :: InTables(keys[i])
  }

  function Next(s: Session, key: MappedKey): (s': Session)
    requires s.line.cursor <= |s.line.text| && InTables(key)
    ensures s'.line.cursor <= |s'.line.text|
  {
    Session(Edit(s.line, key, Moved(s.screen, s.line, key)), Echo(s.screen, s.line, key))
  }

  /** The session after `keys`, starting with an empty line. */
  ghost function After(screen: Screen, keys: seq<MappedKey>): (s: Session)
    requires AllInTables(keys)
    ensures s.line.cursor <= |s.line.text|
  {
    if keys == [] then Session(EMPTY_LINE, screen)
    else Next(After(screen, keys[..|keys| - 1]), keys[|keys| - 1])
  }

  lemma AfterNext(screen: Screen, keys: seq<MappedKey>, n: nat)
    requires AllInTables(keys) && n < |keys|
    ensures After(screen, keys[..n + 1]) == Next(After(screen, keys[..n]), keys[n])
  {
    assert keys[..n + 1][..n] == keys[..n];
  }

  /** One round of `kbGetLine`. */
  method HandleKey(buffer: array<char>, tio: Tio, index: int, size: int, key: MappedKey, ghost s: Session)
    returns (index': int, size': int)
    requires Holds(buffer[..], index, size, s.line) && tio.View() == s.screen && InTables(key)
    requires |Next(s, key).line.text| < buffer.Length
    modifies buffer, tio
    ensures Holds(buffer[..], index', size', Next(s, key).line) && tio.View() == Next(s, key).screen
  {
    var moved := EchoKey(tio, index, size, key, s.line);
    index', size' := EditBuffer(buffer, index, size, key, moved, s.line);
  }

  predicate EndsLine(key: MappedKey) {
    key.down && key.mappedCode == KEY_ENTER
  }

  /** Two keys end the line: Enter, and the keypad's 0, whose mapped code is also that of Enter
      although it is a printable key and has typed its digit before. */
  lemma EndsLineExactly(keys: seq<bool>, ev: KeyEvent)
    requires |keys| == KEY_CODES && InTable(ev)
    ensures EndsLine(KeyOf(keys, ev)) <==> ev.pressed && !ev.e0 && (ev.code == 0x1c || ev.code == 0x52)
    ensures ev == KeyEvent(0x52, true, false) ==> KeyOf(keys, ev).printable && Lowercase(0x52) == '0'
  {
    if ev.e0 {
      assert SpecialMapped(ev.code) != KEY_ENTER;
    } else {
      assert Mapped(ev.code) == KEY_ENTER <==> ev.code == 0x1c || ev.code == 0x52;
    }
    assert Lowercase(0x52) == '0';
  }

  /** None of the first `n` keys but perhaps the last ends the line. */
  ghost predicate StillEditing(keys: seq<MappedKey>, n: nat)
    requires n <= |keys|
  {
    forall i | 0 <= i < n - 1 :: !EndsLine(keys[i])
  }

  /** Until the line ends its text is shorter than `length`. */
  ghost predicate HasRoomFor(screen: Screen, keys: seq<MappedKey>, length: nat)
    requires AllInTables(keys)
  {
    forall n | 0 <= n <= |keys| && StillEditing(keys, n) :: |After(screen, keys[..n]).line.text| < length
  }

  lemma NextHasRoom(screen: Screen, keys: seq<MappedKey>, length: nat, n: nat)
    requires AllInTables(keys) && HasRoomFor(screen, keys, length) && n < |keys|
    requires forall i | 0 <= i < n :: !EndsLine(keys[i])
    ensures |Next(After(screen, keys[..n]), keys[n]).line.text| < length
    ensures After(screen, keys[..n + 1]) == Next(After(screen, keys[..n]), keys[n])
  {
    assert StillEditing(keys, n + 1);
    AfterNext(screen, keys, n);
  }

  /** `kbGetLine` on the keys that arrive, up to the first that ends the line; the buffer must be
      zeroed and must have room for the line until then. */
  method GetLine(buffer: array<char>, tio: Tio, keys: seq<MappedKey>) returns (used: nat)
    requires buffer.Length > 0 && buffer[0] == '\0'
    requires AllInTables(keys) && exists i | 0 <= i < |keys| :: EndsLine(keys[i])
    requires HasRoomFor(tio.View(), keys, buffer.Length)
    modifies buffer, tio
    ensures 0 < used <= |keys| && EndsLine(keys[used - 1]) && StillEditing(keys, used)
    ensures var s := After(old(tio.View()), keys[..used]);
            && tio.View() == s.screen
            && |s.line.text| < buffer.Length
            && buffer[..|s.line.text|] == s.line.text && buffer[|s.line.text|] == '\0'
  {
    ghost var start, s := tio.View(), After(tio.View(), []);
    var index, size := 0, 1;
    used := 0;
    var ended := false;
    while !ended
      invariant used <= |keys| && (ended ==> used > 0 && EndsLine(keys[used - 1]))
      invariant forall i | 0 <= i < used && !(ended && i == used - 1) :: !EndsLine(keys[i])
      invariant s == After(start, keys[..used]) && tio.View() == s.screen
      invariant Holds(buffer[..], index, size, s.line)
      decreases |keys| - used, !ended
    {
      var key := keys[used];
      NextHasRoom(start, keys, buffer.Length, used);
      index, size := HandleKey(buffer, tio, index, size, key, s);
      s := Next(s, key);
      used := used + 1;
      assert keys[used - 1] == key;
      ended := key.down && key.mappedCode == KEY_ENTER;
    }
  }

  // -------------------------------------------------------- cursor and screen

  /** However long the session, the cursor stays in bounds. */
  lemma {:induction false} SessionInBounds(screen: Screen, keys: seq<MappedKey>)
    requires AllInTables(keys) && InBounds(screen)
    ensures InBounds(After(screen, keys).screen)
  {
    if keys != [] {
      var front, key := keys[..|keys| - 1], keys[|keys| - 1];
      SessionInBounds(screen, front);
      var s := After(screen, front).screen;
      var c := if key.printable then KeyChar(key) else ' ';
      StaysInBounds(s, Up, 1, c);
      StaysInBounds(s, Down, 1, c);
    }
  }

  /** The editor one would specify: arrows move within the text. */
  function Ideal(l: Line, key: MappedKey): Line
    requires l.cursor <= |l.text| && InTables(key)
  {
    Edit(l, key, true)
  }

  /** While the terminal's column is the cursor's place behind the prompt, its answers to arrow keys
      are the right ones: the cursor moves whenever there is text to move over, and the clamps of
      the editor do nothing. And the column keeps up exactly as long as the cursor stays within
      the first line, 77 characters behind the prompt. */
  lemma ColumnStepExactly(s: Session, key: MappedKey)
    requires s.line.cursor <= |s.line.text| && InTables(key) && s.screen.x == s.line.cursor + PROMPT < TERM_WIDTH
    ensures Next(s, key).line == Ideal(s.line, key)
    ensures IsPress(key, KEY_ARROW_LEFT) ==> (Moved(s.screen, s.line, key) <==> s.line.cursor > 0)
    ensures IsPress(key, KEY_ARROW_RIGHT) ==> (Moved(s.screen, s.line, key) <==> s.line.cursor < |s.line.text|)
    ensures Next(s, key).screen.x == Next(s, key).line.cursor + PROMPT
            <==> Next(s, key).line.cursor + PROMPT < TERM_WIDTH
  {
    if key.printable {
      NoLineBreaks(key.scancode);
      CursorColumns(s.screen, KeyChar(key));
    } else {
      CursorColumns(s.screen, ' ');
    }
    ShiftKeepsColumn(s.screen, Up, 1);
    ShiftKeepsColumn(s.screen, Down, 1);
  }

  /** The line after `keys` in the ideal editor. */
  ghost function IdealAfter(keys: seq<MappedKey>): (l: Line)
    requires AllInTables(keys)
    ensures l.cursor <= |l.text|
  {
    if keys == [] then EMPTY_LINE else Ideal(IdealAfter(keys[..|keys| - 1]), keys[|keys| - 1])
  }

  /** Starting behind the prompt, as long as no more than 77 characters are typed, every reachable
      state has the terminal's cursor on the edited character, and the line is that of the ideal editor. */
  lemma {:induction false} ColumnTracksCursor(screen: Screen, keys: seq<MappedKey>)
    requires AllInTables(keys) && screen.x == PROMPT
    requires forall n | 0 <= n <= |keys| :: |IdealAfter(keys[..n]).text| <= TERM_WIDTH - PROMPT - 1
    ensures After(screen, keys).line == IdealAfter(keys)
    ensures After(screen, keys).screen.x == After(screen, keys).line.cursor + PROMPT
  {
    if keys != [] {
      var front := keys[..|keys| - 1];
      forall n | 0 <= n <= |front| ensures |IdealAfter(front[..n]).text| <= TERM_WIDTH - PROMPT - 1 {
        assert front[..n] == keys[..n];
      }
      ColumnTracksCursor(screen, front);
      assert keys[..|keys|] == keys && front[..|front|] == front;
      ColumnStepExactly(After(screen, front), keys[|keys| - 1]);
    }
  }
}
