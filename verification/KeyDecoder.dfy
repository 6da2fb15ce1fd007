/** Decoding scancodes: key events, the key-state table they leave behind, and the driver that
    takes them from the scancode queue. */
module KeyDecoder {
  import opened Common
  import opened Bytes
  import opened ScancodeQueue

  const KEY_L_SHIFT: nat := 0x80
  const KEY_R_SHIFT: nat := 0x8b
  const KEY_CAPS: nat := 0x60
  const KEY_BACKSPACE: nat := 0x2d
  const KEY_ENTER: nat := 0x6c
  const KEY_ARROW_UP: nat := 0x8c
  const KEY_ARROW_LEFT: nat := 0xa8
  const KEY_ARROW_RIGHT: nat := 0xaa
  const KEY_ARROW_DOWN: nat := 0xa9

  /** Scancodes the mapping table covers. */
  const TABLE_SIZE: nat := 88
  /** Scancodes the table of E0 keys covers. */
  const E0_TABLE_SIZE: nat := 120

  // The three tables indexed by scancode, eight entries to a row.

  function LowercaseRow(r: nat): (row: string)
    ensures |row| == 8
  {
    match r
    case 0 => "??123456"
    case 1 => "7890-=??"
    case 2 => "qwertyui"
    case 3 => "op[]??as"
    case 4 => "dfghjkl;"
    case 5 => "'`?\\zxcv"
    case 6 => "bnm,./?*"
    case 7 => "? ??????"
    case 8 => "???????7"
    case 9 => "89-456+1"
    case _ => "230.????"
  }

  function UppercaseRow(r: nat): (row: string)
    ensures |row| == 8
  {
    match r
    case 0 => "??!@#$%^"
    case 1 => "&*()_+  "
    case 2 => "QWERTYUI"
    case 3 => "OP{}??AS"
    case 4 => "DFGHJKL;"
    case 5 => "\"~?|ZXCV"
    case 6 => "BNM<>??*"
    case 7 => "? ??????"
    case 8 => "???????7"
    case 9 => "89-456+1"
    case _ => "230.????"
  }

  function MappedRow(r: nat): (row: seq<byte>)
    ensures |row| == 8
  {
    match r
    case 0 => [0xff, 0x00, 0x21, 0x22, 0x23, 0x24, 0x25, 0x26]
    case 1 => [0x27, 0x28, 0x29, 0x2a, 0x2b, 0x2c, 0x2d, 0x40]
    case 2 => [0x41, 0x42, 0x43, 0x44, 0x45, 0x46, 0x47, 0x48]
    case 3 => [0x49, 0x4a, 0x4b, 0x4c, 0x6c, 0xa0, 0x61, 0x62]
    case 4 => [0x63, 0x64, 0x65, 0x66, 0x67, 0x68, 0x69, 0x6a]
    case 5 => [0x6b, 0x20, 0x80, 0x4d, 0x81, 0x82, 0x83, 0x84]
    case 6 => [0x85, 0x86, 0x87, 0x88, 0x89, 0x8a, 0x8b, 0x33]
    case 7 => [0xa2, 0xa3, 0x60, 0x01, 0x02, 0x03, 0x04, 0x05]
    case 8 => [0x06, 0x07, 0x08, 0x09, 0x0a, 0x31, 0x0e, 0x51]
    case 9 => [0x52, 0x53, 0x34, 0x6d, 0x6e, 0x6f, 0x8c, 0x8d]
    case _ => [0x8e, 0x6b, 0x6c, 0xff, 0xff, 0xff, 0x0b, 0x0c]
  }

  /** `scancode_set1` */
  function Lowercase(code: nat): char
    requires code < TABLE_SIZE
  {
    LowercaseRow(code / 8)[code % 8]
  }

  /** `uppercase_scancode_set1` */
  function Uppercase(code: nat): char
    requires code < TABLE_SIZE
  {
    UppercaseRow(code / 8)[code % 8]
  }

  /** `scancode_set1ToMapped` */
  function Mapped(code: nat): byte
    requires code < TABLE_SIZE
  {
    MappedRow(code / 8)[code % 8]
  }

  /** The packed structure of E0 keys, indexed by offset; padding is zero. */
  function SpecialMapped(code: nat): byte {
    if code == 0x35 then 0x32 else if code == 0x38 then 0xa4
    else if code == 0x47 then 0x2f else if code == 0x48 then 0x8c
    else if code == 0x49 then 0x30 else if code == 0x4b then 0xa8
    else if code == 0x4d then 0xaa else if code == 0x4f then 0x4f
    else if code == 0x50 then 0xa9 else if code == 0x51 then 0x50
    else if code == 0x52 then 0x2e else if code == 0x53 then 0x4e
    else 0
  }

  /** Only the caps-lock scancode has the caps-lock code, and it is not a printable key. */
  lemma OnlyCapsMapsToCaps(code: nat)
    ensures code < TABLE_SIZE && Mapped(code) == KEY_CAPS ==> Lowercase(code) == '?'
    ensures SpecialMapped(code) != KEY_CAPS
  {
  }

  /** No key types a line break. */
  lemma NoLineBreaks(code: nat)
    requires code < TABLE_SIZE
    ensures Lowercase(code) != '\n' && Lowercase(code) != '\r'
    ensures Uppercase(code) != '\n' && Uppercase(code) != '\r'
  {
  }

  /** The digits and letters of scancode set 1, and what shift makes of them. */
  lemma DigitsExactly(i: nat)
    requires i < 10
    ensures Lowercase(0x02 + i) == "1234567890"[i] && Uppercase(0x02 + i) == "!@#$%^&*()"[i]
  {
  }

  lemma TopLettersExactly(i: nat)
    requires i < 10
    ensures Lowercase(0x10 + i) == "qwertyuiop"[i] && Uppercase(0x10 + i) == "QWERTYUIOP"[i]
  {
  }

  lemma MiddleLettersExactly(i: nat)
    requires i < 9
    ensures Lowercase(0x1e + i) == "asdfghjkl"[i] && Uppercase(0x1e + i) == "ASDFGHJKL"[i]
  {
  }

  lemma BottomLettersExactly(i: nat)
    requires i < 7
    ensures Lowercase(0x2c + i) == "zxcvbnm"[i] && Uppercase(0x2c + i) == "ZXCVBNM"[i]
  {
  }

  /** The keys of a row of the keyboard have consecutive codes. */
  lemma UpperRowCodesExactly(i: nat)
    ensures i < 13 ==> Mapped(0x02 + i) == 0x21 + i
    ensures i < 12 ==> Mapped(0x10 + i) == 0x41 + i
  {
  }

  lemma LowerRowCodesExactly(i: nat)
    requires i < 11
    ensures Mapped(0x1e + i) == 0x61 + i
    ensures Mapped(0x2c + i) == 0x81 + i
  {
  }

  // ---------------------------------------------------------------- events

  /** A key going down or up; `e0` marks keys announced by an E0 prefix. */
  datatype KeyEvent = KeyEvent(code: nat, pressed: bool, e0: bool)

  predicate InTable(ev: KeyEvent) {
    ev.code < (if ev.e0 then E0_TABLE_SIZE else TABLE_SIZE)
  }

  /** The key code an event is about. */
  function KeyCode(ev: KeyEvent): byte
    requires InTable(ev)
  {
    if ev.e0 then SpecialMapped(ev.code) else Mapped(ev.code)
  }

  predicate Printable(ev: KeyEvent)
    requires InTable(ev)
  {
    !ev.e0 && Lowercase(ev.code) != '?'
  }

  /** The event a scancode byte stands for: its top bit tells a release. */
  function EventOf(scancode: byte, e0: bool): KeyEvent {
    KeyEvent(scancode % 0x80, scancode < 0x80, e0)
  }

  /** The events in a stream of bytes; an E0 byte belongs to the byte after it. */
  function Events(bytes: seq<byte>): seq<KeyEvent> {
    if bytes == [] then []
    else if bytes[0] != 0xe0 then [EventOf(bytes[0], false)] + Events(bytes[1..])
    else if |bytes| == 1 then []
    else [EventOf(bytes[1], true)] + Events(bytes[2..])
  }

  /** A byte below 0x80 is the press of that key and the byte 0x80 above it its release, with and
      without an E0 prefix; only the prefix itself is neither. */
  lemma BytesExactly(b: byte)
    requires b < 0x80
    ensures b != 0x60 ==> Events([b]) == [KeyEvent(b, true, false)] && Events([b + 0x80]) == [KeyEvent(b, false, false)]
    ensures Events([0xe0, b]) == [KeyEvent(b, true, true)] && Events([0xe0, b + 0x80]) == [KeyEvent(b, false, true)]
    ensures b == 0x60 ==> Events([b]) == [KeyEvent(b, true, false)] && Events([b + 0x80]) == []
  {
  }

  /** The stream does not end in a lone E0 prefix. */
  ghost predicate Whole(bytes: seq<byte>)
    decreases |bytes|
  {
    if bytes == [] then true
    else if bytes[0] != 0xe0 then Whole(bytes[1..])
    else |bytes| > 1 && Whole(bytes[2..])
  }

  /** Whole streams decode one after the other. */
  lemma {:induction false} EventsConcat(bytes: seq<byte>, more: seq<byte>)
    requires Whole(bytes)
    ensures Events(bytes + more) == Events(bytes) + Events(more)
    decreases |bytes|
  {
    if bytes == [] {
      assert bytes + more == more;
    } else {
      FirstEventStays(bytes, more);
      var rest := bytes[EventLength(bytes)..];
      EventsConcat(rest, more);
      ConcatAssociates([Events(bytes)[0]], Events(rest), Events(more));
    }
  }

  /** Bytes are waiting but no event is whole exactly when a lone E0 prefix is waiting. */
  lemma NoEventExactly(bytes: seq<byte>)
    ensures Events(bytes) == [] <==> bytes == [] || bytes == [0xe0]
  {
  }

  /** Bytes the first event takes. */
  function EventLength(bytes: seq<byte>): nat
    requires bytes != []
  {
    if bytes[0] == 0xe0 then 2 else 1
  }

  /** Later bytes do not change the events that are already there. */
  lemma {:induction false} EventsExtend(bytes: seq<byte>, more: seq<byte>)
    ensures Events(bytes) <= Events(bytes + more)
    decreases |bytes|
  {
    if Events(bytes) != [] {
      FirstEventStays(bytes, more);
      EventsExtend(bytes[EventLength(bytes)..], more);
    }
  }

  lemma FirstEventStays(bytes: seq<byte>, more: seq<byte>)
    requires Events(bytes) != []
    ensures EventLength(bytes) <= |bytes|
    ensures Events(bytes) == [Events(bytes)[0]] + Events(bytes[EventLength(bytes)..])
    ensures Events(bytes + more) == [Events(bytes)[0]] + Events(bytes[EventLength(bytes)..] + more)
  {
    var n := EventLength(bytes);
    assert (bytes + more)[n..] == bytes[n..] + more;
  }

  ghost predicate AllInTable(evs: seq<KeyEvent>) {
    forall i | 0 <= i < |evs| :: InTable(evs[i])
  }

  // ------------------------------------------------------------ key states

  const KEY_CODES: nat := 256

  /** What decoding an event does to the key-state table. */
  function Apply(keys: seq<bool>, ev: KeyEvent): seq<bool>
    requires |keys| == KEY_CODES && InTable(ev)
  {
    var code := KeyCode(ev);
    if ev.e0 || Printable(ev) || code != KEY_CAPS then keys[code := ev.pressed]
    else if ev.pressed then keys[KEY_CAPS := !keys[KEY_CAPS]]
    else keys
  }

  ghost function KeyStates(evs: seq<KeyEvent>): (keys: seq<bool>)
    requires AllInTable(evs)
    ensures |keys| == KEY_CODES
  {
    if evs == [] then seq(KEY_CODES, _ => false)
    else Apply(KeyStates(evs[..|evs| - 1]), evs[|evs| - 1])
  }

  /** An event as far as the table is concerned. */
  datatype Press = Press(code: byte, pressed: bool)

  function Resolve(ev: KeyEvent): Press
    requires InTable(ev)
  {
    Press(KeyCode(ev), ev.pressed)
  }

  function Presses(evs: seq<KeyEvent>): (ps: seq<Press>)
    requires AllInTable(evs)
    ensures |ps| == |evs|
    ensures forall i | 0 <= i < |evs| :: ps[i] == Resolve(evs[i])
  {
    if evs == [] then [] else Presses(evs[..|evs| - 1]) + [Resolve(evs[|evs| - 1])]
  }

  /** The last event about key code `c` was a press. */
  ghost predicate HeldDown(ps: seq<Press>, c: byte) {
    exists i | 0 <= i < |ps| :: ps[i] == Press(c, true) && forall j | i < j < |ps| :: ps[j].code != c
  }

  function CapsPresses(ps: seq<Press>): nat {
    if ps == [] then 0
    else CapsPresses(ps[..|ps| - 1]) + if ps[|ps| - 1] == Press(KEY_CAPS, true) then 1 else 0
  }

  /** Every other key's entry follows the key; the caps-lock entry flips at each press. */
  function ApplyPress(keys: seq<bool>, p: Press): seq<bool>
    requires |keys| == KEY_CODES
  {
    if p.code != KEY_CAPS then keys[p.code := p.pressed]
    else if p.pressed then keys[KEY_CAPS := !keys[KEY_CAPS]]
    else keys
  }

  lemma ApplyIsPress(keys: seq<bool>, ev: KeyEvent)
    requires |keys| == KEY_CODES && InTable(ev)
    ensures Apply(keys, ev) == ApplyPress(keys, Resolve(ev))
  {
    OnlyCapsMapsToCaps(ev.code);
  }

  /** After any stream of key events the table says of every key but caps lock whether it is held
      down, and of caps lock whether it has been pressed an odd number of times. */
  lemma {:induction false} KeyStatesExactly(evs: seq<KeyEvent>, c: byte)
    requires AllInTable(evs)
    ensures c != KEY_CAPS ==> (KeyStates(evs)[c] <==> HeldDown(Presses(evs), c))
    ensures KeyStates(evs)[KEY_CAPS] <==> CapsPresses(Presses(evs)) % 2 == 1
  {
    if evs != [] {
      var front, last := evs[..|evs| - 1], evs[|evs| - 1];
      KeyStatesExactly(front, c);
      ApplyIsPress(KeyStates(front), last);
      PressStep(KeyStates(front), Presses(front), Resolve(last), c);
    }
  }

  lemma PressStep(keys: seq<bool>, ps: seq<Press>, p: Press, c: byte)
    requires |keys| == KEY_CODES
    requires c != KEY_CAPS ==> (keys[c] <==> HeldDown(ps, c))
    requires keys[KEY_CAPS] <==> CapsPresses(ps) % 2 == 1
    ensures c != KEY_CAPS ==> (ApplyPress(keys, p)[c] <==> HeldDown(ps + [p], c))
    ensures ApplyPress(keys, p)[KEY_CAPS] <==> CapsPresses(ps + [p]) % 2 == 1
  {
    assert (ps + [p])[..|ps|] == ps;
    HeldDownStep(ps, p, c);
  }

  lemma HeldDownStep(ps: seq<Press>, p: Press, c: byte)
    ensures HeldDown(ps + [p], c) <==> if p.code == c then p.pressed else HeldDown(ps, c)
  {
    var qs := ps + [p];
    assert qs[|ps|] == p;
    if p.code != c {
      if HeldDown(ps, c) {
        var i :| 0 <= i < |ps| && ps[i] == Press(c, true) && forall j | i < j < |ps| :: ps[j].code != c;
        assert qs[i] == Press(c, true);
      }
      if HeldDown(qs, c) {
        var i :| 0 <= i < |qs| && qs[i] == Press(c, true) && forall j | i < j < |qs| :: qs[j].code != c;
        assert ps[i] == Press(c, true);
        forall j | i < j < |ps| ensures ps[j].code != c { assert qs[j] == ps[j]; }
      }
    }
  }

  /** At the end of any whole stream, the byte of a key leaves its entry set and the byte 0x80 above
      it leaves it clear; caps lock is turned over by the one and left alone by the other. */
  lemma LastByteExactly(bytes: seq<byte>, b: byte)
    requires Whole(bytes) && AllInTable(Events(bytes)) && b < 88
    ensures AllInTable(Events(bytes + [b])) && AllInTable(Events(bytes + [b + 0x80]))
    ensures var was, down, up := KeyStates(Events(bytes)), KeyStates(Events(bytes + [b])), KeyStates(Events(bytes + [b + 0x80]));
            if Mapped(b) != KEY_CAPS then down[Mapped(b)] && !up[Mapped(b)]
            else down[KEY_CAPS] != was[KEY_CAPS] && up[KEY_CAPS] == was[KEY_CAPS]
  {
    var evs := Events(bytes);
    EventsConcat(bytes, [b]);
    EventsConcat(bytes, [b + 0x80]);
    BytesExactly(b);
    KeyStatesMore(evs, KeyEvent(b, true, false));
    KeyStatesMore(evs, KeyEvent(b, false, false));
    OnlyCapsMapsToCaps(b);
  }

  /** Behind an E0 prefix it is the entry of the special key. */
  lemma LastSpecialByteExactly(bytes: seq<byte>, b: byte)
    requires Whole(bytes) && AllInTable(Events(bytes)) && b < 120
    ensures AllInTable(Events(bytes + [0xe0, b])) && AllInTable(Events(bytes + [0xe0, b + 0x80]))
    ensures KeyStates(Events(bytes + [0xe0, b]))[SpecialMapped(b)]
    ensures !KeyStates(Events(bytes + [0xe0, b + 0x80]))[SpecialMapped(b)]
  {
    EventsConcat(bytes, [0xe0, b]);
    EventsConcat(bytes, [0xe0, b + 0x80]);
    BytesExactly(b);
    KeyStatesMore(Events(bytes), KeyEvent(b, true, true));
    KeyStatesMore(Events(bytes), KeyEvent(b, false, true));
  }

  lemma KeyStatesMore(evs: seq<KeyEvent>, ev: KeyEvent)
    requires AllInTable(evs) && InTable(ev)
    ensures AllInTable(evs + [ev]) && KeyStates(evs + [ev]) == Apply(KeyStates(evs), ev)
  {
    var all := evs + [ev];
    assert all[..|all| - 1] == evs;
  }

  // ----------------------------------------------------------- mapped keys

  datatype MappedKey = MappedKey(mappedCode: byte, scancode: nat, e0: bool, printable: bool,
                                 down: bool, capitalized: bool)

  /** The key a program sees for an event, given the table after it. */
  function KeyOf(keys: seq<bool>, ev: KeyEvent): MappedKey
    requires |keys| == KEY_CODES && InTable(ev)
  {
    MappedKey(KeyCode(ev), ev.code, ev.e0, Printable(ev), ev.pressed,
      Printable(ev) && ev.pressed && (keys[KEY_L_SHIFT] || keys[KEY_R_SHIFT] || keys[KEY_CAPS]))
  }

  /** Which keys change the case of letters. */
  lemma ModifiersExactly(ev: KeyEvent)
    requires InTable(ev)
    ensures KeyCode(ev) == KEY_L_SHIFT <==> !ev.e0 && ev.code == 0x2a
    ensures KeyCode(ev) == KEY_R_SHIFT <==> !ev.e0 && ev.code == 0x36
    ensures KeyCode(ev) == KEY_CAPS <==> !ev.e0 && ev.code == 0x3a
  {
  }

  /** A key is capitalized exactly when it is a printable press while a shift key is held or caps
      lock has been pressed an odd number of times. */
  lemma CapitalizedExactly(evs: seq<KeyEvent>)
    requires evs != [] && AllInTable(evs)
    ensures var ev := evs[|evs| - 1];
            KeyOf(KeyStates(evs), ev).capitalized
            <==> (Printable(ev) && ev.pressed
                  && (HeldDown(Presses(evs), KEY_L_SHIFT) || HeldDown(Presses(evs), KEY_R_SHIFT)
                      || CapsPresses(Presses(evs)) % 2 == 1))
  {
    KeyStatesExactly(evs, KEY_L_SHIFT);
    KeyStatesExactly(evs, KEY_R_SHIFT);
  }

  // ------------------------------------------------------------------ runs

  /** What happens to the driver: a byte arrives, or a program takes the next key. */
  datatype Input = Arrives(scancode: byte) | Decodes

  /** The unread bytes and the key-state table. */
  datatype Driver = Driver(pending: seq<byte>, keys: seq<bool>)

  /** There is room for the byte; a whole event is waiting and the tables cover it. */
  predicate Ready(d: Driver, i: Input) {
    match i
    case Arrives(_) => |d.pending| < QUEUE_SIZE - 1
    case Decodes => Events(d.pending) != [] && InTable(Events(d.pending)[0])
  }

  function DriverStep(d: Driver, i: Input): (d': Driver)
    requires |d.keys| == KEY_CODES && Ready(d, i)
    ensures |d'.keys| == KEY_CODES
  {
    match i
    case Arrives(b) => d.(pending := d.pending + [b])
    case Decodes =>
      FirstEventStays(d.pending, []);
      Driver(d.pending[EventLength(d.pending)..], Apply(d.keys, Events(d.pending)[0]))
  }

  ghost predicate DriverRuns(d: Driver, inputs: seq<Input>, d': Driver)
    decreases |inputs|
  {
    if inputs == [] then d == d'
    else |d.keys| == KEY_CODES && Ready(d, inputs[0]) && DriverRuns(DriverStep(d, inputs[0]), inputs[1..], d')
  }

  function Arrival(i: Input): seq<byte> {
    if i.Arrives? then [i.scancode] else []
  }

  function Arrivals(inputs: seq<Input>): seq<byte> {
    if inputs == [] then [] else Arrival(inputs[0]) + Arrivals(inputs[1..])
  }

  lemma ArrivalsStep(arrived: seq<byte>, inputs: seq<Input>)
    requires inputs != []
    ensures arrived + Arrival(inputs[0]) + Arrivals(inputs[1..]) == arrived + Arrivals(inputs)
  {
    ConcatAssociates(arrived, Arrival(inputs[0]), Arrivals(inputs[1..]));
  }

  /** If `more` came next, the events would be those of `decoded` and then those still to decode. */
  ghost predicate Joins(arrived: seq<byte>, decoded: seq<KeyEvent>, pending: seq<byte>, more: seq<byte>) {
    Events(arrived + more) == decoded + Events(pending + more)
  }

  /** Of everything that arrived, `decoded` has made the table and the rest is pending. */
  ghost predicate Tracks(d: Driver, arrived: seq<byte>, decoded: seq<KeyEvent>) {
    && AllInTable(decoded) && d.keys == KeyStates(decoded)
    && forall more: seq<byte> :: Joins(arrived, decoded, d.pending, more)
  }

  lemma ArrivalTracks(d: Driver, b: byte, arrived: seq<byte>, decoded: seq<KeyEvent>)
    requires Tracks(d, arrived, decoded) && Ready(d, Arrives(b))
    ensures Tracks(DriverStep(d, Arrives(b)), arrived + [b], decoded)
  {
    forall more: seq<byte> ensures Joins(arrived + [b], decoded, d.pending + [b], more) {
      assert Joins(arrived, decoded, d.pending, [b] + more);
      JoinsArrived(arrived, decoded, d.pending, b, more);
    }
  }

  lemma JoinsArrived(arrived: seq<byte>, decoded: seq<KeyEvent>, pending: seq<byte>, b: byte, more: seq<byte>)
    requires Joins(arrived, decoded, pending, [b] + more)
    ensures Joins(arrived + [b], decoded, pending + [b], more)
  {
    ConcatAssociates(arrived, [b], more);
    ConcatAssociates(pending, [b], more);
  }

  lemma DecodingTracks(d: Driver, arrived: seq<byte>, decoded: seq<KeyEvent>)
    requires Tracks(d, arrived, decoded) && Ready(d, Decodes)
    ensures EventLength(d.pending) <= |d.pending| && Tracks(DriverStep(d, Decodes), arrived, decoded + [Events(d.pending)[0]])
  {
    FirstEventStays(d.pending, []);
    var ev := Events(d.pending)[0];
    var all := decoded + [ev];
    assert all[..|all| - 1] == decoded;
    forall more: seq<byte> ensures Joins(arrived, all, d.pending[EventLength(d.pending)..], more) {
      assert Joins(arrived, decoded, d.pending, more);
      JoinsDecoded(arrived, decoded, d.pending, more);
    }
  }

  lemma JoinsDecoded(arrived: seq<byte>, decoded: seq<KeyEvent>, pending: seq<byte>, more: seq<byte>)
    requires Joins(arrived, decoded, pending, more) && Events(pending) != []
    ensures EventLength(pending) <= |pending|
    ensures Joins(arrived, decoded + [Events(pending)[0]], pending[EventLength(pending)..], more)
  {
    FirstEventStays(pending, more);
    var ev, rest := Events(pending)[0], Events(pending[EventLength(pending)..] + more);
    ConcatAssociates(decoded, [ev], rest);
  }

  lemma {:induction false} RunTracks(d: Driver, inputs: seq<Input>, d': Driver, arrived: seq<byte>,
                                     decoded: seq<KeyEvent>) returns (all: seq<KeyEvent>)
    requires Tracks(d, arrived, decoded) && DriverRuns(d, inputs, d')
    ensures Tracks(d', arrived + Arrivals(inputs), all)
    decreases |inputs|
  {
    if inputs == [] {
      assert arrived + Arrivals(inputs) == arrived;
      return decoded;
    }
    var i, soFar := inputs[0], arrived + Arrival(inputs[0]);
    if i.Arrives? {
      ArrivalTracks(d, i.scancode, arrived, decoded);
      all := decoded;
    } else {
      DecodingTracks(d, arrived, decoded);
      assert soFar == arrived;
      all := decoded + [Events(d.pending)[0]];
    }
    all := RunTracks(DriverStep(d, i), inputs[1..], d', soFar, all);
    ArrivalsStep(arrived, inputs);
  }

  const POWER_UP: Driver := Driver([], seq(KEY_CODES, _ => false))

  /** However arrivals and decoding interleave, the table is always that of the first n events in the
      stream of all bytes that arrived, for some n, and the pending bytes hold the rest of the events. */
  lemma EveryRunDecodesInOrder(inputs: seq<Input>, d: Driver) returns (n: nat)
    requires DriverRuns(POWER_UP, inputs, d)
    ensures var evs := Events(Arrivals(inputs));
            n <= |evs| && AllInTable(evs[..n]) && d.keys == KeyStates(evs[..n]) && Events(d.pending) == evs[n..]
  {
    forall more: seq<byte> ensures Joins([], [], POWER_UP.pending, more) {
      assert [] + Events(POWER_UP.pending + more) == Events([] + more);
    }
    assert KeyStates([]) == POWER_UP.keys;
    var decoded := RunTracks(POWER_UP, inputs, d, [], []);
    var arrived := Arrivals(inputs);
    assert [] + arrived == arrived;
    assert Joins(arrived, decoded, d.pending, []);
    assert arrived + [] == arrived && d.pending + [] == d.pending;
    n := |decoded|;
    assert Events(arrived)[..n] == decoded;
  }

  // ---------------------------------------------------------------- driver

  /** The queue's slots from `ridx` on hold the unread bytes. */
  ghost predicate Window(slots: seq<byte>, ridx: nat, pending: seq<byte>) {
    |slots| == QUEUE_SIZE && forall i | 0 <= i < |pending| :: slots[(ridx + i) % QUEUE_SIZE] == pending[i]
  }

  lemma Shifted(r: nat, i: nat)
    ensures ((r + 1) % QUEUE_SIZE + i) % QUEUE_SIZE == (r + (i + 1)) % QUEUE_SIZE
  {
  }

  /** The distance to the writer after a read: one less, or 255 when it was none. */
  lemma ReadWraps(r: nat, n: nat)
    requires r < QUEUE_SIZE && n < QUEUE_SIZE
    ensures (r + n) % QUEUE_SIZE == ((r + 1) % QUEUE_SIZE + if n == 0 then QUEUE_SIZE - 1 else n - 1) % QUEUE_SIZE
  {
    Shifted(r, if n == 0 then QUEUE_SIZE - 1 else n - 1);
  }

  lemma WindowTail(slots: seq<byte>, r: nat, pending: seq<byte>)
    requires Window(slots, r, pending) && r < QUEUE_SIZE && pending != []
    ensures slots[r] == pending[0] && Window(slots, (r + 1) % QUEUE_SIZE, pending[1..])
    ensures |pending| > 1 ==> slots[(r + 1) % QUEUE_SIZE] == pending[1]
  {
    assert slots[(r + 0) % QUEUE_SIZE] == pending[0];
    forall i | 0 <= i < |pending| - 1 ensures slots[((r + 1) % QUEUE_SIZE + i) % QUEUE_SIZE] == pending[1..][i] {
      Shifted(r, i);
    }
  }

  lemma WindowMore(slots: seq<byte>, r: nat, pending: seq<byte>, b: byte)
    requires Window(slots, r, pending) && |pending| < QUEUE_SIZE - 1
    ensures Window(slots[(r + |pending|) % QUEUE_SIZE := b], r, pending + [b])
    ensures ((r + |pending|) % QUEUE_SIZE + 1) % QUEUE_SIZE == (r + |pending + [b]|) % QUEUE_SIZE
  {
    var slots' := slots[(r + |pending|) % QUEUE_SIZE := b];
    forall i | 0 <= i < |pending| ensures slots'[(r + i) % QUEUE_SIZE] == pending[i] {
      DistinctSlots(r + i, r + |pending|);
    }
    NextSlot(r + |pending|);
  }

  /** What looks unread after a read from an empty queue. */
  ghost function Stale(slots: seq<byte>, ridx: nat): (pending: seq<byte>)
    requires |slots| == QUEUE_SIZE
    ensures |pending| == QUEUE_SIZE - 1 && Window(slots, ridx, pending)
  {
    seq(QUEUE_SIZE - 1, i requires 0 <= i => slots[(ridx + i) % QUEUE_SIZE])
  }

  class Keyboard {
    const queue: array<byte>
    var widx: nat
    var ridx: nat
    const keyStates: array<bool>
    /** The bytes in the queue that have not been read. */
    ghost var Pending: seq<byte>

    ghost predicate Valid()
      reads this, queue
    {
      && queue.Length == QUEUE_SIZE && keyStates.Length == KEY_CODES && keyStates as object != queue
      && widx < QUEUE_SIZE && ridx < QUEUE_SIZE
      && |Pending| < QUEUE_SIZE && widx == (ridx + |Pending|) % QUEUE_SIZE
      && Window(queue[..], ridx, Pending)
    }

    ghost function State(): Driver
      reads this, keyStates
    {
      Driver(Pending, keyStates[..])
    }

    /** The event the reader will see: after an E0 prefix it looks at the next slot, whether or not
        that holds an unread byte. */
    ghost function NextEvent(): KeyEvent
      requires Valid() && Pending != []
      reads this, queue
    {
      if Pending[0] == 0xe0 then EventOf(queue[(ridx + 1) % QUEUE_SIZE], true) else EventOf(Pending[0], false)
    }

    constructor ()
      ensures Valid() && State() == POWER_UP && fresh(queue) && fresh(keyStates)
    {
      queue := new byte[QUEUE_SIZE](_ => 0);
      keyStates := new bool[KEY_CODES](_ => false);
      widx, ridx, Pending := 0, 0, [];
    }

    /** `keyboardInterruptHandler`. The 256th unread byte makes the queue look empty. */
    method Interrupt(scancode: byte)
      requires Valid()
      modifies this`widx, this`Pending, queue
      ensures Valid() && Pending == if |old(Pending)| < QUEUE_SIZE - 1 then old(Pending) + [scancode] else []
      ensures old(Ready(State(), Arrives(scancode))) ==> State() == DriverStep(old(State()), Arrives(scancode))
    {
      if |Pending| < QUEUE_SIZE - 1 { WindowMore(queue[..], ridx, Pending, scancode); }
      ghost var slots := queue[..][widx := scancode];
      queue[widx] := scancode;
      widx := (widx + 1) % QUEUE_SIZE;
      Pending := if |Pending| < QUEUE_SIZE - 1 then Pending + [scancode] else [];
      assert queue[..] == slots;
    }

    /** `kbHasNewInput` */
    predicate HasInput()
      requires Valid()
      reads this, queue
      ensures HasInput() <==> Pending != []
    {
      ridx != widx
    }

    /** `scancode_queue[queue_ridx++]`. When no byte is unread it returns a stale one, and the other
        255 slots then look unread. */
    method Take() returns (scancode: byte)
      requires Valid()
      modifies this`ridx, this`Pending
      ensures Valid() && scancode == queue[old(ridx)]
      ensures if old(Pending) == [] then |Pending| == QUEUE_SIZE - 1
              else scancode == old(Pending)[0] && Pending == old(Pending)[1..]
      ensures ridx == (old(ridx) + 1) % QUEUE_SIZE
    {
      scancode := queue[ridx];
      if Pending != [] { WindowTail(queue[..], ridx, Pending); }
      ReadWraps(ridx, |Pending|);
      ridx := (ridx + 1) % QUEUE_SIZE;
      Pending := if Pending == [] then Stale(queue[..], ridx) else Pending[1..];
    }

    /** `kbNextMappedKey` and its helpers, once there is input. The event it returns is the first of
        the unread ones, and they are one fewer then, exactly unless all there is is an E0 prefix;
        in that case a stale byte completes the event and 255 more look unread. */
    method NextMappedKey() returns (key: MappedKey)
      requires Valid() && Pending != [] && InTable(NextEvent())
      modifies this`ridx, this`Pending, keyStates
      ensures Valid()
      ensures keyStates[..] == Apply(old(keyStates[..]), old(NextEvent()))
      ensures key == KeyOf(keyStates[..], old(NextEvent()))
      ensures var b := old(if Pending[0] == 0xe0 then queue[(ridx + 1) % QUEUE_SIZE] else Pending[0]);
              && (key.e0 <==> old(Pending)[0] == 0xe0) && (key.down <==> b < 0x80) && key.scancode == b % 0x80
              && (key.printable <==> !key.e0 && Lowercase(b % 0x80) != '?')
      ensures Events(old(Pending)) == [old(NextEvent())] + Events(Pending) <==> old(Pending) != [0xe0]
      ensures old(Pending) == [0xe0] ==> |Pending| == QUEUE_SIZE - 1
      ensures old(Ready(State(), Decodes)) ==> State() == DriverStep(old(State()), Decodes)
    {
      WindowTail(queue[..], ridx, Pending);
      var current := Take();
      if current == 0xe0 {
        key := HandleE0Key();
      } else {
        key := HandleOrdinaryKey(current);
      }
    }

    /** The part of `kbNextMappedKey` for scancodes without an E0 prefix. */
    method HandleOrdinaryKey(current: byte) returns (key: MappedKey)
      requires keyStates.Length == KEY_CODES && InTable(EventOf(current, false))
      modifies keyStates
      ensures keyStates[..] == Apply(old(keyStates[..]), EventOf(current, false))
      ensures key == KeyOf(keyStates[..], EventOf(current, false))
    {
      var pressed := current < 0x80;
      var code: nat := if pressed then current else current - 0x80;
      assert EventOf(current, false) == KeyEvent(code, pressed, false);
      var mapped := Mapped(code);
      if Lowercase(code) == '?' {
        key := HandleUnknownKey(code, mapped, pressed);
      } else {
        key := HandlePrintableKey(code, mapped, pressed);
      }
    }

    /** The tail of `kbNextMappedKey`: a printable key. */
    method HandlePrintableKey(code: nat, mapped: byte, pressed: bool) returns (key: MappedKey)
      requires keyStates.Length == KEY_CODES && code < TABLE_SIZE && mapped == Mapped(code) && Lowercase(code) != '?'
      modifies keyStates
      ensures keyStates[..] == Apply(old(keyStates[..]), KeyEvent(code, pressed, false))
      ensures key == KeyOf(keyStates[..], KeyEvent(code, pressed, false))
    {
      keyStates[mapped] := pressed;
      var capitalized := pressed && (keyStates[KEY_L_SHIFT] || keyStates[KEY_R_SHIFT] || keyStates[KEY_CAPS]);
      return MappedKey(mapped, code, false, true, pressed, capitalized);
    }

    /** `handleE0Key` */
    method HandleE0Key() returns (key: MappedKey)
      requires Valid() && InTable(EventOf(queue[ridx], true))
      modifies this`ridx, this`Pending, keyStates
      ensures Valid()
      ensures if old(Pending) == [] then |Pending| == QUEUE_SIZE - 1 else Pending == old(Pending)[1..]
      ensures keyStates[..] == Apply(old(keyStates[..]), EventOf(queue[old(ridx)], true))
      ensures key == KeyOf(keyStates[..], EventOf(queue[old(ridx)], true))
      ensures key.e0 && !key.printable && (key.down <==> queue[old(ridx)] < 0x80) && key.scancode == queue[old(ridx)] % 0x80
    {
      var current := Take();
      var pressed := current < 0x80;
      var code: nat := if pressed then current else current - 0x80;
      var mapped := SpecialMapped(code);
      keyStates[mapped] := pressed;
      return MappedKey(mapped, code, true, false, pressed, false);
    }

    /** `handleUnknownKey` */
    method HandleUnknownKey(code: nat, mapped: byte, pressed: bool) returns (key: MappedKey)
      requires keyStates.Length == KEY_CODES && code < TABLE_SIZE && mapped == Mapped(code) && Lowercase(code) == '?'
      modifies keyStates
      ensures keyStates[..] == Apply(old(keyStates[..]), KeyEvent(code, pressed, false))
      ensures key == KeyOf(keyStates[..], KeyEvent(code, pressed, false))
    {
      if mapped != KEY_CAPS {
        keyStates[mapped] := pressed;
      } else if pressed {
        keyStates[KEY_CAPS] := !keyStates[KEY_CAPS];
      }
      return MappedKey(mapped, code, false, false, pressed, false);
    }
  }
}
