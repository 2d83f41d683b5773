/** The PS/2 keyboard driver's decoding (kernel/src/drivers/keyboard.rs):
    scancode set 1 to key codes, the modifier state, key events to
    characters, and the 256-entry event buffer the interrupt handler
    fills. The port reads and the controller setup are not modelled: the
    handler is given the byte it read. */
module Keyboard {
  import opened Common

  /** `KeyCode`. The 26 letter keys are `Letter('A')` .. `Letter('Z')`, the
      digit row `Key('0')` .. `Key('9')`, the keypad digits `Keypad('0')` ..
      `Keypad('9')`, and F1 .. F12 are `Function(1)` .. `Function(12)`. */
  datatype KeyCode =
    | Unknown
    | Letter(upper: char)
    | Key(digit: char)
    | Function(n: nat)
    | Escape | Tab | CapsLock | LeftShift | RightShift | LeftCtrl | RightCtrl
    | LeftAlt | RightAlt | Space | Enter | Backspace | Delete | Insert | Home | End
    | PageUp | PageDown
    | Up | Down | Left | Right
    | Minus | Equals | LeftBracket | RightBracket | Backslash | Semicolon | Quote
    | Grave | Comma | Period | Slash
    | NumLock | ScrollLock
    | Keypad(kdigit: char)
    | KeypadPlus | KeypadMinus | KeypadMultiply | KeypadDivide | KeypadEnter | KeypadPeriod

  datatype Modifiers = Modifiers(shift: bool, ctrl: bool, alt: bool, capsLock: bool, numLock: bool)

  const NO_MODIFIERS: Modifiers := Modifiers(false, false, false, false, false)

  datatype KeyEvent = KeyEvent(scancode: byte, keycode: KeyCode, modifiers: Modifiers, pressed: bool)

  const EXTENDED_PREFIX: byte := 0xE0
  const BUFFER_LIMIT: nat := 256

  /** `extended_scancode_to_keycode`: the code after an 0xE0 prefix. */
  function ExtendedKey(code: nat): KeyCode
  {
    match code
    case 0x1C => KeypadEnter
    case 0x1D => RightCtrl
    case 0x35 => KeypadDivide
    case 0x38 => RightAlt
    case 0x47 => Home
    case 0x48 => Up
    case 0x49 => PageUp
    case 0x4B => Left
    case 0x4D => Right
    case 0x4F => End
    case 0x50 => Down
    case 0x51 => PageDown
    case 0x52 => Insert
    case 0x53 => Delete
    case _ => Unknown
  }

  /** `scancode_to_keycode`: set 1 make codes of a US keyboard. */
  function PlainKey(code: nat): KeyCode
  {
    match code
    case 0x01 => Escape
    case 0x02 => Key('1')
    case 0x03 => Key('2')
    case 0x04 => Key('3')
    case 0x05 => Key('4')
    case 0x06 => Key('5')
    case 0x07 => Key('6')
    case 0x08 => Key('7')
    case 0x09 => Key('8')
    case 0x0A => Key('9')
    case 0x0B => Key('0')
    case 0x0C => Minus
    case 0x0D => Equals
    case 0x0E => Backspace
    case 0x0F => Tab
    case 0x10 => Letter('Q')
    case 0x11 => Letter('W')
    case 0x12 => Letter('E')
    case 0x13 => Letter('R')
    case 0x14 => Letter('T')
    case 0x15 => Letter('Y')
    case 0x16 => Letter('U')
    case 0x17 => Letter('I')
    case 0x18 => Letter('O')
    case 0x19 => Letter('P')
    case 0x1A => LeftBracket
    case 0x1B => RightBracket
    case 0x1C => Enter
    case 0x1D => LeftCtrl
    case 0x1E => Letter('A')
    case 0x1F => Letter('S')
    case 0x20 => Letter('D')
    case 0x21 => Letter('F')
    case 0x22 => Letter('G')
    case 0x23 => Letter('H')
    case 0x24 => Letter('J')
    case 0x25 => Letter('K')
    case 0x26 => Letter('L')
    case 0x27 => Semicolon
    case 0x28 => Quote
    case 0x29 => Grave
    case 0x2A => LeftShift
    case 0x2B => Backslash
    case 0x2C => Letter('Z')
    case 0x2D => Letter('X')
    case 0x2E => Letter('C')
    case 0x2F => Letter('V')
    case 0x30 => Letter('B')
    case 0x31 => Letter('N')
    case 0x32 => Letter('M')
    case 0x33 => Comma
    case 0x34 => Period
    case 0x35 => Slash
    case 0x36 => RightShift
    case 0x37 => KeypadMultiply
    case 0x38 => LeftAlt
    case 0x39 => Space
    case 0x3A => CapsLock
    case 0x3B => Function(1)
    case 0x3C => Function(2)
    case 0x3D => Function(3)
    case 0x3E => Function(4)
    case 0x3F => Function(5)
    case 0x40 => Function(6)
    case 0x41 => Function(7)
    case 0x42 => Function(8)
    case 0x43 => Function(9)
    case 0x44 => Function(10)
    case 0x45 => NumLock
    case 0x46 => ScrollLock
    case 0x47 => Keypad('7')
    case 0x48 => Keypad('8')
    case 0x49 => Keypad('9')
    case 0x4A => KeypadMinus
    case 0x4B => Keypad('4')
    case 0x4C => Keypad('5')
    case 0x4D => Keypad('6')
    case 0x4E => KeypadPlus
    case 0x4F => Keypad('1')
    case 0x50 => Keypad('2')
    case 0x51 => Keypad('3')
    case 0x52 => Keypad('0')
    case 0x53 => KeypadPeriod
    case 0x57 => Function(11)
    case 0x58 => Function(12)
    case _ => Unknown
  }

  /** The modifier update of `process_scancode`: shift, ctrl and alt follow
      their keys; caps lock and num lock flip on each press. */
  function Track(m: Modifiers, k: KeyCode, pressed: bool): Modifiers
  {
    match k
    case LeftShift => m.(shift := pressed)
    case RightShift => m.(shift := pressed)
    case LeftCtrl => m.(ctrl := pressed)
    case RightCtrl => m.(ctrl := pressed)
    case LeftAlt => m.(alt := pressed)
    case RightAlt => m.(alt := pressed)
    case CapsLock => if pressed then m.(capsLock := !m.capsLock) else m
    case NumLock => if pressed then m.(numLock := !m.numLock) else m
    case _ => m
  }

  /** `process_scancode`: bit 7 marks a release, the low seven bits name the
      key; the event carries the modifiers after the update. */
  function Process(m: Modifiers, scancode: byte, extended: bool): (r: (Modifiers, KeyEvent))
    ensures r.1.pressed <==> scancode < 0x80
    ensures r.1.scancode == scancode && r.1.modifiers == r.0
  {
    var pressed := scancode < 0x80;
    var code := scancode % 0x80;
    var k := if extended then ExtendedKey(code) else PlainKey(code);
    var m' := Track(m, k, pressed);
    (m', KeyEvent(scancode, k, m', pressed))
  }

  /** A key's make and break codes name the same key. */
  lemma MakeBreakSameKey(m: Modifiers, n: Modifiers, code: byte, extended: bool)
    requires code < 0x80
    ensures Process(m, code, extended).1.keycode == Process(n, code + 0x80, extended).1.keycode
    ensures Process(m, code, extended).1.pressed && !Process(n, code + 0x80, extended).1.pressed
  {
    assert (code + 0x80) % 0x80 == code;
  }

  /** Shift, ctrl and alt are held exactly while their key is down. */
  lemma HeldModifiers(m: Modifiers, k: KeyCode, pressed: bool)
    ensures var r := Track(m, k, pressed);
      && ((k == LeftShift || k == RightShift) ==> r == m.(shift := pressed))
      && ((k == LeftCtrl || k == RightCtrl) ==> r == m.(ctrl := pressed))
      && ((k == LeftAlt || k == RightAlt) ==> r == m.(alt := pressed))
  {
  }

  /** Caps lock and num lock flip on a press and ignore the release; keys
      that are not modifiers leave the modifiers alone. */
  lemma ToggledModifiers(m: Modifiers, k: KeyCode, pressed: bool)
    ensures var r := Track(m, k, pressed);
      && (k == CapsLock ==> r.capsLock == (m.capsLock != pressed) && r == m.(capsLock := r.capsLock))
      && (k == NumLock ==> r.numLock == (m.numLock != pressed) && r == m.(numLock := r.numLock))
      && (!IsModifier(k) ==> r == m)
  {
  }

  predicate IsModifier(k: KeyCode)
  {
    k in {LeftShift, RightShift, LeftCtrl, RightCtrl, LeftAlt, RightAlt, CapsLock, NumLock}
  }

  /** The arrow keys arrive behind the 0xE0 prefix; codes the tables do not
      know are `Unknown`. */
  lemma ExtendedArrows()
    ensures ExtendedKey(0x48) == Up && ExtendedKey(0x50) == Down
    ensures ExtendedKey(0x4B) == Left && ExtendedKey(0x4D) == Right
    ensures ExtendedKey(0x00) == Unknown && PlainKey(0x00) == Unknown
    ensures PlainKey(0x54) == Unknown && PlainKey(0x7F) == Unknown
  {
  }

  // ---------------------------------------------------------------------
  // Characters

  function Lower(c: char): char
  {
    if 'A' <= c <= 'Z' then (c as int + 32) as char else c
  }

  /** The digit row's shifted symbols. */
  function ShiftedDigit(d: char): char
  {
    match d
    case '1' => '!' case '2' => '@' case '3' => '#' case '4' => '$' case '5' => '%'
    case '6' => '^' case '7' => '&' case '8' => '*' case '9' => '(' case _ => ')'
  }

  /** The keys that give a character. */
  predicate HasChar(k: KeyCode)
  {
    || k.Letter? || k.Key? || k.Keypad?
    || k in {Space, Enter, Tab, Backspace, Escape, Delete}
    || k in {Minus, Equals, LeftBracket, RightBracket, Backslash, Semicolon, Quote, Grave, Comma, Period, Slash}
    || k in {KeypadPlus, KeypadMinus, KeypadMultiply, KeypadDivide, KeypadEnter, KeypadPeriod}
  }

  /** The character of a key with shift held or not. */
  function Punctuation(k: KeyCode, shift: bool): char
  {
    match k
    case Minus => if shift then '_' else '-'
    case Equals => if shift then '+' else '='
    case LeftBracket => if shift then '{' else '['
    case RightBracket => if shift then '}' else ']'
    case Backslash => if shift then '|' else '\\'
    case Semicolon => if shift then ':' else ';'
    case Quote => if shift then '"' else '\''
    case Grave => if shift then '~' else '`'
    case Comma => if shift then '<' else ','
    case Period => if shift then '>' else '.'
    case _ => if shift then '?' else '/'
  }

  /** `keyevent_to_char`: releases and keys without a character give none;
      letters are upper case when exactly one of shift and caps lock is
      on; the digit row and punctuation follow shift alone; the keypad
      ignores the modifiers. */
  function ToChar(e: KeyEvent): (r: Option<char>)
    ensures r.Some? <==> e.pressed && HasChar(e.keycode)
  {
    if !e.pressed then None
    else
      var m := e.modifiers;
      match e.keycode
      case Letter(u) => Some(if m.shift != m.capsLock then u else Lower(u))
      case Key(d) => Some(if m.shift then ShiftedDigit(d) else d)
      case Keypad(d) => Some(d)
      case Space => Some(' ')
      case Enter => Some('\n')
      case Tab => Some('\t')
      case Backspace => Some(8 as char)
      case Escape => Some(27 as char)
      case Delete => Some(127 as char)
      case KeypadPlus => Some('+')
      case KeypadMinus => Some('-')
      case KeypadMultiply => Some('*')
      case KeypadDivide => Some('/')
      case KeypadEnter => Some('\n')
      case KeypadPeriod => Some('.')
      case Minus => Some(Punctuation(Minus, m.shift))
      case Equals => Some(Punctuation(Equals, m.shift))
      case LeftBracket => Some(Punctuation(LeftBracket, m.shift))
      case RightBracket => Some(Punctuation(RightBracket, m.shift))
      case Backslash => Some(Punctuation(Backslash, m.shift))
      case Semicolon => Some(Punctuation(Semicolon, m.shift))
      case Quote => Some(Punctuation(Quote, m.shift))
      case Grave => Some(Punctuation(Grave, m.shift))
      case Comma => Some(Punctuation(Comma, m.shift))
      case Period => Some(Punctuation(Period, m.shift))
      case Slash => Some(Punctuation(Slash, m.shift))
      case _ => None
  }

  /** Every letter key the scancode table produces is an upper-case ASCII
      letter, and every digit a decimal digit. */
  lemma TableKeysWellFormed(code: nat, extended: bool)
    ensures var k := if extended then ExtendedKey(code) else PlainKey(code);
      && (k.Letter? ==> 'A' <= k.upper <= 'Z')
      && (k.Key? ==> '0' <= k.digit <= '9')
      && (k.Keypad? ==> '0' <= k.kdigit <= '9')
  {
  }

  /** A letter is upper case exactly when shift and caps lock differ. */
  lemma LetterCase(e: KeyEvent)
    requires e.pressed && e.keycode.Letter? && 'A' <= e.keycode.upper <= 'Z'
    ensures var c := ToChar(e).value;
      && ('A' <= c <= 'Z' <==> e.modifiers.shift != e.modifiers.capsLock)
      && ('a' <= c <= 'z' <==> e.modifiers.shift == e.modifiers.capsLock)
      && Lower(c) == Lower(e.keycode.upper)
  {
  }

  /** The digit row gives its digit without shift and a symbol with it,
      whatever caps lock says; the keypad gives its digit regardless. */
  lemma DigitsUseShift(e: KeyEvent, caps: bool, num: bool)
    requires e.pressed && (e.keycode.Key? || e.keycode.Keypad?)
    ensures var f := e.(modifiers := e.modifiers.(capsLock := caps, numLock := num));
      ToChar(f) == ToChar(e)
    ensures e.keycode.Key? && !e.modifiers.shift ==> ToChar(e) == Some(e.keycode.digit)
    ensures e.keycode.Key? && '0' <= e.keycode.digit <= '9' ==>
      ('0' <= ToChar(e).value <= '9' <==> !e.modifiers.shift)
    ensures e.keycode.Keypad? ==>
      (ToChar(e) == Some(e.keycode.kdigit) && ToChar(e.(modifiers := NO_MODIFIERS)) == ToChar(e))
  {
  }

  // ---------------------------------------------------------------------
  // The interrupt handler and the buffer

  /** The driver's state: the modifiers, whether an 0xE0 prefix is pending,
      and the event queue. */
  datatype Driver = Driver(mods: Modifiers, extended: bool, buffer: seq<KeyEvent>)

  const INITIAL: Driver := Driver(NO_MODIFIERS, false, [])

  /** `handle_interrupt` for the byte read from the data port: a prefix
      only sets the flag; any other byte consumes and clears it, and its
      event is queued unless the queue already holds 256. */
  function HandleInterrupt(d: Driver, scancode: byte): (r: Driver)
    ensures |d.buffer| <= BUFFER_LIMIT ==> |r.buffer| <= BUFFER_LIMIT
    ensures scancode == EXTENDED_PREFIX ==> r == d.(extended := true)
    ensures scancode != EXTENDED_PREFIX ==> !r.extended
  {
    if scancode == EXTENDED_PREFIX then d.(extended := true)
    else
      var (m, e) := Process(d.mods, scancode, d.extended);
      var buf := if |d.buffer| < BUFFER_LIMIT then d.buffer + [e] else d.buffer;
      Driver(m, false, buf)
  }

  /** The byte after a prefix is decoded with the extended table, and the
      one after that with the plain table again. */
  lemma PrefixConsumedOnce(d: Driver, a: byte, b: byte)
    requires a != EXTENDED_PREFIX && b != EXTENDED_PREFIX && |d.buffer| + 2 <= BUFFER_LIMIT
    ensures var d1 := HandleInterrupt(HandleInterrupt(d, EXTENDED_PREFIX), a);
      var d2 := HandleInterrupt(d1, b);
      && d1.buffer == d.buffer + [Process(d.mods, a, true).1]
      && d2.buffer == d1.buffer + [Process(d1.mods, b, false).1]
  {
  }

  /** A full queue drops new events but still tracks the modifiers. */
  lemma FullBufferDrops(d: Driver, scancode: byte)
    requires |d.buffer| >= BUFFER_LIMIT && scancode != EXTENDED_PREFIX
    ensures HandleInterrupt(d, scancode).buffer == d.buffer
    ensures HandleInterrupt(d, scancode).mods == Process(d.mods, scancode, d.extended).0
  {
  }

  /** `read_key`: the oldest event, if any. */
  function ReadKey(buffer: seq<KeyEvent>): (r: (Option<KeyEvent>, seq<KeyEvent>))
    ensures buffer == [] ==> r == (None, [])
    ensures buffer != [] ==> r == (Some(buffer[0]), buffer[1..])
  {
    if buffer == [] then (None, []) else (Some(buffer[0]), buffer[1..])
  }

  /** The events before the first one with a character, and where that one
      sits (or the length, when there is none). */
  function FirstChar(buffer: seq<KeyEvent>): (i: nat)
    ensures i <= |buffer|
    ensures forall k :: 0 <= k < i ==> ToChar(buffer[k]).None?
    ensures i < |buffer| ==> ToChar(buffer[i]).Some?
  {
    if buffer == [] then 0
    else if ToChar(buffer[0]).Some? then 0
    else 1 + FirstChar(buffer[1..])
  }

  /** `get_char`: reads events until one gives a character, which is
      returned; the events read are gone from the queue. */
  method GetChar(buffer: seq<KeyEvent>) returns (c: Option<char>, rest: seq<KeyEvent>)
    ensures var i := FirstChar(buffer);
      && (i == |buffer| ==> c.None? && rest == [])
      && (i < |buffer| ==> c == ToChar(buffer[i]) && rest == buffer[i + 1..])
  {
    rest := buffer;
    var skipped: nat := 0;
    while rest != []
      invariant skipped <= FirstChar(buffer) && rest == buffer[skipped..]
      decreases |rest|
    {
      var e := rest[0];
      rest := rest[1..];
      var ch := ToChar(e);
      if ch.Some? {
        return ch, rest;
      }
      skipped := skipped + 1;
    }
    c := None;
  }
}
