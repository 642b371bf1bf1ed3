/** Keyboard events on their way to LVGL: translation with the modifiers of the moment, and the
    bounded queue between the driver and the read callback. */
module KeyQueue {
  import opened Options

  const QUEUE_SIZE := 32
  const MAX_READ_BATCH := 16
  const TRANSLATED_KEYS := 128
  const KEY_RELEASED := 0
  const KEY_PRESSED := 1
  const KEY_LEFTSHIFT := 42
  const KEY_RIGHTSHIFT := 54
  const KEY_CAPSLOCK := 58

  // ---------------------------------------------------------------- translation

  function Either(shifted: bool, upper: char, lower: char): nat {
    if shifted then upper as nat else lower as nat
  }

  /** Letters, by key code; zero for no letter. */
  function TranslateAlpha(shifted: bool, code: nat): nat {
    match code
    case 16 => Either(shifted, 'Q', 'q') case 17 => Either(shifted, 'W', 'w') case 18 => Either(shifted, 'E', 'e')
    case 19 => Either(shifted, 'R', 'r') case 20 => Either(shifted, 'T', 't') case 21 => Either(shifted, 'Y', 'y')
    case 22 => Either(shifted, 'U', 'u') case 23 => Either(shifted, 'I', 'i') case 24 => Either(shifted, 'O', 'o')
    case 25 => Either(shifted, 'P', 'p') case 30 => Either(shifted, 'A', 'a') case 31 => Either(shifted, 'S', 's')
    case 32 => Either(shifted, 'D', 'd') case 33 => Either(shifted, 'F', 'f') case 34 => Either(shifted, 'G', 'g')
    case 35 => Either(shifted, 'H', 'h') case 36 => Either(shifted, 'J', 'j') case 37 => Either(shifted, 'K', 'k')
    case 38 => Either(shifted, 'L', 'l') case 44 => Either(shifted, 'Z', 'z') case 45 => Either(shifted, 'X', 'x')
    case 46 => Either(shifted, 'C', 'c') case 47 => Either(shifted, 'V', 'v') case 48 => Either(shifted, 'B', 'b')
    case 49 => Either(shifted, 'N', 'n') case 50 => Either(shifted, 'M', 'm')
    case _ => 0
  }

  /** Digits and punctuation; Caps Lock shifts these too. */
  function TranslateSymbol(shifted: bool, code: nat): nat {
    match code
    case 2 => Either(shifted, '!', '1') case 3 => Either(shifted, '@', '2') case 4 => Either(shifted, '#', '3')
    case 5 => Either(shifted, '$', '4') case 6 => Either(shifted, '%', '5') case 7 => Either(shifted, '^', '6')
    case 8 => Either(shifted, '&', '7') case 9 => Either(shifted, '*', '8') case 10 => Either(shifted, '(', '9')
    case 11 => Either(shifted, ')', '0') case 57 => ' ' as nat
    case 12 => Either(shifted, '_', '-') case 13 => Either(shifted, '+', '=')
    case 26 => Either(shifted, '{', '[') case 27 => Either(shifted, '}', ']')
    case 43 => Either(shifted, '|', '\\') case 39 => Either(shifted, ':', ';')
    case 40 => Either(shifted, '"', '\'') case 41 => Either(shifted, '~', '`')
    case 51 => Either(shifted, '<', ',') case 52 => Either(shifted, '>', '.') case 53 => Either(shifted, '?', '/')
    case 82 => '0' as nat case 79 => '1' as nat case 80 => '2' as nat case 81 => '3' as nat case 75 => '4' as nat
    case 76 => '5' as nat case 77 => '6' as nat case 71 => '7' as nat case 72 => '8' as nat case 73 => '9' as nat
    case 83 => '.' as nat case 78 => '+' as nat case 74 => '-' as nat case 98 => '/' as nat case 55 => '*' as nat
    case _ => 0
  }

  /** Enter, Escape, Backspace, Delete, Tab, the arrows, Home, End and the page keys, as LVGL's codes. */
  function TranslateSpecial(shift: bool, code: nat): nat {
    match code
    case 28 => 10 case 96 => 10 case 1 => 27 case 14 => 8 case 111 => 127
    case 15 => if shift then 11 else 9
    case 103 => 17 case 108 => 18 case 105 => 20 case 106 => 19
    case 102 => 2 case 107 => 3 case 104 => 11 case 109 => 9
    case _ => 0
  }

  function Translate(shift: bool, caps: bool, code: nat): nat {
    var special := TranslateSpecial(shift, code);
    if special != 0 then special
    else
      var shifted := shift != caps;
      var alpha := TranslateAlpha(shifted, code);
      if alpha != 0 then alpha else TranslateSymbol(shifted, code)
  }

  /** Every key that can be translated has a place in the table, and is no modifier. Whether it
      can be translated does not depend on the modifiers. */
  lemma Translatable(shift: bool, caps: bool, code: nat)
    requires Translate(shift, caps, code) != 0
    ensures code < TRANSLATED_KEYS && !IsShift(code) && code != KEY_CAPSLOCK
    ensures forall s, c :: Translate(s, c, code) != 0
  {
    assert TranslateAlpha(true, code) != 0 <==> TranslateAlpha(false, code) != 0;
    assert TranslateSymbol(true, code) != 0 <==> TranslateSymbol(false, code) != 0;
    assert TranslateSpecial(true, code) != 0 <==> TranslateSpecial(false, code) != 0;
  }

  /** The four rows of an American keyboard, plain and shifted, and the code of their first keys. */
  datatype KeyRow = KeyRow(first: nat, plain: string, shifted: string)

  const ROW1 := KeyRow(2, "1234567890-=", "!@#$%^&*()_+")
  const ROW2 := KeyRow(16, "qwertyuiop[]", "QWERTYUIOP{}")
  const ROW3 := KeyRow(30, "asdfghjkl;'`", "ASDFGHJKL:\"~")
  const ROW4 := KeyRow(43, "\\zxcvbnm,./", "|ZXCVBNM<>?")

  /** The keypad, on which nothing shifts. */
  const KEYPAD := KeyRow(71, "789-456+1230.", "789-456+1230.")
  const KEYPAD_TIMES := KeyRow(55, "*", "*")
  const KEYPAD_SLASH := KeyRow(98, "/", "/")
  const SPACE := KeyRow(57, " ", " ")

  const ROWS := [ROW1, ROW2, ROW3, ROW4, KEYPAD, KEYPAD_TIMES, KEYPAD_SLASH, SPACE]

  /** The tables are that layout. Shift and Caps Lock both shift, and cancel each other, on every key. */
  lemma AmericanLayout(row: nat, k: nat, shift: bool, caps: bool)
    requires row < |ROWS| && k < |ROWS[row].plain| == |ROWS[row].shifted|
    ensures Translate(shift, caps, ROWS[row].first + k) ==
            (if shift != caps then ROWS[row].shifted[k] else ROWS[row].plain[k]) as nat
  {
    SingleKeys(shift, caps);
    hide Translate;
    match row
    case 0 => Row1(k, shift, caps);
    case 1 => Row2(k, shift, caps);
    case 2 => Row3(k, shift, caps);
    case 3 => Row4(k, shift, caps);
    case 4 => Keypad(k, shift, caps);
    case _ =>
  }

  /** Escape, Backspace, both Enter keys, Delete, up, down, left, right, Home, End, and the page
      keys as previous and next, by key code; Tab is next or, shifted, previous. */
  const SPECIAL: map<nat, nat> :=
    map[1 := 27, 14 := 8, 28 := 10, 96 := 10, 111 := 127, 103 := 17, 108 := 18, 105 := 20, 106 := 19, 102 := 2,
        107 := 3, 104 := 11, 109 := 9]
  const TAB := 15

  lemma SpecialKeys(code: nat, shift: bool, caps: bool)
    ensures code in SPECIAL ==> Translate(shift, caps, code) == SPECIAL[code]
    ensures Translate(shift, caps, TAB) == if shift then 11 else 9
  {
  }

  /** No other key is translated. */
  lemma OtherKeys(code: nat, shift: bool, caps: bool)
    requires code !in SPECIAL && code != TAB
    requires forall r | 0 <= r < |ROWS| :: !(ROWS[r].first <= code < ROWS[r].first + |ROWS[r].plain|)
    ensures Translate(shift, caps, code) == 0
  {
    assert ROWS[0] == ROW1 && ROWS[1] == ROW2 && ROWS[2] == ROW3 && ROWS[3] == ROW4 && ROWS[4] == KEYPAD;
    assert ROWS[5] == KEYPAD_TIMES && ROWS[6] == KEYPAD_SLASH && ROWS[7] == SPACE;
  }

  lemma Row1(k: nat, shift: bool, caps: bool)
    requires k < 12
    ensures Translate(shift, caps, 2 + k) == (if shift != caps then ROW1.shifted[k] else ROW1.plain[k]) as nat
  {
  }

  lemma Row2(k: nat, shift: bool, caps: bool)
    requires k < 12
    ensures Translate(shift, caps, 16 + k) == (if shift != caps then ROW2.shifted[k] else ROW2.plain[k]) as nat
  {
  }

  lemma Row3(k: nat, shift: bool, caps: bool)
    requires k < 12
    ensures Translate(shift, caps, 30 + k) == (if shift != caps then ROW3.shifted[k] else ROW3.plain[k]) as nat
  {
  }

  lemma Row4(k: nat, shift: bool, caps: bool)
    requires k < 11
    ensures Translate(shift, caps, 43 + k) == (if shift != caps then ROW4.shifted[k] else ROW4.plain[k]) as nat
  {
  }

  lemma SingleKeys(shift: bool, caps: bool)
    ensures Translate(shift, caps, 55) == '*' as nat && Translate(shift, caps, 98) == '/' as nat
    ensures Translate(shift, caps, 57) == ' ' as nat
  {
  }

  lemma Keypad(k: nat, shift: bool, caps: bool)
    requires k < 13
    ensures Translate(shift, caps, 71 + k) == KEYPAD.plain[k] as nat
  {
  }

  // ---------------------------------------------------------------- one event

  /** An event of the driver, with the tick at which it is handled. */
  datatype Event = Event(code: nat, value: int, tick: nat)

  datatype KeyEvent = KeyEvent(key: nat, pressed: bool, tick: nat)

  /** Shift, Caps Lock, and what each key that is down was translated to. */
  datatype Keyboard = Keyboard(shift: bool, caps: bool, table: seq<nat>) {
    predicate Valid() { |table| == TRANSLATED_KEYS }
  }

  function Idle(): Keyboard {
    Keyboard(false, false, seq(TRANSLATED_KEYS, _ => 0))
  }

  predicate IsShift(code: nat) { code == KEY_LEFTSHIFT || code == KEY_RIGHTSHIFT }

  predicate Toggles(e: Event) { e.code == KEY_CAPSLOCK && e.value == KEY_PRESSED }

  predicate Remembered(k: Keyboard, e: Event)
    requires k.Valid()
  {
    e.value == KEY_RELEASED && e.code < TRANSLATED_KEYS && k.table[e.code] != 0
  }

  function Next(k: Keyboard, e: Event): (r: Keyboard)
    requires k.Valid()
    ensures r.Valid()
  {
    if IsShift(e.code) then k.(shift := e.value != KEY_RELEASED)
    else if Toggles(e) then k.(caps := !k.caps)
    else if Remembered(k, e) then k.(table := k.table[e.code := 0])
    else if e.value != KEY_RELEASED && e.code < TRANSLATED_KEYS then
      k.(table := k.table[e.code := Translate(k.shift, k.caps, e.code)])
    else k
  }

  /** The key an event stands for, or zero. */
  function KeyOf(k: Keyboard, e: Event): nat
    requires k.Valid()
  {
    if IsShift(e.code) || Toggles(e) then 0
    else if Remembered(k, e) then k.table[e.code]
    else Translate(k.shift, k.caps, e.code)
  }

  function Output(k: Keyboard, e: Event): (r: seq<KeyEvent>)
    requires k.Valid()
    ensures |r| <= 1
  {
    var key := KeyOf(k, e);
    if key == 0 then [] else [KeyEvent(key, e.value != KEY_RELEASED, e.tick)]
  }

  function After(k: Keyboard, es: seq<Event>): (r: Keyboard)
    requires k.Valid()
    ensures r.Valid()
  {
    if es == [] then k else Next(After(k, es[..|es| - 1]), es[|es| - 1])
  }

  function Emitted(k: Keyboard, es: seq<Event>): (r: seq<KeyEvent>)
    requires k.Valid()
    ensures |r| <= |es|
  {
    if es == [] then []
    else Emitted(k, es[..|es| - 1]) + Output(After(k, es[..|es| - 1]), es[|es| - 1])
  }

  lemma {:induction false} AfterJoin(k: Keyboard, es: seq<Event>, fs: seq<Event>)
    requires k.Valid()
    ensures After(k, es + fs) == After(After(k, es), fs)
    ensures Emitted(k, es + fs) == Emitted(k, es) + Emitted(After(k, es), fs)
    decreases |fs|
  {
    hide Next, Output;
    if fs == [] {
      assert es + fs == es;
    } else {
      var front := fs[..|fs| - 1];
      assert (es + fs)[..|es + fs| - 1] == es + front;
      AfterJoin(k, es, front);
    }
  }

  // ---------------------------------------------------------------- a release carries its press

  /** Shift is whatever the last event of either shift key made it. */
  predicate ShiftDown(es: seq<Event>) {
    es != [] &&
    var last := es[|es| - 1];
    if IsShift(last.code) then last.value != KEY_RELEASED else ShiftDown(es[..|es| - 1])
  }

  /** Caps Lock is on after an odd number of presses. */
  function CapsPresses(es: seq<Event>): nat {
    if es == [] then 0
    else CapsPresses(es[..|es| - 1]) + if Toggles(es[|es| - 1]) then 1 else 0
  }

  lemma {:induction false} Modifiers(es: seq<Event>)
    ensures After(Idle(), es).shift == ShiftDown(es)
    ensures After(Idle(), es).caps == (CapsPresses(es) % 2 == 1)
    decreases |es|
  {
    if es != [] {
      Modifiers(es[..|es| - 1]);
    }
  }

  /** What the last press or repeat of a key, if it has not been released since, was translated
      to: a specification over the whole stream of events. */
  function LatestPress(es: seq<Event>, code: nat): nat {
    if es == [] then 0
    else
      var front, last := es[..|es| - 1], es[|es| - 1];
      if last.code != code then LatestPress(front, code)
      else if last.value == KEY_RELEASED then 0
      else Translate(ShiftDown(front), CapsPresses(front) % 2 == 1, code)
  }

  /** The table holds exactly that for every key that can be translated. */
  lemma {:induction false} TableHoldsPress(es: seq<Event>, code: nat)
    requires Translate(false, false, code) != 0
    ensures code < TRANSLATED_KEYS
    ensures After(Idle(), es).table[code] == LatestPress(es, code)
    decreases |es|
  {
    hide Translate;
    Translatable(false, false, code);
    if es != [] {
      TableHoldsPress(es[..|es| - 1], code);
      Modifiers(es[..|es| - 1]);
    }
  }

  /** In any stream, the release of a key carries what its latest press or repeat was translated
      to, whatever Shift and Caps Lock did in between. */
  lemma ReleaseCarriesPress(es: seq<Event>, press: nat, code: nat, tick: nat)
    requires press < |es| && es[press].code == code && es[press].value != KEY_RELEASED
    requires forall i | press < i < |es| :: es[i].code != code
    requires Translate(false, false, code) != 0
    ensures var key := Translate(ShiftDown(es[..press]), CapsPresses(es[..press]) % 2 == 1, code);
            && Output(After(Idle(), es[..press]), es[press]) == [KeyEvent(key, true, es[press].tick)]
            && Output(After(Idle(), es), Event(code, KEY_RELEASED, tick)) == [KeyEvent(key, false, tick)]
  {
    hide Translate, After, ShiftDown, CapsPresses, LatestPress;
    Translatable(false, false, code);
    Modifiers(es[..press]);
    TableHoldsPress(es, code);
    PressIsLatest(es, press, code);
  }

  lemma {:induction false} PressIsLatest(es: seq<Event>, press: nat, code: nat)
    requires press < |es| && es[press].code == code && es[press].value != KEY_RELEASED
    requires forall i | press < i < |es| :: es[i].code != code
    ensures LatestPress(es, code) == Translate(ShiftDown(es[..press]), CapsPresses(es[..press]) % 2 == 1, code)
    decreases |es|
  {
    hide Translate, ShiftDown, CapsPresses;
    if press < |es| - 1 {
      var front := es[..|es| - 1];
      assert front[..press] == es[..press];
      PressIsLatest(front, press, code);
    }
  }

  // ---------------------------------------------------------------- the queue

  function Last(q: seq<KeyEvent>, n: nat): (r: seq<KeyEvent>)
    ensures |r| == if |q| < n then |q| else n
  {
    if |q| <= n then q else q[|q| - n..]
  }

  function Push(q: seq<KeyEvent>, e: KeyEvent): seq<KeyEvent> {
    (if |q| >= QUEUE_SIZE then q[1..] else q) + [e]
  }

  function PushAll(q: seq<KeyEvent>, es: seq<KeyEvent>): seq<KeyEvent> {
    if es == [] then q else Push(PushAll(q, es[..|es| - 1]), es[|es| - 1])
  }

  /** The queue keeps the newest events in order, and loses only the oldest. */
  lemma {:induction false} QueueKeepsNewest(q: seq<KeyEvent>, es: seq<KeyEvent>)
    requires |q| <= QUEUE_SIZE
    ensures PushAll(q, es) == Last(q + es, QUEUE_SIZE)
    decreases |es|
  {
    if es == [] {
      assert q + es == q;
    } else {
      var front := es[..|es| - 1];
      QueueKeepsNewest(q, front);
      assert q + es == (q + front) + [es[|es| - 1]];
    }
  }

  lemma {:induction false} PushAllJoin(q: seq<KeyEvent>, es: seq<KeyEvent>, fs: seq<KeyEvent>)
    ensures PushAll(q, es + fs) == PushAll(PushAll(q, es), fs)
    decreases |fs|
  {
    hide Push;
    if fs == [] {
      assert es + fs == es;
    } else {
      assert (es + fs)[..|es + fs| - 1] == es + fs[..|fs| - 1];
      PushAllJoin(q, es, fs[..|fs| - 1]);
    }
  }

  // ---------------------------------------------------------------- batches and reads

  function Joined(frames: seq<seq<Event>>): (r: seq<Event>) {
    if frames == [] then [] else frames[0] + Joined(frames[1..])
  }

  /** How many frames one collection takes. A driver read that brings no frame is an empty one. */
  function Consumed(k: Keyboard, q: seq<KeyEvent>, frames: seq<seq<Event>>, taken: nat): (n: nat)
    requires k.Valid()
    ensures n <= |frames|
    decreases |frames|
  {
    if |q| >= QUEUE_SIZE || taken >= MAX_READ_BATCH || frames == [] || frames[0] == [] then 0
    else 1 + Consumed(After(k, frames[0]), PushAll(q, Emitted(k, frames[0])), frames[1..], taken + 1)
  }

  function Batch(k: Keyboard, q: seq<KeyEvent>, frames: seq<seq<Event>>): seq<Event>
    requires k.Valid()
  {
    Joined(frames[..Consumed(k, q, frames, 0)])
  }

  datatype State = State(kb: Keyboard, queue: seq<KeyEvent>, active: nat, activePressed: bool) {
    predicate Valid() { kb.Valid() && |queue| <= QUEUE_SIZE }
  }

  datatype Report = Report(key: nat, pressed: bool, tick: nat, more: bool)

  /** The frames waiting when LVGL reads, and the tick of the read. */
  datatype Call = Call(frames: seq<seq<Event>>, now: nat)

  /** The events one read handles: none while earlier ones are still queued. */
  function Handled(s: State, c: Call): seq<Event>
    requires s.Valid()
  {
    if s.queue == [] then Batch(s.kb, [], c.frames) else []
  }

  /** The queue from which the read takes its event. */
  function Pending(s: State, c: Call): (q: seq<KeyEvent>)
    requires s.Valid()
    ensures |q| <= QUEUE_SIZE
  {
    if s.queue == [] then Last(Emitted(s.kb, Handled(s, c)), QUEUE_SIZE) else s.queue
  }

  function Read(s: State, c: Call): (r: State)
    requires s.Valid()
    ensures r.Valid()
  {
    var kb, q := After(s.kb, Handled(s, c)), Pending(s, c);
    if q == [] then State(kb, q, s.active, s.activePressed) else State(kb, q[1..], q[0].key, q[0].pressed)
  }

  /** Without an event the active key is reported again. */
  function Reported(s: State, c: Call): Report
    requires s.Valid()
  {
    var q := Pending(s, c);
    if q == [] then Report(s.active, s.activePressed, c.now, false)
    else Report(q[0].key, q[0].pressed, q[0].tick, |q| > 1)
  }

  // ---------------------------------------------------------------- whole runs

  function Run(s: State, cs: seq<Call>): (r: State)
    requires s.Valid()
    ensures r.Valid()
  {
    if cs == [] then s else Read(Run(s, cs[..|cs| - 1]), cs[|cs| - 1])
  }

  /** The event a read takes from the queue, if there is one. */
  function Popped(s: State, c: Call): seq<KeyEvent>
    requires s.Valid()
  {
    if Pending(s, c) == [] then [] else [Pending(s, c)[0]]
  }

  /** The events the reads have delivered. */
  function Delivered(s: State, cs: seq<Call>): seq<KeyEvent>
    requires s.Valid()
  {
    if cs == [] then []
    else Delivered(s, cs[..|cs| - 1]) + Popped(Run(s, cs[..|cs| - 1]), cs[|cs| - 1])
  }

  /** The events of the driver that the reads have handled. */
  function AllHandled(s: State, cs: seq<Call>): seq<Event>
    requires s.Valid()
  {
    if cs == [] then []
    else AllHandled(s, cs[..|cs| - 1]) + Handled(Run(s, cs[..|cs| - 1]), cs[|cs| - 1])
  }

  /** Batch after batch, the newest 32 key events of each. */
  function Kept(s: State, cs: seq<Call>): seq<KeyEvent>
    requires s.Valid()
  {
    if cs == [] then []
    else
      var front := Run(s, cs[..|cs| - 1]);
      Kept(s, cs[..|cs| - 1]) + Last(Emitted(front.kb, Handled(front, cs[|cs| - 1])), QUEUE_SIZE)
  }

  /** Every event that enters is either delivered, in order and once, or still queued; of each
      batch only the oldest beyond 32 are lost. */
  lemma {:induction false} DeliveredInOrder(s: State, cs: seq<Call>)
    requires s.Valid()
    ensures s.queue + Kept(s, cs) == Delivered(s, cs) + Run(s, cs).queue
    decreases |cs|
  {
    hide Pending, Read, Handled, Last, Emitted;
    if cs == [] {
      assert s.queue + [] == s.queue == [] + s.queue;
    } else {
      var front, c := cs[..|cs| - 1], cs[|cs| - 1];
      var r := Run(s, front);
      DeliveredInOrder(s, front);
      ReadPops(r, c);
      Rearranged(s.queue, Kept(s, front), Delivered(s, front), r.queue,
                 Last(Emitted(r.kb, Handled(r, c)), QUEUE_SIZE), Popped(r, c), Read(r, c).queue);
    }
  }

  lemma Rearranged(x: seq<KeyEvent>, kept: seq<KeyEvent>, delivered: seq<KeyEvent>, queue: seq<KeyEvent>,
                   batch: seq<KeyEvent>, popped: seq<KeyEvent>, rest: seq<KeyEvent>)
    requires x + kept == delivered + queue && queue + batch == popped + rest
    ensures x + (kept + batch) == (delivered + popped) + rest
  {
    assert x + (kept + batch) == (x + kept) + batch;
    assert (delivered + queue) + batch == delivered + (queue + batch);
    assert (delivered + popped) + rest == delivered + (popped + rest);
  }

  lemma ReadPops(s: State, c: Call)
    requires s.Valid()
    ensures s.queue + Last(Emitted(s.kb, Handled(s, c)), QUEUE_SIZE) == Popped(s, c) + Read(s, c).queue
  {
    hide Batch, After;
    var q := Pending(s, c);
    assert Popped(s, c) + Read(s, c).queue == q;
    if s.queue == [] {
      assert [] + Last(Emitted(s.kb, Handled(s, c)), QUEUE_SIZE) == q;
    } else {
      assert Emitted(s.kb, []) == [];
      assert s.queue + [] == q;
    }
  }

  /** The key and state of the last of some events, or the given ones. */
  function LastOr(es: seq<KeyEvent>, key: nat, pressed: bool): (nat, bool) {
    if es == [] then (key, pressed) else (es[|es| - 1].key, es[|es| - 1].pressed)
  }

  lemma {:induction false} ActiveIsLast(s: State, cs: seq<Call>)
    requires s.Valid()
    ensures (Run(s, cs).active, Run(s, cs).activePressed) == LastOr(Delivered(s, cs), s.active, s.activePressed)
    decreases |cs|
  {
    hide Pending, Handled, After;
    if cs != [] {
      ActiveIsLast(s, cs[..|cs| - 1]);
    }
  }

  /** What LVGL is told at the end of any run: if the read delivers an event, that event with its
      own tick, and to read on just when the queue still holds events; if not, the key and state
      delivered last, with the tick of the read, and not to read on. */
  lemma ReportLaw(s: State, cs: seq<Call>, c: Call)
    requires s.Valid()
    ensures var before, now := Delivered(s, cs), Delivered(s, cs + [c]);
            var r := Reported(Run(s, cs), c);
            && before <= now && |now| <= |before| + 1
            && (r.key, r.pressed) == LastOr(now, s.active, s.activePressed)
            && (r.more <==> |now| > |before| && Run(s, cs + [c]).queue != [])
            && r.tick == (if |now| > |before| then now[|before|].tick else c.now)
            && (|now| == |before| ==> Run(s, cs + [c]).queue == [])
  {
    hide Pending, Handled, After;
    assert (cs + [c])[..|cs|] == cs;
    ActiveIsLast(s, cs);
  }

  /** The keyboard state is that of the whole stream of handled events, so what is said about
      streams holds across reads. */
  lemma {:induction false} KeyboardOfRun(s: State, cs: seq<Call>)
    requires s.Valid()
    ensures Run(s, cs).kb == After(s.kb, AllHandled(s, cs))
    decreases |cs|
  {
    hide Handled, Pending, After;
    if cs != [] {
      KeyboardOfRun(s, cs[..|cs| - 1]);
      AfterJoin(s.kb, AllHandled(s, cs[..|cs| - 1]), Handled(Run(s, cs[..|cs| - 1]), cs[|cs| - 1]));
    } else {
      NoEvents(s.kb);
    }
  }

  lemma NoEvents(k: Keyboard)
    requires k.Valid()
    ensures After(k, []) == k && Emitted(k, []) == []
  {
  }

  lemma {:induction false} JoinedSnoc(frames: seq<seq<Event>>, n: nat)
    requires n < |frames|
    ensures Joined(frames[..n + 1]) == Joined(frames[..n]) + frames[n]
    decreases n
  {
    if n > 0 {
      JoinedSnoc(frames[1..], n - 1);
      assert frames[..n + 1][1..] == frames[1..][..n];
      assert frames[..n][1..] == frames[1..][..n - 1];
    } else {
      assert frames[..1][1..] == [];
    }
  }

  /** A collection stops as soon as the queue is full, so a batch exceeds 31 events by no more
      than its last frame, and frames of single events lose nothing. */
  lemma {:induction false} LossIsBounded(k: Keyboard, q: seq<KeyEvent>, frames: seq<seq<Event>>, taken: nat, m: nat)
    requires k.Valid() && |q| <= QUEUE_SIZE && forall i | 0 <= i < |frames| :: |frames[i]| <= m
    ensures var n := Consumed(k, q, frames, taken);
            n > 0 ==> |q| + |Emitted(k, Joined(frames[..n]))| < QUEUE_SIZE + m
    decreases |frames|
  {
    hide Emitted, After, PushAll, Joined;
    var n := Consumed(k, q, frames, taken);
    if n > 0 {
      var f, rest := frames[0], Joined(frames[1..][..n - 1]);
      FirstFrame(frames, n);
      AfterJoin(k, f, rest);
      QueueKeepsNewest(q, Emitted(k, f));
      LossIsBounded(After(k, f), PushAll(q, Emitted(k, f)), frames[1..], taken + 1, m);
      if n == 1 { NoFrames(After(k, f), frames[1..]); }
    }
  }

  /** A collection takes frame after frame while the queue has room, at most sixteen, and ends only
      when the queue is full, the sixteen are taken, or the driver has no further events. */
  lemma {:induction false} BatchEnds(k: Keyboard, q: seq<KeyEvent>, frames: seq<seq<Event>>, taken: nat)
    requires k.Valid() && |q| <= QUEUE_SIZE && taken <= 16
    ensures var n := Consumed(k, q, frames, taken);
            && taken + n <= 16
            && (forall i | 0 <= i < n :: frames[i] != [] && |q + Emitted(k, Joined(frames[..i]))| < 32)
            && (n < |frames| ==>
                  taken + n == 16 || frames[n] == [] || |q + Emitted(k, Joined(frames[..n]))| >= 32)
    decreases |frames|
  {
    hide Emitted, After, PushAll, Joined;
    var n := Consumed(k, q, frames, taken);
    NoFrames(k, frames);
    if n > 0 {
      var f, rest := frames[0], frames[1..];
      var q' := PushAll(q, Emitted(k, f));
      QueueKeepsNewest(q, Emitted(k, f));
      BatchEnds(After(k, f), q', rest, taken + 1);
      forall i | 0 < i <= n
        ensures |q + Emitted(k, Joined(frames[..i]))| < 32 <==> |q' + Emitted(After(k, f), Joined(rest[..i - 1]))| < 32
      {
        FirstFrame(frames, i);
        AfterJoin(k, f, Joined(rest[..i - 1]));
      }
    }
  }

  lemma FirstFrame(frames: seq<seq<Event>>, n: nat)
    requires 0 < n <= |frames|
    ensures Joined(frames[..n]) == frames[0] + Joined(frames[1..][..n - 1])
  {
    assert frames[..n][1..] == frames[1..][..n - 1];
  }

  lemma NoFrames(k: Keyboard, frames: seq<seq<Event>>)
    requires k.Valid()
    ensures Emitted(k, Joined(frames[..0])) == []
  {
  }

  // ---------------------------------------------------------------- the context

  class Context {
    var shift: bool
    var caps: bool
    const translated: array<nat>
    const events: array<KeyEvent>
    var count: nat
    var active: nat
    var activePressed: bool

    ghost predicate Valid()
      reads this, translated, events
    {
      && translated.Length == TRANSLATED_KEYS && events.Length == QUEUE_SIZE && count <= QUEUE_SIZE
      && translated as object != events as object
    }

    ghost function Kb(): (k: Keyboard)
      reads this, translated
      requires translated.Length == TRANSLATED_KEYS
      ensures k.Valid()
    {
      Keyboard(shift, caps, translated[..])
    }

    ghost function Queue(): (q: seq<KeyEvent>)
      reads this, events
      requires count <= events.Length
    {
      events[..count]
    }

    ghost function Abs(): (s: State)
      reads this, translated, events
      requires Valid()
      ensures s.Valid()
    {
      State(Kb(), Queue(), active, activePressed)
    }

    constructor ()
      ensures Valid() && fresh(translated) && fresh(events)
      ensures Abs() == State(Idle(), [], 0, false)
    {
      shift, caps, count, active, activePressed := false, false, 0, 0, false;
      translated := new nat[TRANSLATED_KEYS](_ => 0);
      events := new KeyEvent[QUEUE_SIZE](_ => KeyEvent(0, false, 0));
      new;
      assert translated[..] == seq(TRANSLATED_KEYS, _ => 0);
    }

    /** Move the other events to the front. */
    method DropFirst()
      requires Valid() && count > 0
      modifies `count, events
      ensures Valid() && Queue() == old(Queue())[1..]
    {
      forall i | 0 <= i < count - 1 { events[i] := events[i + 1]; }
      count := count - 1;
    }

    /** A full queue first drops its oldest event. */
    method Enqueue(key: nat, pressed: bool, tick: nat) returns (queued: bool)
      requires Valid()
      modifies `count, events
      ensures Valid() && queued == (key != 0)
      ensures Queue() == if queued then Push(old(Queue()), KeyEvent(key, pressed, tick)) else old(Queue())
    {
      if key == 0 { return false; }
      if count >= QUEUE_SIZE { DropFirst(); }
      Append(KeyEvent(key, pressed, tick));
      return true;
    }

    method Append(e: KeyEvent)
      requires Valid() && count < QUEUE_SIZE
      modifies `count, events
      ensures Valid() && Queue() == old(Queue()) + [e]
    {
      events[count] := e;
      count := count + 1;
    }

    /** One event of a frame. */
    method Handle(e: Event)
      requires Valid()
      modifies `shift, `caps, `count, translated, events
      ensures Valid()
      ensures Kb() == Next(old(Kb()), e)
      ensures Queue() == PushAll(old(Queue()), Output(old(Kb()), e))
    {
      if IsShift(e.code) {
        shift := e.value != KEY_RELEASED;
        return;
      }
      if e.code == KEY_CAPSLOCK && e.value == KEY_PRESSED {
        caps := !caps;
        return;
      }
      var key;
      if e.value == KEY_RELEASED && e.code < TRANSLATED_KEYS && translated[e.code] != 0 {
        key := translated[e.code];
        translated[e.code] := 0;
      } else {
        key := Translate(shift, caps, e.code);
        if e.value != KEY_RELEASED && e.code < TRANSLATED_KEYS {
          translated[e.code] := key;
        }
      }
      if key == 0 { return; }
      var queued := Enqueue(key, e.value != KEY_RELEASED, e.tick);
    }

    method HandleFrame(frame: seq<Event>)
      requires Valid()
      modifies `shift, `caps, `count, translated, events
      ensures Valid()
      ensures Kb() == After(old(Kb()), frame)
      ensures Queue() == PushAll(old(Queue()), Emitted(old(Kb()), frame))
    {
      hide Next, Output;
      var index := 0;
      while index < |frame|
        invariant Valid() && index <= |frame|
        invariant Kb() == After(old(Kb()), frame[..index])
        invariant Queue() == PushAll(old(Queue()), Emitted(old(Kb()), frame[..index]))
      {
        assert frame[..index + 1][..index] == frame[..index];
        PushAllJoin(old(Queue()), Emitted(old(Kb()), frame[..index]), Output(Kb(), frame[index]));
        Handle(frame[index]);
        index := index + 1;
      }
      assert frame[..index] == frame;
    }

    /** Read frames until the queue is full, the batch is, or the driver has none. */
    method Collect(frames: seq<seq<Event>>) returns (taken: nat)
      requires Valid()
      modifies `shift, `caps, `count, translated, events
      ensures Valid() && taken == Consumed(old(Kb()), old(Queue()), frames, 0)
      ensures Kb() == After(old(Kb()), Joined(frames[..taken]))
      ensures Queue() == PushAll(old(Queue()), Emitted(old(Kb()), Joined(frames[..taken])))
    {
      hide Emitted, After, PushAll;
      taken := 0;
      NoEvents(Kb());
      PushNone(Queue());
      while count < QUEUE_SIZE && taken < MAX_READ_BATCH
        invariant Valid() && taken <= |frames| && taken <= MAX_READ_BATCH
        invariant Kb() == After(old(Kb()), Joined(frames[..taken]))
        invariant Queue() == PushAll(old(Queue()), Emitted(old(Kb()), Joined(frames[..taken])))
        invariant taken + Consumed(Kb(), Queue(), frames[taken..], taken)
               == Consumed(old(Kb()), old(Queue()), frames, 0)
        decreases MAX_READ_BATCH - taken
      {
        if taken == |frames| || frames[taken] == [] { break; }
        var frame := frames[taken];
        assert frames[taken..][0] == frame && frames[taken..][1..] == frames[taken + 1..];
        JoinedSnoc(frames, taken);
        AfterJoin(old(Kb()), Joined(frames[..taken]), frame);
        PushAllJoin(old(Queue()), Emitted(old(Kb()), Joined(frames[..taken])), Emitted(Kb(), frame));
        HandleFrame(frame);
        taken := taken + 1;
      }
    }

    /** Take the first event, or report the active key again. */
    method Deliver(now: nat) returns (report: Report)
      requires Valid()
      modifies `active, `activePressed, `count, events
      ensures Valid()
      ensures old(Queue()) == [] ==> unchanged(this) && report == Report(active, activePressed, now, false)
      ensures old(Queue()) != [] ==>
                && Queue() == old(Queue())[1..]
                && active == old(Queue())[0].key && activePressed == old(Queue())[0].pressed
                && report == Report(active, activePressed, old(Queue())[0].tick, |old(Queue())| > 1)
    {
      report := Report(active, activePressed, now, false);
      if count > 0 {
        var event := events[0];
        DropFirst();
        active, activePressed := event.key, event.pressed;
        report := Report(event.key, event.pressed, event.tick, count > 0);
      }
    }

    /** The read callback of LVGL. */
    method KeypadRead(c: Call) returns (report: Report)
      requires Valid()
      modifies this, translated, events
      ensures Valid() && Abs() == Read(old(Abs()), c) && report == Reported(old(Abs()), c)
    {
      hide Emitted, After, PushAll, Consumed, Joined, Last;
      if count == 0 {
        assert Queue() == [];
        var taken := Collect(c.frames);
        QueueKeepsNewest([], Emitted(old(Kb()), Handled(old(Abs()), c)));
        assert [] + Emitted(old(Kb()), Handled(old(Abs()), c)) == Emitted(old(Kb()), Handled(old(Abs()), c));
      } else {
        NoEvents(Kb());
      }
      report := Deliver(c.now);
    }
  }

  lemma PushNone(q: seq<KeyEvent>)
    ensures PushAll(q, []) == q
  {
  }
}
