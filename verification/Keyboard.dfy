/** The keyboard interrupt handler and its one-slot mailbox (Kernel/Keyboard.c). */
module Keyboard {
  import opened Words

  const KEY_CONTROL := 0x1D
  const KEY_LEFT_SHIFT := 0x2A
  const KEY_RIGHT_SHIFT := 0x36
  const KEY_ALT := 0x38
  const KEY_CAPS_LOCK := 0x3A
  const KEY_NUM_LOCK := 0x45
  const KEY_SCROLL_LOCK := 0x46
  const KEY_MENU_LEFT := 0x5B
  const KEY_MENU_RIGHT := 0x5D
  const KEY_CAPS_IGNORE := 0x7A
  const PREFIX: byte := 0xE0

  // ----- Scancodes

  /** A key going down or up: 7-bit code, and whether the prefix came before it. */
  datatype Key = Key(code: nat, extended: bool, down: bool) {
    predicate Valid() { code < 0x80 }
  }

  /** One interrupt: the byte read first, and the one a second read would give. */
  function Parse(first: byte, second: byte): (k: Key)
    ensures k.Valid()
  {
    var scan := if first == PREFIX then second else first;
    Key(if scan >= 0x80 then scan - 0x80 else scan, first == PREFIX, scan < 0x80)
  }

  /** The bytes a keyboard sends for a key. */
  function Sent(k: Key): (bytes: (byte, byte))
    requires k.Valid()
  {
    var scan := if k.down then k.code else k.code + 0x80;
    if k.extended then (PREFIX, scan) else (scan, 0)
  }

  /** Every key but one comes through: the release of key 0x60 without a prefix is taken for the prefix. */
  lemma ScancodeRoundTrip(k: Key)
    requires k.Valid()
    ensures Parse(Sent(k).0, Sent(k).1) == k <==> k.extended || k.down || k.code != 0x60
  {
  }

  // ----- State

  datatype Modifiers = Modifiers(scrollLock: bool, numLock: bool, capsLock: bool,
    leftShift: bool, rightShift: bool, control: bool, alt: bool, leftMenu: bool, rightMenu: bool)

  const NONE := Modifiers(false, false, false, false, false, false, false, false, false)

  datatype KeyEvent = KeyEvent(ready: bool, keycode: nat, character: byte, down: bool, modifiers: Modifiers)

  const CLEARED := KeyEvent(false, 0, 0, false, NONE)

  /** The two tables of a keyboard layout. */
  datatype Layout = Layout(plain: seq<byte>, caps: seq<byte>) {
    predicate Valid() { |plain| == |caps| == 0x80 }
  }

  predicate IsHeld(code: nat) {
    || code == KEY_CONTROL || code == KEY_LEFT_SHIFT || code == KEY_RIGHT_SHIFT
    || code == KEY_ALT || code == KEY_MENU_LEFT || code == KEY_MENU_RIGHT
  }

  predicate IsLock(code: nat) {
    code == KEY_CAPS_LOCK || code == KEY_NUM_LOCK || code == KEY_SCROLL_LOCK
  }

  predicate IsModifier(code: nat) {
    IsHeld(code) || IsLock(code) || code == KEY_CAPS_IGNORE
  }

  /** A held modifier follows its key; a lock turns over when its key is released. */
  function Held(was: bool, k: Key, code: nat): bool {
    if k.code == code then k.down else was
  }

  function Turned(was: bool, k: Key, code: nat): bool {
    was != (k.code == code && !k.down)
  }

  function Press(m: Modifiers, k: Key): Modifiers {
    Modifiers(Turned(m.scrollLock, k, KEY_SCROLL_LOCK), Turned(m.numLock, k, KEY_NUM_LOCK),
              Turned(m.capsLock, k, KEY_CAPS_LOCK), Held(m.leftShift, k, KEY_LEFT_SHIFT),
              Held(m.rightShift, k, KEY_RIGHT_SHIFT), Held(m.control, k, KEY_CONTROL), Held(m.alt, k, KEY_ALT),
              Held(m.leftMenu, k, KEY_MENU_LEFT), Held(m.rightMenu, k, KEY_MENU_RIGHT))
  }

  /** The event an ordinary key posts. */
  function Posting(m: Modifiers, k: Key, l: Layout): KeyEvent
    requires k.Valid() && l.Valid()
  {
    var c := if (m.leftShift || m.rightShift) != m.capsLock then l.caps[k.code] else l.plain[k.code];
    KeyEvent(true, if k.extended then 0x0E00 + k.code else k.code, c, k.down, m)
  }

  /** Modifiers and mailbox together. */
  datatype State = State(modifiers: Modifiers, previous: KeyEvent)

  function Handle(s: State, k: Key, l: Layout): State
    requires k.Valid() && l.Valid()
  {
    var m := Press(s.modifiers, k);
    if k.code == KEY_CAPS_IGNORE then s
    else if IsModifier(k.code) then State(m, s.previous.(modifiers := m))
    else State(m, Posting(m, k, l))
  }

  // ----- One interrupt in numbers

  /** The held modifiers, in the order of their scancodes, and the three locks. */
  predicate ModifiersMove(m: Modifiers, n: Modifiers, code: int, down: bool) {
    && n.control == (if code == 0x1D then down else m.control)
    && n.leftShift == (if code == 0x2A then down else m.leftShift)
    && n.rightShift == (if code == 0x36 then down else m.rightShift)
    && n.alt == (if code == 0x38 then down else m.alt)
    && n.leftMenu == (if code == 0x5B then down else m.leftMenu)
    && n.rightMenu == (if code == 0x5D then down else m.rightMenu)
    && n.capsLock == (m.capsLock != (code == 0x3A && !down))
    && n.numLock == (m.numLock != (code == 0x45 && !down))
    && n.scrollLock == (m.scrollLock != (code == 0x46 && !down))
  }

  /** The event an ordinary key leaves: 0x0E in the high byte of the keycode behind the prefix. */
  predicate EventFor(e: KeyEvent, m: Modifiers, code: nat, prefixed: bool, down: bool, l: Layout)
    requires code < 0x80 && l.Valid()
  {
    && e.ready && e.down == down && e.modifiers == m
    && e.keycode % 0x100 == code && e.keycode / 0x100 == (if prefixed then 0x0E else 0)
    && e.character == if (m.leftShift || m.rightShift) != m.capsLock then l.caps[code] else l.plain[code]
  }

  /** The scancodes that the switch names, but for 0x7A. */
  predicate NamedCode(code: int) {
    || code == 0x1D || code == 0x2A || code == 0x36 || code == 0x38 || code == 0x3A
    || code == 0x45 || code == 0x46 || code == 0x5B || code == 0x5D
  }

  predicate EventMoves(e: KeyEvent, f: KeyEvent, m: Modifiers, code: nat, prefixed: bool, down: bool, l: Layout)
    requires code < 0x80 && l.Valid()
  {
    if code == 0x7A then f == e
    else if NamedCode(code) then f == e.(modifiers := m)
    else EventFor(f, m, code, prefixed, down, l)
  }

  /** What one interrupt does, said of the bytes read. */
  predicate Moved(s: State, t: State, first: byte, second: byte, l: Layout)
    requires l.Valid()
  {
    var scan: int := if first == 0xE0 then second else first;
    && ModifiersMove(s.modifiers, t.modifiers, scan % 0x80, scan < 0x80)
    && EventMoves(s.previous, t.previous, t.modifiers, scan % 0x80, first == 0xE0, scan < 0x80, l)
  }

  lemma PressMoves(m: Modifiers, k: Key)
    ensures ModifiersMove(m, Press(m, k), k.code, k.down)
    ensures k.code == KEY_CAPS_IGNORE ==> Press(m, k) == m
  {
  }

  lemma PostingMoves(m: Modifiers, k: Key, l: Layout)
    requires k.Valid() && l.Valid()
    ensures EventFor(Posting(m, k, l), m, k.code, k.extended, k.down, l)
  {
  }

  lemma HandleMovesEvent(s: State, k: Key, l: Layout)
    requires k.Valid() && l.Valid()
    ensures EventMoves(s.previous, Handle(s, k, l).previous, Press(s.modifiers, k), k.code, k.extended, k.down, l)
  {
    PostingMoves(Press(s.modifiers, k), k, l);
    assert IsModifier(k.code) <==> NamedCode(k.code) || k.code == 0x7A;
  }

  lemma ParseInNumbers(first: byte, second: byte)
    ensures var scan: int, k := if first == 0xE0 then second else first, Parse(first, second);
      k.code == scan % 0x80 && k.extended == (first == 0xE0) && k.down == (scan < 0x80)
  {
  }

  lemma HandleMoves(s: State, first: byte, second: byte, l: Layout)
    requires l.Valid()
    ensures Moved(s, Handle(s, Parse(first, second), l), first, second, l)
  {
    var k := Parse(first, second);
    ParseInNumbers(first, second);
    PressMoves(s.modifiers, k);
    HandleMovesEvent(s, k, l);
    assert Handle(s, k, l).modifiers == Press(s.modifiers, k);
  }

  // ----- Modifiers over any stream of keys

  function PressAll(keys: seq<Key>): Modifiers {
    if keys == [] then NONE else Press(PressAll(keys[..|keys| - 1]), keys[|keys| - 1])
  }

  /** Whether the key with this code was last seen going down. */
  function LastDown(keys: seq<Key>, code: nat): bool {
    if keys == [] then false
    else if keys[|keys| - 1].code == code then keys[|keys| - 1].down
    else LastDown(keys[..|keys| - 1], code)
  }

  function Releases(keys: seq<Key>, code: nat): nat {
    if keys == [] then 0
    else
      var k := keys[|keys| - 1];
      Releases(keys[..|keys| - 1], code) + if k.code == code && !k.down then 1 else 0
  }

  /** The modifier that is held while the key with this code is down. */
  function HeldBit(m: Modifiers, code: nat): bool {
    if code == KEY_CONTROL then m.control
    else if code == KEY_LEFT_SHIFT then m.leftShift
    else if code == KEY_RIGHT_SHIFT then m.rightShift
    else if code == KEY_ALT then m.alt
    else if code == KEY_MENU_LEFT then m.leftMenu
    else m.rightMenu
  }

  function LockBit(m: Modifiers, code: nat): bool {
    if code == KEY_CAPS_LOCK then m.capsLock
    else if code == KEY_NUM_LOCK then m.numLock
    else m.scrollLock
  }

  /** Over any stream of keys a held modifier is as its key was last seen. */
  lemma {:induction false} HeldMeaning(keys: seq<Key>, code: nat)
    requires IsHeld(code)
    ensures HeldBit(PressAll(keys), code) == LastDown(keys, code)
  {
    if keys != [] {
      var front := keys[..|keys| - 1];
      HeldMeaning(front, code);
    }
  }

  /** A lock is the parity of the releases of its key. */
  lemma {:induction false} LockMeaning(keys: seq<Key>, code: nat)
    requires IsLock(code)
    ensures LockBit(PressAll(keys), code) == (Releases(keys, code) % 2 == 1)
  {
    if keys != [] {
      var front := keys[..|keys| - 1];
      LockMeaning(front, code);
    }
  }

  /** Either shift selects the capitals, and caps lock turns that around. */
  predicate Capitals(keys: seq<Key>) {
    (LastDown(keys, KEY_LEFT_SHIFT) || LastDown(keys, KEY_RIGHT_SHIFT)) != (Releases(keys, KEY_CAPS_LOCK) % 2 == 1)
  }

  /** The character of the event an ordinary key posts after these keys. */
  lemma PostedCharacter(keys: seq<Key>, k: Key, l: Layout)
    requires k.Valid() && l.Valid()
    ensures Posting(PressAll(keys), k, l).character == if Capitals(keys) then l.caps[k.code] else l.plain[k.code]
  {
    HeldMeaning(keys, KEY_LEFT_SHIFT);
    HeldMeaning(keys, KEY_RIGHT_SHIFT);
    LockMeaning(keys, KEY_CAPS_LOCK);
  }

  /** The keycode of an event tells which key it was, and its direction is the key's. */
  lemma KeycodeTellsKey(m: Modifiers, k: Key, m': Modifiers, k': Key, l: Layout)
    requires k.Valid() && k'.Valid() && l.Valid()
    ensures var e, e' := Posting(m, k, l), Posting(m', k', l);
      e.keycode == e'.keycode && e.down == e'.down <==> k == k'
  {
  }

  // ----- The mailbox over interleaved runs

  /** A whole interrupt, or a whole copy by a reader that found the event ready. */
  datatype Action = Interrupt(key: Key) | Take

  /** What has happened: the keys handled, the events posted, and those delivered. */
  datatype History = History(state: State, keys: seq<Key>, posted: seq<KeyEvent>, delivered: seq<KeyEvent>)

  const START := History(State(NONE, CLEARED), [], [], [])

  /** Taking waits until an event is ready: as a step it is not enabled before. */
  function Act(h: History, a: Action, l: Layout): History
    requires l.Valid() && (a.Interrupt? ==> a.key.Valid())
  {
    match a
    case Interrupt(k) =>
      var s := Handle(h.state, k, l);
      h.(state := s, keys := h.keys + [k], posted := if IsModifier(k.code) then h.posted else h.posted + [s.previous])
    case Take =>
      if !h.state.previous.ready then h
      else h.(state := h.state.(previous := CLEARED), delivered := h.delivered + [h.state.previous])
  }

  predicate KeysValid(run: seq<Action>) {
    forall i :: 0 <= i < |run| ==> run[i].Interrupt? ==> run[i].key.Valid()
  }

  function ActAll(run: seq<Action>, l: Layout): History
    requires l.Valid() && KeysValid(run)
  {
    if run == [] then START
    else Act(ActAll(run[..|run| - 1], l), run[|run| - 1], l)
  }

  /** Same key, same character, same direction; the modifiers may have moved on. */
  predicate SameKey(a: KeyEvent, b: KeyEvent) {
    a.keycode == b.keycode && a.character == b.character && a.down == b.down
  }

  function Newest(h: History): nat {
    if h.posted == [] then 0 else |h.posted| - 1
  }

  /** Which posted event each delivered one is. */
  function Sources(run: seq<Action>, l: Layout): seq<nat>
    requires l.Valid() && KeysValid(run)
  {
    if run == [] then []
    else
      var front := run[..|run| - 1];
      var h := ActAll(front, l);
      Sources(front, l) + if run[|run| - 1].Take? && h.state.previous.ready then [Newest(h)] else []
  }

  /** A waiting event is the newest one posted, not delivered yet, with the modifiers of now. */
  ghost predicate Waiting(h: History, from: seq<nat>) {
    h.state.previous.ready ==>
      && h.state.previous.modifiers == h.state.modifiers
      && h.posted != [] && SameKey(h.state.previous, h.posted[|h.posted| - 1])
      && forall k :: 0 <= k < |from| ==> from[k] < |h.posted| - 1
  }

  /** The delivered events are those posted at these increasing places. */
  ghost predicate Selected(delivered: seq<KeyEvent>, posted: seq<KeyEvent>, from: seq<nat>) {
    && |from| == |delivered|
    && (forall k :: 0 <= k < |from| ==> from[k] < |posted| && SameKey(delivered[k], posted[from[k]]))
    && (forall k, j :: 0 <= k < j < |from| ==> from[k] < from[j])
  }

  ghost predicate MailboxInv(h: History, from: seq<nat>) {
    h.state.modifiers == PressAll(h.keys) && Waiting(h, from) && Selected(h.delivered, h.posted, from)
  }

  /** After any interleaving of whole interrupts and whole reads: a waiting event carries the
      modifiers of the moment, and the delivered events are an increasing selection of the posted
      ones, so none is invented, repeated or out of order. */
  lemma {:induction false} MailboxIsSafe(run: seq<Action>, l: Layout)
    requires l.Valid() && KeysValid(run)
    ensures MailboxInv(ActAll(run, l), Sources(run, l))
  {
    if run != [] {
      var front, a := run[..|run| - 1], run[|run| - 1];
      MailboxIsSafe(front, l);
      MailboxStep(ActAll(front, l), Sources(front, l), a, l);
    }
  }

  /** What handling one key does to the mailbox. */
  lemma HandleStep(s: State, k: Key, l: Layout)
    requires k.Valid() && l.Valid()
    ensures Handle(s, k, l).modifiers == Press(s.modifiers, k)
    ensures (s.previous.ready ==> s.previous.modifiers == s.modifiers) ==>
              (Handle(s, k, l).previous.ready ==> Handle(s, k, l).previous.modifiers == Handle(s, k, l).modifiers)
    ensures
      if IsModifier(k.code)
      then Handle(s, k, l).previous.ready == s.previous.ready && SameKey(Handle(s, k, l).previous, s.previous)
      else Handle(s, k, l).previous.ready
  {
  }

  lemma MailboxStep(h: History, from: seq<nat>, a: Action, l: Layout)
    requires l.Valid() && (a.Interrupt? ==> a.key.Valid()) && MailboxInv(h, from)
    ensures MailboxInv(Act(h, a, l), from + if a.Take? && h.state.previous.ready then [Newest(h)] else [])
  {
    assert from + [] == from;
    match a
    case Interrupt(k) => InterruptStep(h, from, k, l);
    case Take => if h.state.previous.ready { TakeStep(h, from, l); }
  }

  lemma InterruptStep(h: History, from: seq<nat>, k: Key, l: Layout)
    requires l.Valid() && k.Valid() && MailboxInv(h, from)
    ensures MailboxInv(Act(h, Interrupt(k), l), from)
  {
    var after := Act(h, Interrupt(k), l);
    HandleStep(h.state, k, l);
    assert after.state.modifiers == PressAll(after.keys) by {
      assert (h.keys + [k])[..|h.keys|] == h.keys;
    }
    assert Waiting(after, from) by { InterruptKeepsWaiting(h, from, k, l); }
  }

  lemma InterruptKeepsWaiting(h: History, from: seq<nat>, k: Key, l: Layout)
    requires l.Valid() && k.Valid() && Waiting(h, from) && Selected(h.delivered, h.posted, from)
    ensures Waiting(Act(h, Interrupt(k), l), from)
  {
    HandleStep(h.state, k, l);
  }

  lemma TakeStep(h: History, from: seq<nat>, l: Layout)
    requires l.Valid() && MailboxInv(h, from) && h.state.previous.ready
    ensures MailboxInv(Act(h, Take, l), from + [Newest(h)])
  {
  }

  /** An ordinary key has been handled since the last read. */
  predicate PostedSinceTake(run: seq<Action>) {
    run != [] &&
    match run[|run| - 1]
    case Take => false
    case Interrupt(k) => !IsModifier(k.code) || PostedSinceTake(run[..|run| - 1])
  }

  /** A reader finds an event exactly if an ordinary key has come since the last read. */
  lemma {:induction false} ReadyExactly(run: seq<Action>, l: Layout)
    requires l.Valid() && KeysValid(run)
    ensures ActAll(run, l).state.previous.ready == PostedSinceTake(run)
  {
    if run != [] {
      ReadyExactly(run[..|run| - 1], l);
    }
  }

  /** With the mailbox empty, the newest event posted has been delivered already. */
  lemma {:induction false} EmptyMeansDelivered(run: seq<Action>, l: Layout)
    requires l.Valid() && KeysValid(run)
    requires !ActAll(run, l).state.previous.ready && ActAll(run, l).posted != []
    ensures Newest(ActAll(run, l)) in Sources(run, l)
  {
    if run != [] {
      var front, a := run[..|run| - 1], run[|run| - 1];
      var h := ActAll(front, l);
      if a.Interrupt? { HandleStep(h.state, a.key, l); }
      if !h.state.previous.ready {
        EmptyMeansDelivered(front, l);
      } else {
        assert Sources(run, l)[|Sources(front, l)|] == Newest(h);
      }
    }
  }

  /** A read comes at a time when event i is the newest posted. */
  ghost predicate ReadWhileNewest(run: seq<Action>, l: Layout, i: nat)
    requires l.Valid() && KeysValid(run)
  {
    exists p :: 0 <= p < |run| && ReadAt(run, l, i, p)
  }

  ghost predicate ReadAt(run: seq<Action>, l: Layout, i: nat, p: nat)
    requires l.Valid() && KeysValid(run) && p < |run|
  {
    run[p].Take? && |ActAll(run[..p], l).posted| == i + 1
  }

  /** A posted event is delivered exactly if a read comes before the next event is posted; the
      others are lost. */
  lemma {:induction false} DeliveredExactly(run: seq<Action>, l: Layout, i: nat)
    requires l.Valid() && KeysValid(run)
    ensures i in Sources(run, l) <==> ReadWhileNewest(run, l, i)
  {
    if run != [] {
      var front, a := run[..|run| - 1], run[|run| - 1];
      var h := ActAll(front, l);
      DeliveredExactly(front, l, i);
      ReadInFront(run, l, i);
      MailboxIsSafe(front, l);
      if a.Take? && !h.state.previous.ready && |h.posted| == i + 1 {
        EmptyMeansDelivered(front, l);
      }
    }
  }

  lemma ReadInFront(run: seq<Action>, l: Layout, i: nat)
    requires l.Valid() && KeysValid(run) && run != []
    ensures var front := run[..|run| - 1];
      ReadWhileNewest(run, l, i) <==>
        ReadWhileNewest(front, l, i) || (run[|run| - 1].Take? && |ActAll(front, l).posted| == i + 1)
  {
    var front := run[..|run| - 1];
    forall p | 0 <= p < |front| ensures ReadAt(front, l, i, p) == ReadAt(run, l, i, p) {
      assert front[..p] == run[..p];
    }
    assert ReadAt(run, l, i, |front|) == (run[|run| - 1].Take? && |ActAll(front, l).posted| == i + 1);
  }

  lemma {:induction false} PostedAreReady(run: seq<Action>, l: Layout)
    requires l.Valid() && KeysValid(run)
    ensures forall i :: 0 <= i < |ActAll(run, l).posted| ==> ActAll(run, l).posted[i].ready
  {
    if run != [] {
      PostedAreReady(run[..|run| - 1], l);
    }
  }

  /** A read that finds an event delivers the one in the mailbox. It carries the modifiers of this
      moment; so it is the event as it was posted exactly if the modifiers are what they were then. */
  lemma DeliveredModifiers(run: seq<Action>, l: Layout, p: nat)
    requires l.Valid() && KeysValid(run) && p < |run| && run[p].Take?
    requires ActAll(run[..p], l).state.previous.ready
    ensures var h, e := ActAll(run[..p], l), ActAll(run[..p], l).state.previous;
      && ActAll(run[..p + 1], l).delivered == h.delivered + [e]
      && e.modifiers == PressAll(h.keys)
      && h.posted != []
      && (e == h.posted[|h.posted| - 1] <==> PressAll(h.keys) == h.posted[|h.posted| - 1].modifiers)
  {
    assert run[..p + 1][..p] == run[..p];
    MailboxIsSafe(run[..p], l);
    PostedAreReady(run[..p], l);
  }

  /** 'a' goes down, then the left shift, then a reader comes: the event posted without the shift
      is delivered with it. */
  lemma ShiftAfterKey(l: Layout)
    requires l.Valid()
    ensures var run := [Interrupt(Key(0x1E, false, true)), Interrupt(Key(KEY_LEFT_SHIFT, false, true)), Take];
      && KeysValid(run) && |ActAll(run, l).posted| == |ActAll(run, l).delivered| == 1
      && !ActAll(run, l).posted[0].modifiers.leftShift && ActAll(run, l).delivered[0].modifiers.leftShift
      && ActAll(run, l).delivered[0].character == l.plain[0x1E]
  {
    var a, b := Interrupt(Key(0x1E, false, true)), Interrupt(Key(KEY_LEFT_SHIFT, false, true));
    assert [a, b, Take][..2] == [a, b] && [a, b][..1] == [a] && [a][..0] == [];
    assert ActAll([a], l).posted == [Posting(NONE, Key(0x1E, false, true), l)];
    assert ActAll([a, b], l).state.previous.modifiers.leftShift;
  }

  /** The events a stream of keys posts. */
  function PostedBy(keys: seq<Key>, l: Layout): seq<KeyEvent>
    requires l.Valid() && forall i :: 0 <= i < |keys| ==> keys[i].Valid()
  {
    if keys == [] then []
    else
      var front, k := keys[..|keys| - 1], keys[|keys| - 1];
      PostedBy(front, l) + if IsModifier(k.code) then [] else [Posting(PressAll(front), k, l)]
  }

  /** What is posted depends on the keys alone, not on when the reader comes by. */
  lemma {:induction false} PostedEvents(run: seq<Action>, l: Layout)
    requires l.Valid() && KeysValid(run)
    ensures forall i :: 0 <= i < |ActAll(run, l).keys| ==> ActAll(run, l).keys[i].Valid()
    ensures ActAll(run, l).posted == PostedBy(ActAll(run, l).keys, l)
  {
    if run != [] {
      var front, a := run[..|run| - 1], run[|run| - 1];
      PostedEvents(front, l);
      MailboxIsSafe(front, l);
      var h := ActAll(front, l);
      if a.Interrupt? {
        assert (h.keys + [a.key])[..|h.keys|] == h.keys;
      }
    }
  }

  // ----- What reaches the driver

  /** An interrupt with the bytes the keyboard controller holds, or a reader looking in. */
  datatype Signal = Scan(first: byte, second: byte) | Poll

  function Decoded(signals: seq<Signal>): (run: seq<Action>)
    ensures KeysValid(run) && |run| == |signals|
    ensures forall i :: 0 <= i < |run| ==> run[i] == Meaning(signals[i])
  {
    seq(|signals|, i requires 0 <= i < |signals| => Meaning(signals[i]))
  }

  function Meaning(signal: Signal): Action {
    match signal
    case Scan(first, second) => Interrupt(Parse(first, second))
    case Poll => Take
  }

  // ----- The driver

  class Driver {
    const layout: Layout
    var scrollLock: bool
    var numLock: bool
    var capsLock: bool
    var leftShift: bool
    var rightShift: bool
    var control: bool
    var alt: bool
    var leftMenu: bool
    var rightMenu: bool
    var previous: KeyEvent

    /** The modifier bits as one value. */
    function Current(): Modifiers
      reads this
    {
      Modifiers(scrollLock, numLock, capsLock, leftShift, rightShift, control, alt, leftMenu, rightMenu)
    }

    function Abs(): State
      reads this
    {
      State(Current(), previous)
    }

    constructor (layout: Layout)
      requires layout.Valid()
      ensures this.layout == layout && Abs() == START.state
    {
      this.layout, previous := layout, CLEARED;
      scrollLock, numLock, capsLock := false, false, false;
      leftShift, rightShift, control, alt, leftMenu, rightMenu := false, false, false, false, false, false;
    }

    method UpdateEventModifiers()
      modifies this`previous
      ensures previous == old(previous).(modifiers := Current())
    {
      previous := previous.(modifiers := Current());
    }

    /** The switch over the modifier keys: whether the key was one. */
    method Switch(keycode: byte, down: bool, ghost k: Key) returns (modifier: bool)
      requires k.code == keycode && k.down == down
      modifies this
      ensures modifier == IsModifier(keycode)
      ensures Current() == Press(old(Current()), k)
      ensures previous ==
        if modifier && keycode != KEY_CAPS_IGNORE then old(previous).(modifiers := Current()) else old(previous)
    {
      if keycode == KEY_CONTROL {
        control := down;
        UpdateEventModifiers();
        return true;
      } else if keycode == KEY_LEFT_SHIFT {
        leftShift := down;
        UpdateEventModifiers();
        return true;
      } else if keycode == KEY_RIGHT_SHIFT {
        rightShift := down;
        UpdateEventModifiers();
        return true;
      } else if keycode == KEY_CAPS_LOCK {
        if !down { capsLock := !capsLock; }
        UpdateEventModifiers();
        return true;
      } else if keycode == KEY_CAPS_IGNORE {
        return true;
      } else if keycode == KEY_NUM_LOCK {
        if !down { numLock := !numLock; }
        UpdateEventModifiers();
        return true;
      } else if keycode == KEY_SCROLL_LOCK {
        if !down { scrollLock := !scrollLock; }
        UpdateEventModifiers();
        return true;
      } else if keycode == KEY_ALT {
        alt := down;
        UpdateEventModifiers();
        return true;
      } else if keycode == KEY_MENU_LEFT {
        leftMenu := down;
        UpdateEventModifiers();
        return true;
      } else if keycode == KEY_MENU_RIGHT {
        rightMenu := down;
        UpdateEventModifiers();
        return true;
      }
      return false;
    }

    method Post(keycode: byte, extended: bool, down: bool)
      requires layout.Valid() && keycode < 0x80
      modifies this`previous
      ensures previous == Posting(Current(), Key(keycode, extended, down), layout)
    {
      var c := if (leftShift || rightShift) != capsLock
               then layout.caps[keycode] else layout.plain[keycode];
      previous := KeyEvent(true, keycode, c, down, Current());
      if extended {
        previous := previous.(keycode := previous.keycode + 0x0E00);
      }
    }

    /** One interrupt; the second byte is only read behind the prefix. */
    method Handler(first: byte, second: byte)
      requires layout.Valid()
      modifies this
      ensures Abs() == Handle(old(Abs()), Parse(first, second), layout)
      ensures Moved(old(Abs()), Abs(), first, second, layout)
    {
      var keycode: byte := first;
      var extended := keycode == PREFIX;
      if extended { keycode := second; }
      var down := keycode < 0x80;
      if !down { keycode := keycode - 0x80; }
      ghost var k, was := Key(keycode, extended, down), Abs();
      assert k == Parse(first, second);
      Respond(keycode, extended, down);
      HandleMoves(was, first, second, layout);
    }

    /** The switch, and the event for a key it does not name. */
    method Respond(keycode: byte, extended: bool, down: bool)
      requires layout.Valid() && keycode < 0x80
      modifies this
      ensures Abs() == Handle(old(Abs()), Key(keycode, extended, down), layout)
    {
      var modifier := Switch(keycode, down, Key(keycode, extended, down));
      if !modifier {
        Post(keycode, extended, down);
      }
    }

    /** The copy made once the event is ready, clearing as it goes; false while it is not. */
    method GetEvent() returns (ready: bool, event: KeyEvent)
      modifies this`previous
      ensures ready == old(previous).ready
      ensures ready ==> event == old(previous) && previous == CLEARED
      ensures ready ==> !previous.ready && previous.keycode == 0 && previous.character == 0 && !previous.down
      ensures !ready ==> previous == old(previous)
    {
      ready, event := previous.ready, previous;
      if ready { previous := CLEARED; }
    }

    /** Any run of interrupts and readers, from boot: the driver is where the key machine is, and the
        readers have received what it delivers. */
    method Serve(signals: seq<Signal>) returns (received: seq<KeyEvent>)
      requires layout.Valid() && Abs() == START.state
      modifies this
      ensures Abs() == ActAll(Decoded(signals), layout).state
      ensures received == ActAll(Decoded(signals), layout).delivered
    {
      received := [];
      for i := 0 to |signals|
        invariant Abs() == ActAll(Decoded(signals[..i]), layout).state
        invariant received == ActAll(Decoded(signals[..i]), layout).delivered
      {
        assert Decoded(signals[..i + 1])[..i] == Decoded(signals[..i]);
        match signals[i]
        case Scan(first, second) => Handler(first, second);
        case Poll =>
          var ready, event := GetEvent();
          if ready { received := received + [event]; }
      }
      assert signals[..|signals|] == signals;
    }
  }
}
