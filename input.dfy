/** Keyboard and mouse state: the `Key` codes, the three-flag `HWButton`,
    the press/hold/release edge detection `_update_mouse` applies to each
    mouse button, and what `_update_keys` leaves in each key's slot. */
module Input {

  /** The number of key slots, `Key::Count`. */
  const KEY_COUNT: nat := 109

  /** A key is its position in the `Key` enum; `Key::Count` itself is only the
      table size and never indexes it. */
  newtype Key = k: int | 0 <= k < 109

  const NONE: Key := 0
  const A: Key := 1
  const B: Key := 2
  const C: Key := 3
  const D: Key := 4
  const E: Key := 5
  const F: Key := 6
  const G: Key := 7
  const H: Key := 8
  const I: Key := 9
  const J: Key := 10
  const K: Key := 11
  const L: Key := 12
  const M: Key := 13
  const N: Key := 14
  const O: Key := 15
  const P: Key := 16
  const Q: Key := 17
  const R: Key := 18
  const S: Key := 19
  const T: Key := 20
  const U: Key := 21
  const V: Key := 22
  const W: Key := 23
  const X: Key := 24
  const Y: Key := 25
  const Z: Key := 26
  const K0: Key := 27
  const K1: Key := 28
  const K2: Key := 29
  const K3: Key := 30
  const K4: Key := 31
  const K5: Key := 32
  const K6: Key := 33
  const K7: Key := 34
  const K8: Key := 35
  const K9: Key := 36
  const F1: Key := 37
  const F2: Key := 38
  const F3: Key := 39
  const F4: Key := 40
  const F5: Key := 41
  const F6: Key := 42
  const F7: Key := 43
  const F8: Key := 44
  const F9: Key := 45
  const F10: Key := 46
  const F11: Key := 47
  const F12: Key := 48
  const UP: Key := 49
  const DOWN: Key := 50
  const LEFT: Key := 51
  const RIGHT: Key := 52
  const COMMA: Key := 53
  const PERIOD: Key := 54
  const APOSTROPHE: Key := 55
  const BACK_QUOTE: Key := 56
  const SEMICOLON: Key := 57
  const SPACE: Key := 58
  const TAB: Key := 59
  const MINUS: Key := 60
  const EQUAL: Key := 61
  const LEFT_BRACKET: Key := 62
  const RIGHT_BRACKET: Key := 63
  const SLASH: Key := 64
  const BACK_SLASH: Key := 65
  const ALT: Key := 66
  const LEFT_ALT: Key := 67
  const RIGHT_ALT: Key := 68
  const SHIFT: Key := 69
  const LEFT_SHIFT: Key := 70
  const RIGHT_SHIFT: Key := 71
  const CONTROL: Key := 72
  const LEFT_CONTROL: Key := 73
  const RIGHT_CONTROL: Key := 74
  const SYSTEM: Key := 75
  const LEFT_SYSTEM: Key := 76
  const RIGHT_SYSTEM: Key := 77
  const MENU: Key := 78
  const INSERT: Key := 79
  const DELETE: Key := 80
  const HOME: Key := 81
  const END: Key := 82
  const PAGE_UP: Key := 83
  const PAGE_DOWN: Key := 84
  const BACK: Key := 85
  const ESCAPE: Key := 86
  const RETURN: Key := 87
  const ENTER: Key := 88
  const PAUSE: Key := 89
  const NUM_LOCK: Key := 90
  const CAPS_LOCK: Key := 91
  const SCROLL_LOCK: Key := 92
  const NUM_PAD0: Key := 93
  const NUM_PAD1: Key := 94
  const NUM_PAD2: Key := 95
  const NUM_PAD3: Key := 96
  const NUM_PAD4: Key := 97
  const NUM_PAD5: Key := 98
  const NUM_PAD6: Key := 99
  const NUM_PAD7: Key := 100
  const NUM_PAD8: Key := 101
  const NUM_PAD9: Key := 102
  const NUM_PAD_MUL: Key := 103
  const NUM_PAD_DIV: Key := 104
  const NUM_PAD_ADD: Key := 105
  const NUM_PAD_SUB: Key := 106
  const NUM_PAD_DECIMAL: Key := 107
  const NUM_PAD_ENTER: Key := 108

  datatype HWButton = HWButton(pressed: bool, released: bool, held: bool)

  /** `HWButton::default()`: no flag set. */
  const IDLE: HWButton := HWButton(false, false, false)

  /** At most one of the three flags is set. */
  predicate OneFlag(b: HWButton)
  {
    !(b.pressed && b.released) && !(b.pressed && b.held) && !(b.released && b.held)
  }

  /** One frame of a mouse button: it is pressed on the first frame it is
      down, held on later frames it stays down, and released on the first
      frame it is up again. */
  function NextButton(last: HWButton, current: bool): (b: HWButton)
    ensures OneFlag(b)
    ensures b.pressed || b.held <==> current
    ensures b.released <==> !current && (last.pressed || last.held)
    ensures b.pressed <==> current && !last.pressed && !last.held
  {
    var wasDown := last.pressed || last.held;
    HWButton(current && !wasDown, !current && wasDown, current && wasDown)
  }

  /** The button states a sequence of raw readings produces, frame by frame. */
  function Replay(start: HWButton, raw: seq<bool>): (states: seq<HWButton>)
    ensures |states| == |raw|
    decreases |raw|
  {
    if raw == [] then []
    else
      var init := Replay(start, raw[..|raw| - 1]);
      var prev := if init == [] then start else init[|init| - 1];
      init + [NextButton(prev, raw[|raw| - 1])]
  }

  /** Down for three frames then up for two, from idle: pressed, held, held,
      released, then nothing. An illustration of `Replay` on one input; the
      general facts are `NextButton`'s contract and `NoDoublePress`. */
  lemma PressHoldRelease()
    ensures Replay(IDLE, [true, true, true, false, false]) ==
      [HWButton(true, false, false), HWButton(false, false, true), HWButton(false, false, true),
       HWButton(false, true, false), IDLE]
  {
    var raw := [true, true, true, false, false];
    var pressed, held, released := HWButton(true, false, false), HWButton(false, false, true), HWButton(false, true, false);
    assert [true, true, true, false] == raw[..4];
    assert [true, true, true] == raw[..4][..3];
    assert [true, true] == raw[..4][..3][..2];
    assert [true] == raw[..4][..3][..2][..1];
    assert Replay(IDLE, [true]) == [pressed] by { assert [true][..0] == []; }
    assert Replay(IDLE, [true, true]) == [pressed, held];
    assert Replay(IDLE, [true, true, true]) == [pressed, held, held];
    assert Replay(IDLE, [true, true, true, false]) == [pressed, held, held, released];
  }

  /** A press is followed by held or released, never by a second press. */
  lemma {:induction false} NoDoublePress(start: HWButton, raw: seq<bool>, k: nat)
    requires k + 1 < |raw|
    ensures Replay(start, raw)[k].pressed ==> !Replay(start, raw)[k + 1].pressed
    decreases |raw|
  {
    var states := Replay(start, raw);
    var init := Replay(start, raw[..|raw| - 1]);
    assert states == init + [NextButton(init[|init| - 1], raw[|raw| - 1])];
    if k + 1 < |raw| - 1 {
      NoDoublePress(start, raw[..|raw| - 1], k);
    }
  }

  /** The raw key lists of one frame: keys down, keys that went down, keys
      that went up. */
  datatype KeyFrame = KeyFrame(down: seq<Key>, pressed: seq<Key>, released: seq<Key>)

  /** A slot filled straight from the lists. */
  function Raw(f: KeyFrame, k: Key): HWButton
  {
    HWButton(k in f.pressed, k in f.released, k in f.down)
  }

  /** Two buttons combined flag by flag with `|`. */
  function Either(a: HWButton, b: HWButton): HWButton
  {
    HWButton(a.pressed || b.pressed, a.released || b.released, a.held || b.held)
  }

  /** Combining buttons is commutative, associative and idempotent, and the
      idle button (no flag set) is its identity. */
  lemma EitherLaws(a: HWButton, b: HWButton, c: HWButton)
    ensures Either(a, b) == Either(b, a)
    ensures Either(Either(a, b), c) == Either(a, Either(b, c))
    ensures Either(a, a) == a
    ensures Either(a, IDLE) == a
  {
  }

  /** The slot `_update_keys` leaves for key k: Alt, Shift, Control and
      System combine their left and right keys, Enter combines Return and the
      keypad Enter, and every other key reads the lists. */
  function KeyAfter(f: KeyFrame, k: Key): HWButton
  {
    if k == ALT then Either(Raw(f, LEFT_ALT), Raw(f, RIGHT_ALT))
    else if k == SHIFT then Either(Raw(f, LEFT_SHIFT), Raw(f, RIGHT_SHIFT))
    else if k == CONTROL then Either(Raw(f, LEFT_CONTROL), Raw(f, RIGHT_CONTROL))
    else if k == SYSTEM then Either(Raw(f, LEFT_SYSTEM), Raw(f, RIGHT_SYSTEM))
    else if k == ENTER then Either(Raw(f, RETURN), Raw(f, NUM_PAD_ENTER))
    else Raw(f, k)
  }

  /** The logical keys do not depend on whether they themselves were listed,
      only on their two physical keys; every other key reports exactly the
      lists. */
  lemma LogicalKeys(f: KeyFrame, k: Key)
    ensures KeyAfter(f, SHIFT).held <==> LEFT_SHIFT in f.down || RIGHT_SHIFT in f.down
    ensures KeyAfter(f, ENTER).pressed <==> RETURN in f.pressed || NUM_PAD_ENTER in f.pressed
    ensures KeyAfter(f, ALT) == KeyAfter(f.(down := f.down + [ALT], pressed := f.pressed + [ALT]), ALT)
    ensures k !in {ALT, SHIFT, CONTROL, SYSTEM, ENTER} ==>
      KeyAfter(f, k) == HWButton(k in f.pressed, k in f.released, k in f.down)
  {
  }
}
