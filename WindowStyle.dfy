/**
  The borderless style the capture helper gives the game window, and the
  record it keeps to put the original style back (Capture/main.cpp, the
  outer capture loop and the shutdown path).

  Window styles are read and written as LONG_PTR, a 64-bit value.  The
  removed bits are LONG constants: their complement is a negative LONG
  and sign-extends, so the upper 32 bits of the style are kept.  WS_POPUP
  (0x80000000) does not fit a LONG, is an unsigned long, and zero-extends.
  Window handles are numbers, 0 standing for NULL; a window whose style was
  never written reads as 0.
 */
module WindowStyle {

  /** WS_CAPTION | WS_THICKFRAME | WS_MINIMIZEBOX | WS_MAXIMIZEBOX | WS_SYSMENU, as a LONG. */
  const RemovedBits32: bv32 := 0x00C0_0000 | 0x0004_0000 | 0x0002_0000 | 0x0001_0000 | 0x0008_0000
  const RemovedBits: bv64 := RemovedBits32 as bv64
  const PopupBit: bv64 := 0x8000_0000

  /** A 32-bit signed value widened to 64 bits. */
  function SignExtend(x: bv32): (r: bv64)
    ensures r & 0xFFFF_FFFF == x as bv64
    ensures r >> 32 == (if x & 0x8000_0000 != 0 then 0xFFFF_FFFF else 0)
  {
    if x & 0x8000_0000 != 0 then (x as bv64) | 0xFFFF_FFFF_0000_0000 else x as bv64
  }

  /** The style the helper writes: the removed bits cleared, WS_POPUP set. */
  function Borderless(style: bv64): (r: bv64)
    ensures r & RemovedBits == 0
    ensures r & PopupBit == PopupBit
    ensures r & !(RemovedBits | PopupBit) == style & !(RemovedBits | PopupBit)
  {
    (style & SignExtend(!RemovedBits32)) | PopupBit
  }

  /** Applying the style twice is applying it once. */
  lemma BorderlessIdempotent(style: bv64)
    ensures Borderless(Borderless(style)) == Borderless(style)
  {
  }

  /** The style is unchanged exactly when it has none of the removed bits and already has WS_POPUP. */
  lemma BorderlessFixedIff(style: bv64)
    ensures Borderless(style) == style <==> style & RemovedBits == 0 && style & PopupBit != 0
  {
  }

  /** A window with a caption, WS_OVERLAPPEDWINDOW (0x00CF0000), is changed. */
  lemma OverlappedWindowChanged()
    ensures Borderless(0x00CF_0000) == 0x8000_0000
  {
  }

  datatype StyleState = StyleState(styles: map<nat, bv64>, captured: nat, original: bv64)

  /** The state before any window is captured. */
  function Initial(styles: map<nat, bv64>): StyleState {
    StyleState(styles, 0, 0)
  }

  function StyleOf(styles: map<nat, bv64>, hwnd: nat): bv64 {
    if hwnd in styles then styles[hwnd] else 0
  }

  /**
    One round of the outer loop finding window hwnd, as written: the handle
    and its current style are recorded and the window made borderless.  A
    second round on the same window records the borderless style.
   */
  function AttachAsWritten(s: StyleState, hwnd: nat): (r: StyleState)
    ensures r.captured == hwnd && r.original == StyleOf(s.styles, hwnd)
    ensures StyleOf(r.styles, hwnd) == Borderless(StyleOf(s.styles, hwnd))
    ensures forall h :: h != hwnd ==> StyleOf(r.styles, h) == StyleOf(s.styles, h)
  {
    var current := StyleOf(s.styles, hwnd);
    StyleState(s.styles[hwnd := Borderless(current)], hwnd, current)
  }

  /** The corrected round: the style is recorded only when the window is not the one already captured. */
  function Attach(s: StyleState, hwnd: nat): (r: StyleState)
    ensures r.captured == hwnd
    ensures r.original == (if hwnd == s.captured then s.original else StyleOf(s.styles, hwnd))
    ensures StyleOf(r.styles, hwnd) == Borderless(StyleOf(s.styles, hwnd))
    ensures forall h :: h != hwnd ==> StyleOf(r.styles, h) == StyleOf(s.styles, h)
  {
    var current := StyleOf(s.styles, hwnd);
    StyleState(s.styles[hwnd := Borderless(current)], hwnd, if hwnd == s.captured then s.original else current)
  }

  /** The shutdown path: the recorded style is written back when there is one and the window still exists. */
  function Restore(s: StyleState, isWindow: bool): (r: StyleState)
    ensures r.captured == s.captured && r.original == s.original
    ensures forall h :: h != s.captured ==> StyleOf(r.styles, h) == StyleOf(s.styles, h)
    ensures StyleOf(r.styles, s.captured) ==
            if s.captured != 0 && isWindow && s.original != 0 then s.original else StyleOf(s.styles, s.captured)
  {
    if s.captured != 0 && isWindow && s.original != 0 then s.(styles := s.styles[s.captured := s.original])
    else s
  }

  /** n rounds of the corrected loop on the same window. */
  function AttachRounds(s: StyleState, hwnd: nat, n: nat): StyleState
    decreases n
  {
    if n == 0 then s else AttachRounds(Attach(s, hwnd), hwnd, n - 1)
  }

  /**
    However many rounds find the same window, the corrected record keeps the
    style the window had before the first one, and the window stays borderless.
   */
  lemma {:induction false} AttachRoundsKeepOriginal(styles: map<nat, bv64>, hwnd: nat, n: nat)
    requires hwnd != 0 && n >= 1
    ensures AttachRounds(Initial(styles), hwnd, n).original == StyleOf(styles, hwnd)
    ensures AttachRounds(Initial(styles), hwnd, n).captured == hwnd
    ensures StyleOf(AttachRounds(Initial(styles), hwnd, n).styles, hwnd) == Borderless(StyleOf(styles, hwnd))
  {
    AttachRoundsSame(Attach(Initial(styles), hwnd), hwnd, n - 1);
  }

  lemma {:induction false} AttachRoundsSame(s: StyleState, hwnd: nat, n: nat)
    requires s.captured == hwnd
    requires StyleOf(s.styles, hwnd) == Borderless(StyleOf(s.styles, hwnd))
    ensures AttachRounds(s, hwnd, n).original == s.original
    ensures AttachRounds(s, hwnd, n).captured == hwnd
    ensures StyleOf(AttachRounds(s, hwnd, n).styles, hwnd) == StyleOf(s.styles, hwnd)
    decreases n
  {
    if n > 0 {
      var t := Attach(s, hwnd);
      BorderlessIdempotent(StyleOf(s.styles, hwnd));
      AttachRoundsSame(t, hwnd, n - 1);
    }
  }

  /** With the corrected record, restoring after any number of rounds gives the window its style back. */
  lemma RestoreAfterRounds(styles: map<nat, bv64>, hwnd: nat, n: nat)
    requires hwnd != 0 && n >= 1 && StyleOf(styles, hwnd) != 0
    ensures StyleOf(Restore(AttachRounds(Initial(styles), hwnd, n), true).styles, hwnd) == StyleOf(styles, hwnd)
  {
    AttachRoundsKeepOriginal(styles, hwnd, n);
  }

  /**
    As written, when a second round finds the same window (after a resize,
    a closed capture item or a failed initialisation), the record holds the
    borderless style, and restoring leaves the window borderless whenever
    its style had a removed bit or lacked WS_POPUP.  The restore runs only
    after the outer loop breaks, when a later search returned a window that
    no longer exists; the captured window must still exist.
   */
  lemma RestoreAsWrittenLosesStyle(styles: map<nat, bv64>, hwnd: nat)
    requires hwnd != 0
    requires Borderless(StyleOf(styles, hwnd)) != StyleOf(styles, hwnd)
    ensures var s := AttachAsWritten(AttachAsWritten(Initial(styles), hwnd), hwnd);
            StyleOf(Restore(s, true).styles, hwnd) == Borderless(StyleOf(styles, hwnd)) != StyleOf(styles, hwnd)
  {
    BorderlessIdempotent(StyleOf(styles, hwnd));
  }
}
