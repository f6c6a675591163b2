/**
  The capture helper's standard mode (Capture/main.cpp): the 24-byte
  shared-memory header it publishes, the initialisation that creates the
  mapping, one capture session polled until it has to end, the frame
  callback, and one round of the outer loop.

  Direct3D, WinRT and the system calls are inputs: the size the capture item
  reports, whether the mapping and its view could be created, the texture's
  shared handle, and what each poll of the window and of the message queue
  returns.  A mapped view is a fresh 24-byte array.
 */
module CaptureHelper {
  import opened Bytes
  import opened WindowStyle

  type int32 = x: int | -0x8000_0000 <= x < 0x8000_0000

  /** static_cast<uint32_t> of a 32-bit signed value: two's complement reinterpretation. */
  function ToU32(x: int32): (r: u32)
    ensures x >= 0 ==> r == x
    ensures x < 0 ==> r == x + 0x1_0000_0000
  {
    x % 0x1_0000_0000
  }

  /** A negative reported size is not caught by the zero check: it becomes a large width. */
  lemma NegativeSizeIsNotZero(x: int32)
    requires x < 0
    ensures ToU32(x) != 0 && ToU32(x) >= 0x8000_0000
  {
  }

  const HeaderSize: nat := 24

  datatype Header = Header(width: u32, height: u32, textureHandle: u64, hwnd: u64)

  /** Width at offset 0, height at 4, the texture's shared handle at 8, the window at 16; little-endian. */
  function EncodeHeader(h: Header): (r: seq<byte>)
    ensures |r| == HeaderSize
    ensures r[0..4] == EncodeU32(h.width) && r[4..8] == EncodeU32(h.height)
    ensures r[8..16] == EncodeU64(h.textureHandle) && r[16..24] == EncodeU64(h.hwnd)
  {
    var r := EncodeU32(h.width) + EncodeU32(h.height) + EncodeU64(h.textureHandle) + EncodeU64(h.hwnd);
    assert r[0..4] == EncodeU32(h.width);
    assert r[4..8] == EncodeU32(h.height);
    assert r[8..16] == EncodeU64(h.textureHandle);
    assert r[16..24] == EncodeU64(h.hwnd);
    r
  }

  /** How a reader of the mapping reads the header back. */
  function DecodeHeader(b: seq<byte>): Header
    requires |b| == HeaderSize
  {
    Header(DecodeU32(b[0..4]), DecodeU32(b[4..8]), DecodeU64(b[8..16]), DecodeU64(b[16..24]))
  }

  /** A reader gets back every field the helper wrote. */
  lemma HeaderRoundTrip(h: Header)
    ensures DecodeHeader(EncodeHeader(h)) == h
  {
    U32RoundTrip(h.width);
    U32RoundTrip(h.height);
    U64RoundTrip(h.textureHandle);
    U64RoundTrip(h.hwnd);
  }

  /** Every 24 bytes are the image of exactly one header. */
  lemma HeaderBytesRoundTrip(b: seq<byte>)
    requires |b| == HeaderSize
    ensures EncodeHeader(DecodeHeader(b)) == b
  {
    U32BytesRoundTrip(b[0..4]);
    U32BytesRoundTrip(b[4..8]);
    U64BytesRoundTrip(b[8..16]);
    U64BytesRoundTrip(b[16..24]);
    assert b == b[0..4] + b[4..8] + b[8..16] + b[16..24];
  }

  /** Writes bytes into a at offset, as the header's typed stores do. */
  method Store(a: array<byte>, offset: nat, bytes: seq<byte>)
    requires offset + |bytes| <= a.Length
    modifies a
    ensures forall j :: 0 <= j < a.Length ==>
              a[j] == if offset <= j < offset + |bytes| then bytes[j - offset] else old(a[j])
  {
    var i := 0;
    while i < |bytes|
      invariant 0 <= i <= |bytes|
      invariant forall j :: 0 <= j < a.Length ==>
                  a[j] == if offset <= j < offset + i then bytes[j - offset] else old(a[j])
    {
      a[offset + i] := bytes[i];
      i := i + 1;
    }
  }

  /** What makes a capture session end, checked in this order on each poll. */
  datatype Wait = ItemClosed | MessagesPending | TimedOut
  datatype Poll = Poll(isWindow: bool, clientWidth: int, clientHeight: int, wait: Wait)
  datatype SessionEnd = WindowGone | Resized | Closed | StillRunning

  /**
    Whether a poll ends the session: outside desktop mode a window that no
    longer exists ends it before anything else; a client size different from
    the one recorded at the start ends it (the wait still happens); then a
    signalled Closed event ends it.
   */
  function StopReason(p: Poll, desktop: bool, polledWidth: int, polledHeight: int): SessionEnd {
    if !desktop && !p.isWindow then WindowGone
    else if !desktop && (p.clientWidth != polledWidth || p.clientHeight != polledHeight) then Resized
    else if p.wait == ItemClosed then Closed
    else StillRunning
  }

  /** The index of the poll that ends the session, or |polls| when none does. */
  function FirstStop(polls: seq<Poll>, desktop: bool, polledWidth: int, polledHeight: int): (k: nat)
    ensures k <= |polls|
    ensures k < |polls| ==> StopReason(polls[k], desktop, polledWidth, polledHeight) != StillRunning
    ensures forall j :: 0 <= j < k ==> StopReason(polls[j], desktop, polledWidth, polledHeight) == StillRunning
  {
    if polls == [] then 0
    else if StopReason(polls[0], desktop, polledWidth, polledHeight) != StillRunning then 0
    else 1 + FirstStop(polls[1..], desktop, polledWidth, polledHeight)
  }

  /** Why the session over polls ends. */
  function SessionOutcome(polls: seq<Poll>, desktop: bool, polledWidth: int, polledHeight: int): SessionEnd {
    var k := FirstStop(polls, desktop, polledWidth, polledHeight);
    if k < |polls| then StopReason(polls[k], desktop, polledWidth, polledHeight) else StillRunning
  }

  /** In desktop mode, only the capture item's Closed event ends a session. */
  lemma DesktopSessionEndsOnClose(polls: seq<Poll>, w: int, h: int)
    ensures SessionOutcome(polls, true, w, h) != StillRunning <==> exists j :: 0 <= j < |polls| && polls[j].wait == ItemClosed
    ensures SessionOutcome(polls, true, w, h) in {Closed, StillRunning}
  {
    var k := FirstStop(polls, true, w, h);
    if exists j :: 0 <= j < |polls| && polls[j].wait == ItemClosed {
      var j :| 0 <= j < |polls| && polls[j].wait == ItemClosed;
      assert StopReason(polls[j], true, w, h) == Closed;
    }
  }

  /** Outside desktop mode, a window of unchanged size that stays alive keeps the session until Closed. */
  lemma WindowSessionEnds(polls: seq<Poll>, w: int, h: int)
    requires forall j :: 0 <= j < |polls| ==> polls[j].isWindow && polls[j].clientWidth == w && polls[j].clientHeight == h
    ensures SessionOutcome(polls, false, w, h) in {Closed, StillRunning}
  {
  }

  /**
    The view handling of InitializeWinGfxCapture on addresses (0 is null):
    what the buffer field holds afterwards and which addresses were passed
    to UnmapViewOfFile.  mapped is the address MapViewOfFile returns.
   */
  datatype Remap = Remap(buffer: nat, unmapped: seq<nat>)

  /**
    As written: the old view is unmapped but the field keeps it; a failed
    CreateFileMappingA returns with the stale address still in the field,
    and a failed MapViewOfFile stores null.  This is the view handling of
    CaptureHelper.InitializeCapture below, on addresses instead of arrays.
   */
  function RemapAsWritten(buffer: nat, mappingOk: bool, viewOk: bool, mapped: nat): (r: Remap)
    requires mapped != 0
    ensures r.unmapped == (if buffer != 0 then [buffer] else [])
    ensures r.buffer == (if !mappingOk then buffer else if viewOk then mapped else 0)
  {
    var unmapped := if buffer != 0 then [buffer] else [];
    if !mappingOk then Remap(buffer, unmapped)
    else if !viewOk then Remap(0, unmapped)
    else Remap(mapped, unmapped)
  }

  /** Corrected: the field is cleared as soon as its view is unmapped. */
  function RemapCorrected(buffer: nat, mappingOk: bool, viewOk: bool, mapped: nat): (r: Remap)
    requires mapped != 0
    ensures r.unmapped == (if buffer != 0 then [buffer] else [])
    ensures r.buffer == (if mappingOk && viewOk then mapped else 0)
  {
    var unmapped := if buffer != 0 then [buffer] else [];
    if mappingOk && viewOk then Remap(mapped, unmapped) else Remap(0, unmapped)
  }

  /**
    As written, after a failed CreateFileMappingA the next initialisation
    unmaps the same, already unmapped, view a second time.
   */
  lemma StaleViewUnmappedTwice(b: nat, viewOk: bool, m1: nat, mappingOk2: bool, viewOk2: bool, m2: nat)
    requires b != 0 && m1 != 0 && m2 != 0
    ensures var first := RemapAsWritten(b, false, viewOk, m1);
            var second := RemapAsWritten(first.buffer, mappingOk2, viewOk2, m2);
            first.unmapped == [b] && second.unmapped == [b]
  {
  }

  /**
    Corrected, two initialisations in a row unmap a view a second time only
    when the first one mapped a new view at that same address.
   */
  lemma CorrectedUnmapsOnce(b: nat, mappingOk1: bool, viewOk1: bool, m1: nat, mappingOk2: bool, viewOk2: bool, m2: nat)
    requires m1 != 0 && m2 != 0
    ensures var first := RemapCorrected(b, mappingOk1, viewOk1, m1);
            var second := RemapCorrected(first.buffer, mappingOk2, viewOk2, m2);
            b != 0 ==> first.unmapped == [b]
    ensures var first := RemapCorrected(b, mappingOk1, viewOk1, m1);
            var second := RemapCorrected(first.buffer, mappingOk2, viewOk2, m2);
            b in second.unmapped ==> mappingOk1 && viewOk1 && m1 == b
  {
  }

  datatype RoundOutcome = InitFailed | SessionOver(end: SessionEnd, polled: nat)

  class CaptureHelper {
    const desktop: bool
    /** The buffer field: the mapped view of the shared memory, or null. */
    var view: array?<byte>
    /** Every view passed to UnmapViewOfFile, in order. */
    var unmapped: seq<array<byte>>
    var width: u32
    var height: u32
    var needsReinit: bool
    var polledWidth: int
    var polledHeight: int
    /** The captured window, its recorded style and the styles of all windows. */
    var style: StyleState

    constructor(desktop: bool, styles: map<nat, bv64>)
      ensures this.desktop == desktop && view == null && unmapped == [] && width == 0 && height == 0
      ensures !needsReinit && polledWidth == 0 && polledHeight == 0
      ensures style == Initial(styles)
    {
      this.desktop := desktop;
      view := null;
      unmapped := [];
      width, height := 0, 0;
      needsReinit := false;
      polledWidth, polledHeight := 0, 0;
      style := Initial(styles);
    }

    /**
      InitializeWinGfxCapture: a zero dimension asks for re-initialisation and
      leaves the mapping alone; otherwise the old view is unmapped, though the
      field keeps it until a new view is stored: a failed CreateFileMappingA
      leaves the stale view in the field, a failed MapViewOfFile stores null,
      and on success the new view holds the header.
     */
    method InitializeCapture(hwnd: u64, itemWidth: int32, itemHeight: int32, mappingOk: bool, viewOk: bool,
                             textureHandle: u64) returns (ok: bool)
      modifies this
      ensures width == ToU32(itemWidth) && height == ToU32(itemHeight)
      ensures ok <==> width != 0 && height != 0 && mappingOk && viewOk
      ensures needsReinit == (old(needsReinit) || width == 0 || height == 0)
      ensures unmapped == old(unmapped) + (if width != 0 && height != 0 && old(view) != null then [old(view)] else [])
      ensures (width == 0 || height == 0 || !mappingOk) ==> view == old(view)
      ensures width != 0 && height != 0 && mappingOk && !viewOk ==> view == null
      ensures ok ==> view != null && fresh(view) && view.Length == HeaderSize &&
                     view[..] == EncodeHeader(Header(width, height, textureHandle, hwnd))
      ensures polledWidth == old(polledWidth) && polledHeight == old(polledHeight) && style == old(style)
    {
      width := ToU32(itemWidth);
      height := ToU32(itemHeight);
      if width == 0 || height == 0 {
        needsReinit := true;
        return false;
      }
      if view != null {
        unmapped := unmapped + [view];
      }
      if !mappingOk {
        return false;
      }
      if !viewOk {
        view := null;
        return false;
      }
      var a := new byte[HeaderSize](_ => 0);
      WriteHeader(a, Header(width, height, textureHandle, hwnd));
      view := a;
      ok := true;
    }

    /**
      Two initialisations in a row, the first failing in CreateFileMappingA:
      the view the first one unmapped stays in the field, and the second one
      unmaps it again.
     */
    method RetryAfterFailedMapping(hwnd: u64, itemWidth: int32, itemHeight: int32, mappingOk2: bool, viewOk2: bool,
                                   textureHandle: u64) returns (ok: bool)
      requires ToU32(itemWidth) != 0 && ToU32(itemHeight) != 0
      modifies this
      ensures unmapped == old(unmapped) + (if old(view) != null then [old(view), old(view)] else [])
      ensures ok <==> mappingOk2 && viewOk2
      ensures !mappingOk2 ==> view == old(view)
      ensures ok ==> view != null && fresh(view)
    {
      var first := InitializeCapture(hwnd, itemWidth, itemHeight, false, true, textureHandle);
      ok := InitializeCapture(hwnd, itemWidth, itemHeight, mappingOk2, viewOk2, textureHandle);
    }

    /** The inner loop: polls the window and the message queue until the session has to end. */
    method RunSession(polls: seq<Poll>) returns (steps: nat, end: SessionEnd)
      modifies this
      ensures end == SessionOutcome(polls, desktop, polledWidth, polledHeight)
      ensures steps == (if end == StillRunning then |polls| else FirstStop(polls, desktop, polledWidth, polledHeight) + 1)
      ensures needsReinit == (old(needsReinit) || end == Resized)
      ensures view == old(view) && unmapped == old(unmapped) && width == old(width) && height == old(height)
      ensures polledWidth == old(polledWidth) && polledHeight == old(polledHeight) && style == old(style)
    {
      var keepRunning := true;
      steps := 0;
      end := StillRunning;
      ghost var k := FirstStop(polls, desktop, polledWidth, polledHeight);
      while keepRunning && steps < |polls|
        invariant 0 <= steps <= |polls| && steps <= k + 1
        invariant keepRunning ==> steps <= k && end == StillRunning && needsReinit == old(needsReinit)
        invariant !keepRunning ==> steps == k + 1 && k < |polls| &&
                                   end == StopReason(polls[k], desktop, polledWidth, polledHeight) &&
                                   needsReinit == (old(needsReinit) || end == Resized)
        invariant view == old(view) && unmapped == old(unmapped) && width == old(width) && height == old(height)
        invariant polledWidth == old(polledWidth) && polledHeight == old(polledHeight) && style == old(style)
        decreases |polls| - steps, keepRunning
      {
        var p := polls[steps];
        steps := steps + 1;
        if !desktop && !p.isWindow {
          keepRunning := false;
          end := WindowGone;
          break;
        }
        if !desktop && (p.clientWidth != polledWidth || p.clientHeight != polledHeight) {
          keepRunning := false;
          needsReinit := true;
          end := Resized;
        }
        if p.wait == ItemClosed {
          if keepRunning {
            end := Closed;
          }
          keepRunning := false;
        }
      }
    }

    /** OnFrameArrived: a frame is copied into the shared texture unless re-initialisation is pending. */
    method FrameArrived(hasFrame: bool) returns (copied: bool)
      ensures copied <==> hasFrame && !needsReinit
    {
      copied := !needsReinit && hasFrame;
    }

    /**
      One round of the outer loop after the window search: the window is made
      borderless (not in desktop mode), the capture is initialised, and, when
      that succeeds, the client size is recorded and a session runs.
     */
    method Round(hwnd: u64, itemWidth: int32, itemHeight: int32, mappingOk: bool, viewOk: bool, textureHandle: u64,
                 clientWidth: int, clientHeight: int, polls: seq<Poll>) returns (outcome: RoundOutcome)
      requires desktop ==> hwnd == 0
      modifies this
      ensures style == (if desktop then old(style) else AttachAsWritten(old(style), hwnd))
      ensures width == ToU32(itemWidth) && height == ToU32(itemHeight)
      ensures outcome.InitFailed? <==> !(width != 0 && height != 0 && mappingOk && viewOk)
      ensures outcome.InitFailed? ==> needsReinit == (width == 0 || height == 0)
      ensures unmapped == old(unmapped) + (if width != 0 && height != 0 && old(view) != null then [old(view)] else [])
      ensures (width == 0 || height == 0 || !mappingOk) ==> view == old(view)
      ensures width != 0 && height != 0 && mappingOk && !viewOk ==> view == null
      ensures (outcome.InitFailed? || desktop) ==> polledWidth == old(polledWidth) && polledHeight == old(polledHeight)
      ensures outcome.SessionOver? ==>
                view != null && fresh(view) && view[..] == EncodeHeader(Header(width, height, textureHandle, hwnd)) &&
                (!desktop ==> polledWidth == clientWidth && polledHeight == clientHeight) &&
                outcome.end == SessionOutcome(polls, desktop, polledWidth, polledHeight) &&
                needsReinit == (outcome.end == Resized)
    {
      if !desktop {
        style := AttachAsWritten(style, hwnd);
      }
      needsReinit := false;
      var ok := InitializeCapture(hwnd, itemWidth, itemHeight, mappingOk, viewOk, textureHandle);
      if !ok {
        return InitFailed;
      }
      if !desktop {
        polledWidth, polledHeight := clientWidth, clientHeight;
      }
      var steps, end := RunSession(polls);
      outcome := SessionOver(end, steps);
    }

    /** The shutdown path: the recorded style goes back to the captured window if it still exists. */
    method RestoreStyle(isWindow: bool)
      modifies this`style
      ensures style == Restore(old(style), isWindow)
      ensures view == old(view) && unmapped == old(unmapped) && width == old(width) && height == old(height)
      ensures needsReinit == old(needsReinit) && polledWidth == old(polledWidth) && polledHeight == old(polledHeight)
    {
      if style.captured != 0 && isWindow && style.original != 0 {
        style := style.(styles := style.styles[style.captured := style.original]);
      }
    }
  }

  /** The four stores of the header into a fresh view. */
  method WriteHeader(a: array<byte>, h: Header)
    requires a.Length == HeaderSize
    modifies a
    ensures a[..] == EncodeHeader(h)
  {
    var e := EncodeHeader(h);
    Store(a, 0, EncodeU32(h.width));
    Store(a, 4, EncodeU32(h.height));
    Store(a, 8, EncodeU64(h.textureHandle));
    Store(a, 16, EncodeU64(h.hwnd));
    assert forall j :: 0 <= j < 4 ==> a[j] == e[0..4][j];
    assert forall j :: 4 <= j < 8 ==> a[j] == e[4..8][j - 4];
    assert forall j :: 8 <= j < 16 ==> a[j] == e[8..16][j - 8];
    assert forall j :: 16 <= j < 24 ==> a[j] == e[16..24][j - 16];
    assert a[..] == e;
  }
}
