/**
  The stand-alone Spout sender (CaptureApp/SpoutWGCSender.cpp): how it picks
  the window to capture, its command line, the frame slot shared between the
  capture callback and the main loop, and why the main loop ends.

  The window list, the image path of each window's process, key state and
  the capture item's events are inputs.  The frame callback and the main loop
  run one after the other: the frame handoff's mutex and atomics are not
  modelled.  Textures are numbers; a texture "received" is one whose
  reference the slot took over, "released" one whose reference it dropped.
 */
module SpoutSender {
  import opened Text
  import opened Wrappers

  const SenderName: string := "GameCaptureWGC"
  const NoCursorFlag: string := "--no-cursor"

  /** A non-null window handle. */
  type Hwnd = x: nat | x > 0 witness 1

  /** The file name of an image path: after the last '\\' or '/', or all of it (npos + 1 is 0). */
  function ExeName(path: string): (r: string)
    ensures EndsWith(path, r)
    ensures forall j :: 0 <= j < |r| ==> !IsSep(r[j])
    ensures |r| < |path| ==> IsSep(path[|path| - |r| - 1])
  {
    var k := LastSep(path);
    assert path[|path| - |path[k + 1..]|..] == path[k + 1..];
    path[k + 1..]
  }

  /** A path without separators is its own file name, whatever separator-free name a prefix adds. */
  lemma ExeNameOfJoin(dir: string, name: string)
    requires forall j :: 0 <= j < |name| ==> !IsSep(name[j])
    ensures ExeName(name) == name
    ensures ExeName(dir + "\\" + name) == name
  {
    var p := dir + "\\" + name;
    assert p[|dir|] == '\\';
    assert p[|dir| + 1..] == name;
    assert forall j :: |dir| < j < |p| ==> p[j] == name[j - |dir| - 1];
  }

  /** A top-level window; imagePath is None when its process cannot be opened or queried. */
  datatype TopWindow = TopWindow(hwnd: Hwnd, visible: bool, imagePath: Option<string>)

  predicate ExeMatches(w: TopWindow, target: string) {
    w.visible && w.imagePath.Some? && EqualsIgnoreCase(ExeName(w.imagePath.value), target)
  }

  /** The index of the first visible window from i on whose executable is target, or -1. */
  function ExeMatchFrom(windows: seq<TopWindow>, target: string, i: nat): (k: int)
    requires i <= |windows|
    ensures k == -1 || (i <= k < |windows| && ExeMatches(windows[k], target))
    ensures forall j :: i <= j < (if k == -1 then |windows| else k) ==> !ExeMatches(windows[j], target)
    decreases |windows| - i
  {
    if i == |windows| then -1
    else if ExeMatches(windows[i], target) then i
    else ExeMatchFrom(windows, target, i + 1)
  }

  /** The enumeration callback's result: the first visible window whose executable is target, or 0. */
  function ExeSearch(windows: seq<TopWindow>, target: string): (r: nat)
    ensures r == 0 <==> forall j :: 0 <= j < |windows| ==> !ExeMatches(windows[j], target)
  {
    var k := ExeMatchFrom(windows, target, 0);
    if k == -1 then 0 else windows[k].hwnd
  }

  /**
    FindTargetWindow: titleMatch is what FindWindowA returns for the exact
    title (0 for none); only when it is 0 are the windows searched.
   */
  function TargetWindow(titleMatch: nat, windows: seq<TopWindow>, target: string): nat {
    if titleMatch != 0 then titleMatch else ExeSearch(windows, target)
  }

  /** The windows that are visible, in enumeration order. */
  function VisibleOnly(windows: seq<TopWindow>): (r: seq<TopWindow>)
    ensures forall j :: 0 <= j < |r| ==> r[j].visible
  {
    if windows == [] then []
    else if windows[0].visible then [windows[0]] + VisibleOnly(windows[1..])
    else VisibleOnly(windows[1..])
  }

  /** Invisible windows have no say in the search. */
  lemma {:induction false} InvisibleIgnored(titleMatch: nat, windows: seq<TopWindow>, target: string)
    ensures TargetWindow(titleMatch, windows, target) == TargetWindow(titleMatch, VisibleOnly(windows), target)
  {
    SearchVisibleOnly(windows, target);
  }

  lemma {:induction false} SearchVisibleOnly(windows: seq<TopWindow>, target: string)
    ensures ExeSearch(windows, target) == ExeSearch(VisibleOnly(windows), target)
  {
    if windows != [] {
      var w, rest := windows[0], windows[1..];
      assert windows == [w] + rest;
      SearchVisibleOnly(rest, target);
      ExeSearchCons(w, rest, target);
      if w.visible {
        assert VisibleOnly(windows) == [w] + VisibleOnly(rest);
        ExeSearchCons(w, VisibleOnly(rest), target);
      } else {
        assert VisibleOnly(windows) == VisibleOnly(rest);
        assert !ExeMatches(w, target);
      }
    }
  }

  /** The search looks at the first window, then at the rest. */
  lemma ExeSearchCons(w: TopWindow, rest: seq<TopWindow>, target: string)
    ensures ExeSearch([w] + rest, target) == if ExeMatches(w, target) then w.hwnd else ExeSearch(rest, target)
  {
    if !ExeMatches(w, target) {
      ExeMatchFromShift(w, rest, target, 0);
    }
  }

  lemma {:induction false} ExeMatchFromShift(w: TopWindow, rest: seq<TopWindow>, target: string, i: nat)
    requires i <= |rest|
    ensures var k := ExeMatchFrom(rest, target, i);
            ExeMatchFrom([w] + rest, target, i + 1) == if k == -1 then -1 else k + 1
    decreases |rest| - i
  {
    var all := [w] + rest;
    if i < |rest| {
      assert all[i + 1] == rest[i];
      ExeMatchFromShift(w, rest, target, i + 1);
    }
  }

  /** FindTargetWindow with its enumeration as a loop that stops at the first match. */
  method FindTargetWindow(titleMatch: nat, windows: seq<TopWindow>, target: string) returns (hwnd: nat)
    ensures hwnd == TargetWindow(titleMatch, windows, target)
  {
    if titleMatch != 0 {
      return titleMatch;
    }
    hwnd := 0;
    var i := 0;
    while i < |windows|
      invariant 0 <= i <= |windows|
      invariant hwnd == 0 && ExeMatchFrom(windows, target, i) == ExeMatchFrom(windows, target, 0)
    {
      var w := windows[i];
      if w.visible && w.imagePath.Some? {
        var exeName := ExeName(w.imagePath.value);
        if EqualsIgnoreCase(exeName, target) {
          return w.hwnd;
        }
      }
      i := i + 1;
    }
  }

  /**
    The command line: argv[1] is the target and any later "--no-cursor"
    disables the cursor; with no argument the target is the line typed in.
   */
  method ParseCli(argv: seq<string>, typedLine: string) returns (windowTitle: string, disableCursor: bool)
    ensures |argv| > 1 ==> windowTitle == argv[1]
    ensures |argv| <= 1 ==> windowTitle == typedLine
    ensures disableCursor <==> exists i :: 2 <= i < |argv| && argv[i] == NoCursorFlag
  {
    disableCursor := false;
    if |argv| > 1 {
      windowTitle := argv[1];
      var i := 2;
      while i < |argv|
        invariant 2 <= i <= |argv|
        invariant disableCursor <==> exists m :: 2 <= m < i && argv[m] == NoCursorFlag
      {
        if argv[i] == NoCursorFlag {
          disableCursor := true;
        }
        i := i + 1;
      }
    } else {
      windowTitle := typedLine;
    }
  }

  // ---- The frame slot ----

  datatype FrameInfo = FrameInfo(contentWidth: int, contentHeight: int, texture: Option<nat>)

  datatype Slot = Slot(lastWidth: int, lastHeight: int, latest: Option<nat>, newFrame: bool,
                       received: seq<nat>, released: seq<nat>)

  function Held(s: Slot): seq<nat> {
    if s.latest.Some? then [s.latest.value] else []
  }

  /** Every texture the slot took over has been released, except the one it holds. */
  predicate Owned(s: Slot) {
    s.released + Held(s) == s.received
  }

  /** The slot before the first frame: the last size is the capture item's size. */
  function InitialSlot(itemWidth: int, itemHeight: int): (s: Slot)
    ensures Owned(s)
  {
    Slot(itemWidth, itemHeight, None, false, [], [])
  }

  predicate Recreates(s: Slot, f: FrameInfo) {
    (f.contentWidth != s.lastWidth || f.contentHeight != s.lastHeight) && f.contentWidth > 0 && f.contentHeight > 0
  }

  /**
    The FrameArrived handler: no frame changes nothing; a content size that
    differs from the last one and is positive in both dimensions becomes the
    last size (the pool is recreated with it); a texture replaces the held
    one, which is released.
   */
  function Arrive(s: Slot, frame: Option<FrameInfo>): Slot {
    match frame
    case None => s
    case Some(f) =>
      var s1 := if Recreates(s, f) then s.(lastWidth := f.contentWidth, lastHeight := f.contentHeight) else s;
      match f.texture
      case None => s1
      case Some(t) => s1.(latest := Some(t), newFrame := true, received := s1.received + [t],
                          released := s1.released + Held(s1))
  }

  /** The main loop's consumer: the held texture is sent when a new one is flagged and one is held. */
  function Take(s: Slot): (Slot, Option<nat>) {
    if s.newFrame && s.latest.Some? then (s.(newFrame := false), s.latest) else (s, None)
  }

  /** The cleanup after the loop releases the held texture. */
  function Cleanup(s: Slot): Slot {
    s.(released := s.released + Held(s))
  }

  /** The size latch: the last size changes only to a positive size that differs from it. */
  lemma SizeLatch(s: Slot, f: FrameInfo)
    ensures var n := Arrive(s, Some(f));
            (n.lastWidth, n.lastHeight) == (if Recreates(s, f) then (f.contentWidth, f.contentHeight)
                                             else (s.lastWidth, s.lastHeight))
    ensures var n := Arrive(s, Some(f));
            (n.lastWidth, n.lastHeight) != (s.lastWidth, s.lastHeight) ==> n.lastWidth > 0 && n.lastHeight > 0
  {
  }

  /** A positive last size stays positive whatever frames arrive. */
  lemma {:induction false} LastSizeStaysPositive(s: Slot, frames: seq<Option<FrameInfo>>)
    requires s.lastWidth > 0 && s.lastHeight > 0
    ensures ArriveAll(s, frames).lastWidth > 0 && ArriveAll(s, frames).lastHeight > 0
    decreases |frames|
  {
    if frames != [] {
      LastSizeStaysPositive(Arrive(s, frames[0]), frames[1..]);
    }
  }

  /** Arrivals keep every texture accounted for. */
  lemma ArriveOwned(s: Slot, frame: Option<FrameInfo>)
    requires Owned(s)
    ensures Owned(Arrive(s, frame))
  {
  }

  /** The consumer keeps every texture accounted for. */
  lemma TakeOwned(s: Slot)
    requires Owned(s)
    ensures Owned(Take(s).0)
  {
  }

  /** After the cleanup every texture the slot ever took over has been released, each once. */
  lemma CleanupReleasesAll(s: Slot)
    requires Owned(s)
    ensures Cleanup(s).released == s.received
  {
  }

  /** A texture that arrives is the next one sent, and it is sent once. */
  lemma SendsLatest(s: Slot, w: int, h: int, t: nat)
    ensures Take(Arrive(s, Some(FrameInfo(w, h, Some(t))))).1 == Some(t)
    ensures Take(Take(Arrive(s, Some(FrameInfo(w, h, Some(t))))).0).1 == None
  {
  }

  /** A frame without a texture leaves what is held and flagged as it was. */
  lemma NoTextureKeepsSlot(s: Slot, f: FrameInfo)
    requires f.texture.None?
    ensures Arrive(s, Some(f)).latest == s.latest && Arrive(s, Some(f)).newFrame == s.newFrame
    ensures Take(Arrive(s, Some(f))).1 == Take(s).1
  {
  }

  function ArriveAll(s: Slot, frames: seq<Option<FrameInfo>>): Slot
    decreases |frames|
  {
    if frames == [] then s else ArriveAll(Arrive(s, frames[0]), frames[1..])
  }

  lemma {:induction false} ArriveAllOwned(s: Slot, frames: seq<Option<FrameInfo>>)
    requires Owned(s)
    ensures Owned(ArriveAll(s, frames))
    decreases |frames|
  {
    if frames != [] {
      ArriveOwned(s, frames[0]);
      ArriveAllOwned(Arrive(s, frames[0]), frames[1..]);
    }
  }

  // ---- The main loop ----

  /** One pass of the main loop: the frames that arrived while messages were pumped, then the checks. */
  datatype Tick = Tick(arrivals: seq<Option<FrameInfo>>, endPressed: bool, captureClosed: bool, isWindow: bool)

  datatype LoopExit = ByUser | ByTarget

  /** The END key is checked first; then a closed capture item or a window that is gone. */
  function ExitCheck(t: Tick): (r: Option<LoopExit>)
    ensures r == Some(ByUser) <==> t.endPressed
    ensures r == Some(ByTarget) <==> !t.endPressed && (t.captureClosed || !t.isWindow)
    ensures r.None? <==> !t.endPressed && !t.captureClosed && t.isWindow
  {
    if t.endPressed then Some(ByUser)
    else if t.captureClosed || !t.isWindow then Some(ByTarget)
    else None
  }

  datatype RunResult = RunResult(slot: Slot, exit: Option<LoopExit>, sent: seq<nat>)

  /** The loop over ticks: the slot afterwards, why it ended (None: still running), and what was sent. */
  function Run(s: Slot, ticks: seq<Tick>): RunResult
    decreases |ticks|
  {
    if ticks == [] then RunResult(s, None, [])
    else
      var s1 := ArriveAll(s, ticks[0].arrivals);
      match ExitCheck(ticks[0])
      case Some(e) => RunResult(s1, Some(e), [])
      case None =>
        var (s2, out) := Take(s1);
        var rest := Run(s2, ticks[1..]);
        RunResult(rest.slot, rest.exit, (if out.Some? then [out.value] else []) + rest.sent)
  }

  /** The loop keeps every texture accounted for, and everything it sends is a texture it took over. */
  lemma {:induction false} RunOwned(s: Slot, ticks: seq<Tick>)
    requires Owned(s)
    ensures Owned(Run(s, ticks).slot)
    ensures forall t :: t in Run(s, ticks).sent ==> t in Run(s, ticks).slot.received
    ensures IsPrefixOf(Run(s, ticks).slot.received, s.received)
    decreases |ticks|
  {
    if ticks != [] {
      var s1 := ArriveAll(s, ticks[0].arrivals);
      ArriveAllOwned(s, ticks[0].arrivals);
      ArriveAllGrows(s, ticks[0].arrivals);
      if ExitCheck(ticks[0]).None? {
        var (s2, out) := Take(s1);
        TakeOwned(s1);
        RunOwned(s2, ticks[1..]);
        var rest := Run(s2, ticks[1..]);
        if out.Some? {
          assert out.value in Held(s1);
          assert out.value in s1.received;
          assert s1.received == rest.slot.received[..|s1.received|];
          assert out.value in rest.slot.received;
        }
      }
    }
  }

  predicate IsPrefixOf(a: seq<nat>, p: seq<nat>) {
    |p| <= |a| && a[..|p|] == p
  }

  lemma {:induction false} ArriveAllGrows(s: Slot, frames: seq<Option<FrameInfo>>)
    ensures IsPrefixOf(ArriveAll(s, frames).received, s.received)
    decreases |frames|
  {
    if frames != [] {
      var n := Arrive(s, frames[0]);
      assert IsPrefixOf(n.received, s.received);
      ArriveAllGrows(n, frames[1..]);
    }
  }

  /** The loop ends at the first tick whose checks fire; the END key wins over a closed target. */
  lemma {:induction false} RunExit(s: Slot, ticks: seq<Tick>, k: nat)
    requires k < |ticks| && ExitCheck(ticks[k]).Some?
    requires forall j :: 0 <= j < k ==> ExitCheck(ticks[j]).None?
    ensures Run(s, ticks).exit == Some(if ticks[k].endPressed then ByUser else ByTarget)
    decreases k
  {
    if k > 0 {
      var s1 := ArriveAll(s, ticks[0].arrivals);
      RunExit(Take(s1).0, ticks[1..], k - 1);
    }
  }

  /** How the program ends after choosing its window. */
  datatype ProgramEnd = StartupFailed | LoopEnded(exit: LoopExit) | CaptureFailed(closedByTarget: bool)

  /**
    The exit status and whether the ENTER prompt is shown: the early returns
    give status 1 and no prompt; otherwise the status is 0 and the prompt is
    shown unless the target closed. A capture error caught after the loop
    saw the target close, thrown by the cleanup's `Close` calls, keeps
    `closedByTarget` set and so shows no prompt either.
   */
  function Finish(e: ProgramEnd): (r: (int, bool))
    ensures r.0 == (if e.StartupFailed? then 1 else 0)
    ensures r.1 <==> e == LoopEnded(ByUser) || e == CaptureFailed(false)
  {
    match e
    case StartupFailed => (1, false)
    case LoopEnded(x) =>
      var closedByTarget := x == ByTarget;
      (0, !closedByTarget)
    case CaptureFailed(closedByTarget) => (0, !closedByTarget)
  }

  /** The sender's frame slot and main loop, with the slot's fields as the fields of the class. */
  class Sender {
    var lastWidth: int
    var lastHeight: int
    var latest: Option<nat>
    var newFrameAvailable: bool
    var received: seq<nat>
    var released: seq<nat>

    function State(): Slot
      reads this
    {
      Slot(lastWidth, lastHeight, latest, newFrameAvailable, received, released)
    }

    constructor(itemWidth: int, itemHeight: int)
      ensures State() == InitialSlot(itemWidth, itemHeight)
    {
      lastWidth, lastHeight := itemWidth, itemHeight;
      latest := None;
      newFrameAvailable := false;
      received, released := [], [];
    }

    /** The FrameArrived handler; recreated says whether the frame pool was recreated. */
    method FrameArrived(frame: Option<FrameInfo>) returns (recreated: bool)
      modifies this
      ensures State() == Arrive(old(State()), frame)
      ensures recreated <==> frame.Some? && Recreates(old(State()), frame.value)
    {
      recreated := false;
      if frame.None? {
        return;
      }
      var f := frame.value;
      if (f.contentWidth != lastWidth || f.contentHeight != lastHeight) && f.contentWidth > 0 && f.contentHeight > 0 {
        lastWidth, lastHeight := f.contentWidth, f.contentHeight;
        recreated := true;
      }
      if f.texture.Some? {
        if latest.Some? {
          released := released + [latest.value];
        }
        latest := f.texture;
        received := received + [f.texture.value];
        newFrameAvailable := true;
      }
    }

    /** The consumer step of the main loop. */
    method TakeFrame() returns (toSend: Option<nat>)
      modifies this
      ensures (State(), toSend) == Take(old(State()))
    {
      toSend := None;
      if newFrameAvailable {
        if latest.Some? {
          toSend := latest;
          newFrameAvailable := false;
        }
      }
    }

    /** The main loop over the given ticks. */
    method MainLoop(ticks: seq<Tick>) returns (exit: Option<LoopExit>, sent: seq<nat>)
      modifies this
      ensures RunResult(State(), exit, sent) == Run(old(State()), ticks)
    {
      exit := None;
      sent := [];
      var i := 0;
      while i < |ticks|
        invariant 0 <= i <= |ticks|
        invariant var rest := Run(State(), ticks[i..]);
                  RunResult(rest.slot, rest.exit, sent + rest.sent) == Run(old(State()), ticks)
        decreases |ticks| - i
      {
        var t := ticks[i];
        ghost var before := State();
        assert ticks[i..][1..] == ticks[i + 1..];
        var j := 0;
        while j < |t.arrivals|
          invariant 0 <= j <= |t.arrivals|
          invariant ArriveAll(State(), t.arrivals[j..]) == ArriveAll(before, t.arrivals)
          decreases |t.arrivals| - j
        {
          assert t.arrivals[j..][1..] == t.arrivals[j + 1..];
          var _ := FrameArrived(t.arrivals[j]);
          j := j + 1;
        }
        if t.endPressed {
          exit := Some(ByUser);
          return;
        }
        if t.captureClosed || !t.isWindow {
          exit := Some(ByTarget);
          return;
        }
        var out := TakeFrame();
        if out.Some? {
          sent := sent + [out.value];
        }
        i := i + 1;
      }
    }
  }
}
