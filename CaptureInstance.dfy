/**
  The per-game capture component of the mod (WindowCapture.cs,
  WindowCaptureInstance): it picks the Spout source to receive, supervises
  the capture helper process that publishes the window, and switches the
  game's screen between the captured texture and its idle picture.

  Process start, the wait for the helper to exit and the game clock are not
  modelled; each launch attempt is an input saying whether the start failed
  or after how many seconds the helper exited.
 */
module CaptureInstance {
  import opened Text
  import opened Wrappers
  import CaptureTarget
  import CommandLine

  /** The prefix that names an external Spout sender instead of a window. */
  const SpoutPrefix: string := "spout:"
  /** The sender name the capture helper publishes under. */
  const HelperSenderName: string := "GameCaptureWGC"
  /** The libretro core name of window-capture games. */
  const CaptureCore: string := "wgc_libretro"

  datatype SourcePlan = SourcePlan(launchGame: bool, sourceName: string, startsCaptureLoop: bool)

  /**
    Initialize's decisions: launch the game first when a launch path is given
    and the file exists; then receive from the sender named after "spout:"
    (any letter case), or start the capture loop and receive from the
    helper's fixed sender name.
   */
  function PlanInitialize(windowName: string, launchPath: string, launchFileExists: bool): (r: SourcePlan)
    ensures r.launchGame <==> launchPath != [] && launchFileExists
    ensures r.startsCaptureLoop <==> !StartsWithIgnoreCase(windowName, SpoutPrefix)
    ensures r.startsCaptureLoop ==> r.sourceName == HelperSenderName
    ensures !r.startsCaptureLoop ==> |windowName| >= 6 && windowName == windowName[..6] + r.sourceName
  {
    var launch := launchPath != [] && launchFileExists;
    if StartsWithIgnoreCase(windowName, SpoutPrefix) then
      assert windowName == windowName[..6] + windowName[6..];
      SourcePlan(launch, windowName[6..], false)
    else
      SourcePlan(launch, HelperSenderName, true)
  }

  /** Any spelling of "spout:" in front of a name selects exactly that name and starts no helper. */
  lemma SpoutPrefixSelectsName(prefix: string, name: string, launchPath: string, exists_: bool)
    requires EqualsIgnoreCase(prefix, SpoutPrefix)
    ensures PlanInitialize(prefix + name, launchPath, exists_).sourceName == name
    ensures !PlanInitialize(prefix + name, launchPath, exists_).startsCaptureLoop
  {
    assert |Lower(prefix)| == |prefix|;
    assert (prefix + name)[..|SpoutPrefix|] == prefix;
    assert (prefix + name)[6..] == name;
  }

  /** The window name with every double quote removed, as handed to the helper. */
  function HelperTarget(windowName: string): (r: string)
    ensures forall j :: 0 <= j < |r| ==> r[j] != '"'
    ensures forall c :: c in r <==> c in windowName && c != '"'
  {
    RemoveCharMembers(windowName, '"');
    var r := RemoveAll(windowName, "\"");
    assert forall j :: 0 <= j < |r| ==> r[j] in r;
    r
  }

  /** Quotes are removed piecewise, so the kept characters keep their order and number. */
  lemma HelperTargetConcat(a: string, b: string)
    ensures HelperTarget(a + b) == HelperTarget(a) + HelperTarget(b)
  {
    RemoveCharConcat(a, b, '"');
  }

  /** A single character is dropped exactly when it is a double quote. */
  lemma HelperTargetChar(c: char)
    ensures HelperTarget([c]) == (if c == '"' then [] else [c])
  {
    RemoveCharStep([c], '"');
  }

  function CursorSuffix(hideCursor: bool): string {
    if hideCursor then " " + CaptureTarget.NoCursorFlag else ""
  }

  /** The helper's argument string as CaptureLoop builds it: the target between quotes, then the flag. */
  function HelperArgsAsWritten(windowName: string, hideCursor: bool): string {
    "\"" + HelperTarget(windowName) + "\"" + CursorSuffix(hideCursor)
  }

  /**
    The argument string with the target quoted so that the helper's C runtime
    reads it back: backslashes in front of the closing quote are doubled.
   */
  function HelperArgs(windowName: string, hideCursor: bool): string {
    CommandLine.QuoteArgument(HelperTarget(windowName)) + CursorSuffix(hideCursor)
  }

  /** The flag is a plain word for the command-line split. */
  lemma FlagIsWord()
    ensures forall j :: 0 <= j < |CaptureTarget.NoCursorFlag| ==>
              CaptureTarget.NoCursorFlag[j] != '"' && CaptureTarget.NoCursorFlag[j] != '\\' &&
              !CommandLine.IsBlank(CaptureTarget.NoCursorFlag[j])
  {
  }

  /** The flag alone, after a blank, splits back into itself. */
  lemma FlagSplits()
    ensures CommandLine.SplitArgs(" " + CaptureTarget.NoCursorFlag) == [CaptureTarget.NoCursorFlag]
  {
    var flag := CaptureTarget.NoCursorFlag;
    CommandLine.SplitBlank(flag);
    FlagIsWord();
    CommandLine.SplitWord(flag, []);
    assert flag + [] == flag;
  }

  /** The helper's argv[1..] is the quote-free target, then "--no-cursor" exactly when the cursor is hidden. */
  lemma HelperArgsRoundTrip(windowName: string, hideCursor: bool)
    ensures CommandLine.SplitArgs(HelperArgs(windowName, hideCursor)) ==
            [HelperTarget(windowName)] + (if hideCursor then [CaptureTarget.NoCursorFlag] else [])
  {
    var t := HelperTarget(windowName);
    var suffix := CursorSuffix(hideCursor);
    assert HelperArgs(windowName, hideCursor) == CommandLine.QuoteArgument(t) + suffix;
    CommandLine.SplitQuoted(t, suffix);
    if hideCursor {
      FlagSplits();
    } else {
      assert CommandLine.SplitArgs(suffix) == [];
    }
  }

  /** The two argument strings differ only for a target that ends in a backslash. */
  lemma HelperArgsAgree(windowName: string, hideCursor: bool)
    requires HelperTarget(windowName) == [] || HelperTarget(windowName)[|HelperTarget(windowName)| - 1] != '\\'
    ensures HelperArgs(windowName, hideCursor) == HelperArgsAsWritten(windowName, hideCursor)
  {
    CommandLine.QuoteWithoutTrailingBackslash(HelperTarget(windowName));
  }

  /**
    With the arguments as written, a window name ending in one backslash
    makes the closing quote literal: the helper receives a single argument
    holding the name, a quote and the flag text, and does not hide the cursor.
   */
  lemma HelperArgsAsWrittenMergesFlag(p: string)
    requires forall j :: 0 <= j < |p| ==> p[j] != '"'
    requires p == [] || p[|p| - 1] != '\\'
    ensures CommandLine.SplitArgs(HelperArgsAsWritten(p + "\\", true)) ==
            [p + "\" " + CaptureTarget.NoCursorFlag]
  {
    var w := p + "\\";
    RemoveAbsentChar(w, '"');
    assert HelperTarget(w) == w;
    var rest := " " + CaptureTarget.NoCursorFlag;
    assert HelperArgsAsWritten(w, true) == "\"" + p + "\\\"" + rest;
    CommandLine.SplitUnescapedBackslash(p, rest);
    assert p + "\"" + rest == p + "\" " + CaptureTarget.NoCursorFlag;
  }

  /** One pass of the capture loop, as the supervisor sees it. */
  datatype Attempt = StartFailed | Exited(runDuration: real)

  datatype Verdict = Retry(delay: real) | ShutDown

  /**
    A failed start retries after 5 s; an exit after more than 2 s ends the
    session; an exit within 2 s (2.0 included) retries after 1 s.
   */
  function Classify(a: Attempt): (v: Verdict)
    ensures v == ShutDown <==> a.Exited? && a.runDuration > 2.0
    ensures v.Retry? ==> v.delay == (if a.StartFailed? then 5.0 else 1.0)
  {
    match a
    case StartFailed => Retry(5.0)
    case Exited(d) => if d > 2.0 then ShutDown else Retry(1.0)
  }

  /** The helper running for exactly 2 s counts as "window not found yet". */
  lemma ExactlyTwoSecondsRetries()
    ensures Classify(Exited(2.0)) == Retry(1.0)
  {
  }

  /** The delays waited, in order, until a session ends or the attempts run out. */
  function RetryDelays(atts: seq<Attempt>): seq<real>
  {
    if atts == [] then []
    else match Classify(atts[0])
      case ShutDown => []
      case Retry(d) => [d] + RetryDelays(atts[1..])
  }

  /** The delays and the verdict of the attempts from i on, one attempt unfolded. */
  lemma AttemptStep(atts: seq<Attempt>, i: nat)
    requires i < |atts|
    ensures Classify(atts[i]) == ShutDown ==> RetryDelays(atts[i..]) == [] && EndsInShutDown(atts[i..])
    ensures Classify(atts[i]).Retry? ==>
              RetryDelays(atts[i..]) == [Classify(atts[i]).delay] + RetryDelays(atts[i + 1..]) &&
              EndsInShutDown(atts[i..]) == EndsInShutDown(atts[i + 1..])
  {
    assert atts[i..][0] == atts[i];
    assert atts[i..][1..] == atts[i + 1..];
  }

  /** Some attempt ends the session. */
  predicate EndsInShutDown(atts: seq<Attempt>)
  {
    atts != [] && (Classify(atts[0]) == ShutDown || EndsInShutDown(atts[1..]))
  }

  /** The loop ends exactly when some helper run lasted more than 2 s. */
  lemma {:induction false} ShutDownIffLongRun(atts: seq<Attempt>)
    ensures EndsInShutDown(atts) <==>
            exists i :: 0 <= i < |atts| && atts[i].Exited? && atts[i].runDuration > 2.0
  {
    if atts != [] {
      ShutDownIffLongRun(atts[1..]);
      if exists i :: 0 <= i < |atts| && atts[i].Exited? && atts[i].runDuration > 2.0 {
        var i :| 0 <= i < |atts| && atts[i].Exited? && atts[i].runDuration > 2.0;
        if i > 0 {
          assert atts[1..][i - 1] == atts[i];
        }
      }
      if exists i :: 0 <= i < |atts[1..]| && atts[1..][i].Exited? && atts[1..][i].runDuration > 2.0 {
        var i :| 0 <= i < |atts[1..]| && atts[1..][i].Exited? && atts[1..][i].runDuration > 2.0;
        assert atts[i + 1] == atts[1..][i];
      }
    }
  }

  /**
    One delay per attempt before the session ends: 5 s after a failed start,
    1 s after a short run; the attempt right after the delays is the long run
    that ends the session, and without one every attempt is retried.
   */
  lemma {:induction false} RetryDelaysShape(atts: seq<Attempt>)
    ensures |RetryDelays(atts)| <= |atts|
    ensures forall k :: 0 <= k < |RetryDelays(atts)| ==>
              RetryDelays(atts)[k] == (if atts[k].StartFailed? then 5.0 else 1.0) &&
              Classify(atts[k]).Retry?
    ensures EndsInShutDown(atts) ==> |RetryDelays(atts)| < |atts| && Classify(atts[|RetryDelays(atts)|]) == ShutDown
    ensures !EndsInShutDown(atts) ==> |RetryDelays(atts)| == |atts|
  {
    if atts != [] && Classify(atts[0]).Retry? {
      RetryDelaysShape(atts[1..]);
      var rest := RetryDelays(atts[1..]);
      assert RetryDelays(atts) == [Classify(atts[0]).delay] + rest;
      forall k | 1 <= k < |RetryDelays(atts)|
        ensures RetryDelays(atts)[k] == rest[k - 1] && atts[k] == atts[1..][k - 1]
      {
      }
    }
  }

  datatype LoopEnd = ExeMissing | SessionEnded | AttemptsExhausted

  /** What the instance has put on the game's screen through its property block. */
  datatype ScreenBlock = NoBlock | CapturedTexture(width: int)

  /** The texture LateUpdate shows: one wider than 8 pixels, while the game runs. */
  predicate ShowsCapture(receivedWidth: Option<int>, retroarchRunning: bool) {
    receivedWidth.Some? && receivedWidth.value > 8 && retroarchRunning
  }

  class WindowCaptureInstance {
    /** The argument string the helper is started with. */
    var helperArgs: string
    /** Number of helper starts tried. */
    var launches: nat
    /** The WaitForSeconds delays of the retry path, in order. */
    var waits: seq<real>
    /** Whether the game system is powered. */
    var systemOn: bool
    /** Whether Destroy(this) was requested. */
    var destroyed: bool
    /** The screen controller's receivingTexture and NetworktvOn flags. */
    var receivingTexture: bool
    var tvOn: bool
    /** Whether the screen renders with the screen material. */
    var usesScreenMaterial: bool
    var block: ScreenBlock

    /** While the controller believes it receives a texture, the capture is what the screen shows. */
    predicate Displaying()
      reads this
    {
      receivingTexture ==> tvOn && usesScreenMaterial && block.CapturedTexture?
    }

    constructor (systemOn: bool)
      ensures this.systemOn == systemOn && !destroyed && waits == [] && launches == 0
      ensures !receivingTexture && !tvOn && block == NoBlock && Displaying()
    {
      helperArgs := [];
      launches := 0;
      waits := [];
      this.systemOn := systemOn;
      destroyed := false;
      receivingTexture := false;
      tvOn := false;
      usesScreenMaterial := false;
      block := NoBlock;
    }

    /**
      CaptureLoop over the given launch attempts: give up when the helper
      executable is missing; otherwise start the helper again after every
      short run or failed start, and power the system off and destroy the
      instance after the first long run.
     */
    method CaptureLoop(windowName: string, hideCursor: bool, exeExists: bool, attempts: seq<Attempt>)
      returns (end: LoopEnd)
      modifies this`helperArgs, this`launches, this`waits, this`systemOn, this`destroyed
      ensures end == (if !exeExists then ExeMissing
                      else if EndsInShutDown(attempts) then SessionEnded
                      else AttemptsExhausted)
      ensures helperArgs == (if exeExists then HelperArgsAsWritten(windowName, hideCursor) else old(helperArgs))
      ensures waits == old(waits) + (if exeExists then RetryDelays(attempts) else [])
      ensures launches == old(launches) +
                (if !exeExists then 0
                 else |RetryDelays(attempts)| + (if EndsInShutDown(attempts) then 1 else 0))
      ensures systemOn == (old(systemOn) && end != SessionEnded)
      ensures destroyed == (old(destroyed) || end == SessionEnded)
    {
      if !exeExists {
        return ExeMissing;
      }
      helperArgs := HelperArgsAsWritten(windowName, hideCursor);
      var ended := RunAttempts(attempts);
      end := if ended then SessionEnded else AttemptsExhausted;
    }

    /**
      The retry loop of CaptureLoop: each attempt is one launch; a failed
      start waits 5 s, a short run 1 s, and the first long run powers the
      system off and destroys the instance.
     */
    method RunAttempts(attempts: seq<Attempt>) returns (ended: bool)
      modifies this`launches, this`waits, this`systemOn, this`destroyed
      ensures ended == EndsInShutDown(attempts)
      ensures waits == old(waits) + RetryDelays(attempts)
      ensures launches == old(launches) + |RetryDelays(attempts)| + (if ended then 1 else 0)
      ensures systemOn == (old(systemOn) && !ended)
      ensures destroyed == (old(destroyed) || ended)
    {
      var i := 0;
      while i < |attempts|
        invariant 0 <= i <= |attempts|
        invariant waits + RetryDelays(attempts[i..]) == old(waits) + RetryDelays(attempts)
        invariant launches + |RetryDelays(attempts[i..])| == old(launches) + |RetryDelays(attempts)|
        invariant EndsInShutDown(attempts[i..]) == EndsInShutDown(attempts)
        invariant systemOn == old(systemOn) && destroyed == old(destroyed)
        decreases |attempts| - i
      {
        var attempt := attempts[i];
        launches := launches + 1;
        AttemptStep(attempts, i);
        if attempt.StartFailed? {
          assert waits + [5.0] + RetryDelays(attempts[i + 1..]) == waits + RetryDelays(attempts[i..]);
          waits := waits + [5.0];
          i := i + 1;
          continue;
        }
        if attempt.runDuration > 2.0 {
          assert waits == waits + RetryDelays(attempts[i..]);
          systemOn := false;
          destroyed := true;
          return true;
        }
        assert waits + [1.0] + RetryDelays(attempts[i + 1..]) == waits + RetryDelays(attempts[i..]);
        waits := waits + [1.0];
        i := i + 1;
      }
      return false;
    }

    /**
      LateUpdate: destroy the instance once the game is no longer a window
      capture game; with a screen, show the received texture while it is
      wider than 8 pixels and the game runs, and otherwise take the screen
      back if it was showing the capture.
     */
    method LateUpdate(core: Option<string>, hasScreen: bool, receivedWidth: Option<int>, retroarchRunning: bool)
      modifies this`destroyed, this`receivingTexture, this`tvOn, this`usesScreenMaterial, this`block
      ensures destroyed == (old(destroyed) || core != Some(CaptureCore))
      ensures core != Some(CaptureCore) || !hasScreen ==>
                receivingTexture == old(receivingTexture) && tvOn == old(tvOn) &&
                usesScreenMaterial == old(usesScreenMaterial) && block == old(block)
      ensures core == Some(CaptureCore) && hasScreen && ShowsCapture(receivedWidth, retroarchRunning) ==>
                receivingTexture && tvOn && usesScreenMaterial && block == CapturedTexture(receivedWidth.value)
      ensures core == Some(CaptureCore) && hasScreen && !ShowsCapture(receivedWidth, retroarchRunning) ==>
                !receivingTexture && tvOn == old(tvOn) && usesScreenMaterial == old(usesScreenMaterial) &&
                block == (if old(receivingTexture) then NoBlock else old(block))
      ensures old(Displaying()) ==> Displaying()
    {
      if core.None? || core.value != CaptureCore {
        destroyed := true;
        return;
      }
      if !hasScreen {
        return;
      }
      var hasTexture := receivedWidth.Some? && receivedWidth.value > 8;
      if hasTexture && retroarchRunning {
        if !receivingTexture { receivingTexture := true; }
        if !tvOn { tvOn := true; }
        if !usesScreenMaterial { usesScreenMaterial := true; }
        block := CapturedTexture(receivedWidth.value);
      } else {
        if receivingTexture {
          receivingTexture := false;
          block := NoBlock;
        }
      }
    }
  }
}
