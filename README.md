# WindowCaptureMod core, modelled in Dafny

WindowCaptureMod shows a Windows desktop window on an in-game screen. It has
four parts, and this project models the decision logic of each:

- **The mod** (`WindowCapture.cs`).
  - It turns a game entry's path, and for `.win`/`.txt` entries the file's
    text, into a window name, a hide-cursor flag and a program to launch.
  - It picks the Spout source: a name after `spout:`, or the helper's fixed
    `GameCaptureWGC` sender.
  - It starts the `SpoutWGCSender.exe` helper again and again, deciding from
    how long each run lasted whether to retry or to end the session.
  - It keeps a native Spout receiver and its textures alive frame by frame
    (`OnSpoutUpdatePrefix`).
  - It switches the game's screen between the captured texture and its idle
    picture (`LateUpdate`).
- **The capture helper** (`Capture/main.cpp`).
  - It parses `--target`, `--memname`, `--hook` and `--desktop`, and refuses
    unusable options with status 1.
  - It derives its log file's path and, in hook mode, builds the environment
    block it hands the game.
  - It finds the game's main window through a process snapshot and a window
    enumeration.
  - It makes the window borderless and restores the style at exit.
  - It publishes a 24-byte little-endian header in shared memory: width,
    height, texture handle, window.
  - It re-initialises when the window goes away, changes size or its capture
    item closes.
- **The Spout sender** (`CaptureApp/SpoutWGCSender.cpp`).
  - It finds the window by exact title, then by executable file name.
  - It reads its command line.
  - It keeps a one-frame slot between the capture callback and the main loop,
    and recreates the frame pool when the content size changes.
  - It decides why the main loop ended and whether to prompt for ENTER.
- **The render plugin** (`Capture/RenderPlugin.cpp`). A state machine over
  three global handles that opens the shared texture and copies it into
  Unity's texture on the render thread.

Each core file becomes one or more modules:

- `CaptureTarget` is entry-path parsing.
- `CaptureInstance` covers source choice, helper arguments, the retry loop
  and the screen gating.
- `SpoutUpdate` is the receiver update.
- `CaptureOptions` is the helper's start-up.
- `ProcessSearch` is the window search.
- `WindowStyle` covers the borderless style and its restore.
- `CaptureHelper` covers the header, the initialisation and the capture
  session.
- `SpoutSender` is the sender.
- `RenderPlugin` is the plugin.

Shared modules:

- `Text` holds the string helpers.
- `Bytes` holds the little-endian encoding.
- `CommandLine` is the Microsoft C runtime's argv splitting. The helper
  applies it to the argument string the mod builds.
- `Wrappers` holds `Option`.

How the model is built:

- Code that updates state step by step becomes a class. Its methods are
  proved equal to a specification function, and lemmas are proved about that
  function.
- Expression-like code becomes functions with contracts.
- Every operating-system, GPU, Unity or Spout call is an input saying what
  the call returned. This covers file existence and contents, process
  start/exit, elapsed time, window queries, the capture item's size and
  events, mapping creation, `OpenSharedResource`, key state, and the plugin's
  reports.
- Run durations are `real` seconds.
- Handles and pointers are natural numbers; 0 is null.

The code and the system's written design disagree in one place, and the
model follows the code:

- The design calls a helper run of 2 s or more a legitimate shutdown.
- `CaptureLoop` compares `runDuration > 2f`, so a run of exactly 2.0 s is
  retried (`CaptureInstance.Classify`, `CaptureInstance.ExactlyTwoSecondsRetries`).

## Model

| member | source | states |
|---|---|---|
| CaptureTarget.LastDotOfFileName | WindowCapture.cs:432 | the path's last dot lies after its last boundary iff the file name has a dot, and is then the file name's last dot shifted by the directory part |
| CaptureTarget.NameExtension | WindowCapture.cs:432 | a file name's extension is empty iff the name has no dot or ends with one; otherwise it starts with '.', has at least two characters, ends the name and holds no further dot |
| CaptureTarget.Extension | WindowCapture.cs:432 | empty iff the file name has no dot or ends with one; otherwise a '.' and at least one more character that end both the file name and the path, with no further dot or boundary, so it starts at the file name's last dot |
| CaptureTarget.Stem | WindowCapture.cs:460-465 | a prefix of the name that is the whole name iff it has no dot; otherwise the name continues with a '.' and no later dot, so the cut is at the last dot |
| CaptureTarget.FileNameWithoutExtension | WindowCapture.cs:460-465 | no path boundary; the whole file name iff it has no dot; otherwise a prefix of the file name followed in it by a '.' with no later dot |
| CaptureTarget.ChangeExtensionAtDot | WindowCapture.cs:452 | when the scan back from the end meets a '.' before a boundary, the part kept is the directory part plus the file name without extension |
| CaptureTarget.ChangeExtensionNoDot | WindowCapture.cs:452 | when it meets a boundary or the start first, the whole path is kept, which is again the directory part plus the file name without extension |
| CaptureTarget.ChangeExtension | WindowCapture.cs:452 | an empty path stays empty; otherwise the result is the directory part, the file name without its extension, and the new extension |
| CaptureTarget.Unquote | WindowCapture.cs:468-472 | the name changes exactly when it is longer than one character and starts and ends with a quote, and then loses exactly those two quotes |
| CaptureTarget.UnquoteQuoted | WindowCapture.cs:468-472 | quoting any name and unquoting it gives the name back |
| CaptureTarget.UnquoteEdges | WindowCapture.cs:468-472 | two quotes become the empty name; a lone quote is kept |
| CaptureTarget.ResolveRequest | WindowCapture.cs:427-472 | for .win/.txt: hideCursor iff the trimmed, BOM-free text contains --no-cursor; name = that text without every --no-cursor, trimmed and unquoted; launch = the sibling .bat iff it exists. For other paths: no cursor hiding, name = unquoted file name without extension, launch = the path iff the lower-cased extension is .bat/.exe/.lnk/.url |
| Text.RemoveAllChangesIffContains | WindowCapture.cs:444-447 | removing --no-cursor changes the text iff the text contains it, so the guarded replacement equals an unconditional one |
| Text.Trim | WindowCapture.cs:439 | the result is the slice of the input between its leading and trailing white space and neither starts nor ends with white space |
| Text.TrimIdempotent | WindowCapture.cs:450 | trimming already-trimmed text changes nothing |
| CaptureInstance.PlanInitialize | WindowCapture.cs:112-154 | the game is launched iff a launch path is given and exists; the capture loop starts iff the name lacks a case-insensitive "spout:" prefix; the source is the text after the prefix, or GameCaptureWGC |
| CaptureInstance.SpoutPrefixSelectsName | WindowCapture.cs:141-154 | any spelling of "spout:" followed by a name selects exactly that name and starts no helper |
| CaptureInstance.HelperTarget | WindowCapture.cs:176 | the target holds no double quote and keeps every other character of the window name |
| CaptureInstance.HelperTargetConcat | WindowCapture.cs:176 | removing the quotes from a joined name removes them from each part, so order and multiplicity of the kept characters are preserved |
| CaptureInstance.HelperTargetChar | WindowCapture.cs:176 | a single character is dropped iff it is a double quote |
| CaptureInstance.HelperArgsRoundTrip | WindowCapture.cs:176-178 | with the corrected quoting, the helper's C runtime reads back exactly [target] plus "--no-cursor" iff the cursor is hidden |
| CaptureInstance.HelperArgsAgree | WindowCapture.cs:176-178 | the as-written and corrected argument strings are equal for every target not ending in a backslash |
| CaptureInstance.HelperArgsAsWrittenMergesFlag | WindowCapture.cs:176-178 | as written, a name ending in one backslash reaches the helper as a single argument: the name without that backslash, a quote, a blank and "--no-cursor"; the flag is lost |
| CommandLine.SplitQuoted | WindowCapture.cs:177 | a quoted argument, followed by anything, splits into the original text followed by the split of the rest |
| CommandLine.SplitUnescapedBackslash | WindowCapture.cs:177 | a backslash before the closing quote makes it literal, so the rest of the line joins the same argument |
| CaptureInstance.Classify | WindowCapture.cs:218-248 | a session ends iff the helper exited after more than 2 s; a failed start retries after 5 s, a short run after 1 s |
| CaptureInstance.ExactlyTwoSecondsRetries | WindowCapture.cs:234-248 | a run of exactly 2.0 s is retried after 1 s |
| CaptureInstance.ShutDownIffLongRun | WindowCapture.cs:190-249 | the loop ends the session iff some attempt ran longer than 2 s |
| CaptureInstance.RetryDelaysShape | WindowCapture.cs:190-249 | one delay per retried attempt (5 s after a failed start, 1 s after a short run); the attempt after the delays is the terminal one; without one, all attempts are retried |
| CaptureInstance.WindowCaptureInstance.CaptureLoop | WindowCapture.cs:161-250 | missing exe: nothing launched. Otherwise: the args are the helper args as written, the waits are the retry delays, launches count retries plus the terminal run, and the system is powered off and the instance destroyed iff a run lasted more than 2 s |
| CaptureInstance.WindowCaptureInstance.RunAttempts | WindowCapture.cs:190-249 | the retry loop: one launch per attempt up to the first long run, the waits are the retry delays, and it ends the session, powering off and destroying, iff some run lasted more than 2 s |
| CaptureInstance.WindowCaptureInstance.LateUpdate | WindowCapture.cs:263-335 | destroyed iff the core is not wgc_libretro; with a screen, a texture wider than 8 while the game runs is shown (receiving, TV on, screen material, block); otherwise receiving is cleared and the block dropped only if it was receiving; the display invariant is kept |
| SpoutUpdate.PluginPhaseAsWritten | WindowCapture.cs:550-561 | as written, a plugin that is used is non-zero and is what the field holds |
| SpoutUpdate.PluginPhaseCorrected | WindowCapture.cs:550-561 | a plugin that is used is non-zero and stored; when none is left the field is zero |
| SpoutUpdate.TexturePhase | WindowCapture.cs:570-613 | the texture part keeps the plugin field and the issued events and never aborts, given that its foreign calls do not throw |
| SpoutUpdate.UpdatePluginRules | WindowCapture.cs:550-568 | as written: an invalid plugin is disposed; the update aborts, leaving both textures and the plugin field and blitting nothing, iff no plugin is left and CreateReceiver returns zero; otherwise the plugin used receives the update event and is stored |
| SpoutUpdate.UpdatesDifferOnlyInField | WindowCapture.cs:550-568 | the as-written and corrected updates issue the same events, blit and textures; their plugin fields differ iff the update aborts after disposing a plugin, and the corrected field is then zero |
| SpoutUpdate.UpdateTextureRules | WindowCapture.cs:573-611 | a size mismatch destroys the shared texture; a shared texture is created iff none is left and the pointer is non-zero, at the reported size; the received texture is destroyed iff there is one and either a new shared texture is created (whatever keepLastFrame says) or no shared texture is left and the last frame is not kept, and it is then gone; a missing received texture is created at the shared size iff there is no target texture; nothing is blitted iff no shared texture is left, and otherwise the blit goes into the target texture when there is one, else into the received texture |
| SpoutUpdate.UpdateKeepsSizesAgree | WindowCapture.cs:573-611 | the received texture always has the shared texture's size |
| SpoutUpdate.AsWrittenDisposesTwice | WindowCapture.cs:550-561 | as written, an invalid plugin whose re-creation fails stays in the field and is disposed again on the next frame |
| SpoutUpdate.CorrectedDisposesOnce | WindowCapture.cs:550-561 | corrected, the field is cleared and the next frame disposes nothing |
| SpoutUpdate.SpoutReceiver.Tick | WindowCapture.cs:547-613 | the receiver's fields, the events issued and the blit are those of the update as written |
| SpoutUpdate.SpoutReceiver.RefreshPlugin | WindowCapture.cs:547-561 | the plugin field, the events and the plugin returned are those of the plugin part as written |
| SpoutUpdate.SpoutReceiver.UpdateTextures | WindowCapture.cs:570-613 | the textures and the blit are those of the texture part |
| CaptureOptions.TokensFlatten | Capture/main.cpp:238-252 | reading argv[1..] as tokens loses and reorders nothing |
| CaptureOptions.DanglingFlagIgnored | Capture/main.cpp:240-245 | "--target" or "--memname" as the last argument take nothing and are ignored |
| CaptureOptions.ApplyLastWins | Capture/main.cpp:238-252 | target and mapping name are the values of their last tokens; --hook and --desktop are set iff they occur |
| CaptureOptions.ParseArgs | Capture/main.cpp:238-252 | the argv loop computes exactly the options of the token reading |
| CaptureOptions.StartStatus | Capture/main.cpp:254-257 | status 1 iff the mapping name is empty, or the target is empty outside desktop mode; else 0 |
| CaptureOptions.NoMemNameFails | Capture/main.cpp:254-257 | without a "--memname" argument the helper stops with status 1 |
| CaptureOptions.LogPath | Capture/main.cpp:222-227 | the path ends in \GraphicsCapture.log, after the exe path up to its last separator, or after "." when there is none |
| CaptureOptions.HookEnvironment | Capture/main.cpp:276-279 | read as ANSI, the block gives the game exactly CAPTURE_MEMNAME=name and CAPTURE_LOGPATH=path |
| CaptureOptions.HookEnvironmentAsWritten | Capture/main.cpp:276-279 | with CREATE_UNICODE_ENVIRONMENT, the first unit the game reads is U+4143, not 'C' |
| ProcessSearch.MatchingProcess | Capture/main.cpp:85-92 | the match is the first entry after entry 0 whose name equals the target ignoring case, or none |
| ProcessSearch.MainWindow | Capture/main.cpp:96-107 | the window is the first enumerated visible, parentless window of the pid, or none |
| ProcessSearch.FindWindowByProcessName | Capture/main.cpp:79-110 | the two loops return the main window of the first matching process, or 0 when there is no match, the pid is 0 or no window qualifies |
| ProcessSearch.FirstEntryIgnored | Capture/main.cpp:85-87 | replacing the first snapshot entry never changes the result |
| ProcessSearch.NameCaseIgnored | Capture/main.cpp:88 | names equal ignoring case find the same window |
| ProcessSearch.FoundWindowBelongsToMatch | Capture/main.cpp:79-110 | a non-zero result is a main window of a matching process with a non-zero pid |
| WindowStyle.SignExtend | Capture/main.cpp:358 | widening a LONG keeps its low 32 bits and fills the high ones with its sign |
| WindowStyle.Borderless | Capture/main.cpp:357-360 | the five frame bits are cleared, WS_POPUP is set, every other bit is kept |
| WindowStyle.BorderlessIdempotent | Capture/main.cpp:357-360 | applying the style twice equals applying it once |
| WindowStyle.BorderlessFixedIff | Capture/main.cpp:357-360 | the style is unchanged iff it has no frame bit and has WS_POPUP |
| WindowStyle.OverlappedWindowChanged | Capture/main.cpp:357-360 | WS_OVERLAPPEDWINDOW becomes WS_POPUP |
| WindowStyle.AttachAsWritten | Capture/main.cpp:354-360 | as written, each round records the window and its current style and makes only that window borderless |
| WindowStyle.Attach | Capture/main.cpp:354-360 | corrected, a round on the already-captured window keeps the recorded style; only that window changes |
| WindowStyle.Restore | Capture/main.cpp:436-441 | the recorded style is written back iff a window was captured, still exists and the record is non-zero; nothing else changes |
| WindowStyle.AttachRoundsKeepOriginal | Capture/main.cpp:332-361 | corrected, any number of rounds on one window keep its first style and leave it borderless |
| WindowStyle.RestoreAfterRounds | Capture/main.cpp:436-441 | corrected, restoring after any number of rounds gives the window its original style back |
| WindowStyle.RestoreAsWrittenLosesStyle | Capture/main.cpp:354-441 | as written, after two rounds on one window, restoring leaves it borderless whenever the style had changed |
| CaptureHelper.ToU32 | Capture/main.cpp:162-164 | the cast keeps non-negative sizes and adds 2^32 to negative ones |
| CaptureHelper.NegativeSizeIsNotZero | Capture/main.cpp:162-170 | a negative reported size passes the zero check as a size of at least 2^31 |
| CaptureHelper.EncodeHeader | Capture/main.cpp:200-206 | 24 bytes: width LE at 0..4, height at 4..8, texture handle at 8..16, window at 16..24 |
| CaptureHelper.HeaderRoundTrip | Capture/main.cpp:171-206 | decoding the header at its offsets recovers every written field |
| CaptureHelper.HeaderBytesRoundTrip | Capture/main.cpp:171-206 | every 24-byte buffer encodes exactly one header |
| Bytes.EncodeLEDigit | Capture/main.cpp:200-205 | byte i of an n-byte little-endian store is digit i of the value in base 256 |
| Bytes.U32RoundTrip | Capture/main.cpp:200-201 | a 32-bit little-endian store reads back as the stored value |
| Bytes.U64RoundTrip | Capture/main.cpp:202-205 | a 64-bit little-endian store reads back as the stored value |
| CaptureHelper.Store | Capture/main.cpp:200-206 | the bytes land at the offset and nothing else in the view changes |
| CaptureHelper.WriteHeader | Capture/main.cpp:200-206 | the view holds exactly the encoded header |
| CaptureHelper.FirstStop | Capture/main.cpp:395-423 | the session ends at the first poll that reports a gone window, a changed client size or the Closed event |
| CaptureHelper.DesktopSessionEndsOnClose | Capture/main.cpp:395-423 | in desktop mode, a session ends iff the Closed event fires |
| CaptureHelper.WindowSessionEnds | Capture/main.cpp:395-423 | a live window of unchanged size ends the session only through Closed |
| CaptureHelper.RemapAsWritten | Capture/main.cpp:171-183 | as written, the old view is unmapped; the field keeps it when CreateFileMappingA fails, becomes null when MapViewOfFile fails, and holds the new view otherwise |
| CaptureHelper.RemapCorrected | Capture/main.cpp:171-183 | corrected, the old view is unmapped and the field holds the new view on success and null on any failure |
| CaptureHelper.StaleViewUnmappedTwice | Capture/main.cpp:171-183 | as written, after a failed CreateFileMappingA the next initialisation unmaps the same view again |
| CaptureHelper.CorrectedUnmapsOnce | Capture/main.cpp:171-183 | corrected, a second initialisation unmaps an address again only when the first mapped a new view there |
| CaptureHelper.CaptureHelper.InitializeCapture | Capture/main.cpp:139-212 | sizes are the cast item size; a zero size sets reinit, fails and leaves the view alone; otherwise the old view is recorded as unmapped, a failed CreateFileMappingA keeps it in the field, a failed MapViewOfFile leaves null, and success leaves a fresh 24-byte view holding the header |
| CaptureHelper.CaptureHelper.RetryAfterFailedMapping | Capture/main.cpp:171-183 | after an initialisation whose CreateFileMappingA fails, the next one unmaps the same view again: the record grows by that view twice |
| CaptureHelper.CaptureHelper.RunSession | Capture/main.cpp:395-423 | the inner loop ends with the first stopping poll's reason (window gone, resized, closed) and sets reinit iff the client size changed |
| CaptureHelper.CaptureHelper.FrameArrived | Capture/main.cpp:131-137 | a frame is copied iff there is one and no re-initialisation is pending |
| CaptureHelper.CaptureHelper.Round | Capture/main.cpp:346-423 | outside desktop mode the window becomes borderless and its current style is recorded, as written; the views unmapped and the view kept, stale or null, follow the initialisation; the polled size changes only when a session starts outside desktop mode; the round fails iff initialisation fails; otherwise the client size is recorded and the session outcome decides reinit |
| CaptureHelper.CaptureHelper.RestoreStyle | Capture/main.cpp:436-441 | the style record is restored by the restore rule; nothing else changes |
| SpoutSender.ExeName | CaptureApp/SpoutWGCSender.cpp:109 | the file name ends the path, holds no separator, and follows a separator unless it is the whole path |
| SpoutSender.ExeNameOfJoin | CaptureApp/SpoutWGCSender.cpp:109 | a separator-free name is its own file name, alone or after any directory |
| SpoutSender.ExeMatchFrom | CaptureApp/SpoutWGCSender.cpp:94-119 | the first visible window, from i on, whose exe name equals the target ignoring case |
| SpoutSender.ExeSearch | CaptureApp/SpoutWGCSender.cpp:94-121 | the search returns 0 iff no visible window's exe name matches |
| SpoutSender.InvisibleIgnored | CaptureApp/SpoutWGCSender.cpp:98 | dropping the invisible windows never changes the result |
| SpoutSender.FindTargetWindow | CaptureApp/SpoutWGCSender.cpp:81-122 | an exact title match is returned before any search; otherwise the first matching visible window, or 0 |
| SpoutSender.ParseCli | CaptureApp/SpoutWGCSender.cpp:179-188 | argv[1] is the target (the typed line without arguments); the cursor is disabled iff some argv[i], i >= 2, is --no-cursor |
| SpoutSender.InitialSlot | CaptureApp/SpoutWGCSender.cpp:220-221 | the empty slot owns no texture |
| SpoutSender.SizeLatch | CaptureApp/SpoutWGCSender.cpp:242-251 | the last size changes, to the content size, iff that size differs and is positive in both dimensions |
| SpoutSender.LastSizeStaysPositive | CaptureApp/SpoutWGCSender.cpp:242-251 | a positive last size stays positive forever |
| SpoutSender.ArriveOwned | CaptureApp/SpoutWGCSender.cpp:259-264 | a new texture replaces the held one, which is released: every received texture is released or held |
| SpoutSender.TakeOwned | CaptureApp/SpoutWGCSender.cpp:293-303 | the consumer keeps that accounting |
| SpoutSender.SendsLatest | CaptureApp/SpoutWGCSender.cpp:259-303 | an arrived texture is the next one sent, and only once |
| SpoutSender.NoTextureKeepsSlot | CaptureApp/SpoutWGCSender.cpp:253-264 | a frame without a texture leaves what is held and flagged |
| SpoutSender.CleanupReleasesAll | CaptureApp/SpoutWGCSender.cpp:328-331 | after cleanup every received texture has been released once |
| SpoutSender.ExitCheck | CaptureApp/SpoutWGCSender.cpp:286-291 | END exits by the user; otherwise a closed item or a gone window exits by the target; else the loop continues |
| SpoutSender.RunExit | CaptureApp/SpoutWGCSender.cpp:277-322 | the loop ends at the first tick whose checks fire, and END wins |
| SpoutSender.RunOwned | CaptureApp/SpoutWGCSender.cpp:277-331 | the loop keeps the texture accounting, and everything sent is a received texture |
| SpoutSender.Finish | CaptureApp/SpoutWGCSender.cpp:337-348 | early failures give status 1 and no prompt; otherwise status 0 and the ENTER prompt iff the target did not close (a caught capture error prompts iff the target had not closed before it, so an error thrown by the cleanup after the target closed gives no prompt) |
| SpoutSender.Sender.FrameArrived | CaptureApp/SpoutWGCSender.cpp:236-265 | the slot afterwards is the arrival's; the pool is recreated iff the size latch fires |
| SpoutSender.Sender.TakeFrame | CaptureApp/SpoutWGCSender.cpp:293-303 | the consumer step clears the flag and returns the texture only when one is held |
| SpoutSender.Sender.MainLoop | CaptureApp/SpoutWGCSender.cpp:277-322 | the slot, the exit reason and the sent textures are those of the loop specification |
| RenderPlugin.Close | Capture/RenderPlugin.cpp:56-59 | the opened texture is released and forgotten; nothing else changes |
| RenderPlugin.StepBalanced | Capture/RenderPlugin.cpp:44-123 | every exported call keeps every opened texture either released once or still open |
| RenderPlugin.SetSharedHandleOnlyHandle | Capture/RenderPlugin.cpp:44-49 | SetSharedHandle changes only the shared handle |
| RenderPlugin.SetTextureReleases | Capture/RenderPlugin.cpp:52-61 | SetTextureFromUnity releases the opened texture, leaves none open and stores the new pointer |
| RenderPlugin.RenderNeedsEverything | Capture/RenderPlugin.cpp:66-70 | without a device, a handle, a Unity texture or a context, a render event changes nothing |
| RenderPlugin.OpenOnlyWhenClosed | Capture/RenderPlugin.cpp:75-88 | with a texture open, no open is attempted and the state stays |
| RenderPlugin.FailedOpenClearsHandle | Capture/RenderPlugin.cpp:75-86 | a failed open nulls the handle, copies nothing, and later events do nothing until a new handle |
| RenderPlugin.CopyIffOpen | Capture/RenderPlugin.cpp:90-94 | a copy from the opened texture into Unity's is issued iff a texture is open after the open step |
| RenderPlugin.RotationKeepsOldTexture | Capture/RenderPlugin.cpp:44-94 | a new handle keeps copying from the old texture; a new Unity texture then opens the new handle |
| RenderPlugin.UnloadReleasesAll | Capture/RenderPlugin.cpp:116-123 | unloading leaves none open and every opened texture released |
| RenderPlugin.RunBalanced | Capture/RenderPlugin.cpp:44-123 | any call sequence keeps the balance, and a final unload releases everything opened |
| RenderPlugin.Plugin.UnityPluginLoad | Capture/RenderPlugin.cpp:100-114 | the device is taken only when Unity offers a D3D11 interface |
| RenderPlugin.Plugin.SetSharedHandle | Capture/RenderPlugin.cpp:44-49 | the globals follow the SetSharedHandle step |
| RenderPlugin.Plugin.ReleaseOpened | Capture/RenderPlugin.cpp:56-59 | the globals follow Close |
| RenderPlugin.Plugin.SetTextureFromUnity | Capture/RenderPlugin.cpp:52-61 | the globals follow the SetTextureFromUnity step |
| RenderPlugin.Plugin.OnRenderEvent | Capture/RenderPlugin.cpp:64-97 | the globals and the copy issued follow the render step |
| RenderPlugin.Plugin.UnityPluginUnload | Capture/RenderPlugin.cpp:116-123 | the globals follow the unload step |

## Left out

- I/O and timing.
  - Not modelled: logging, the console, file reads, Process.Start, the
    orphan sweep, output redirection, `Sleep`, `WaitForSeconds`,
    `MsgWaitForMultipleObjects` timeouts and the message pump.
  - Their results are inputs, and delays are kept as values.
- Direct3D11, DXGI, WinRT Graphics Capture and Spout: device creation,
  frame pools, `CopyResource`, `OpenSharedResource`, `SendTexture`.
  - These are foreign APIs, so only their outcomes are inputs.
  - Exceptions they throw through `check_hresult` inside the helper's
    capture loop, and the `catch` at Capture/main.cpp:429-432, are not
    modelled. The sender's top-level `catch`
    (CaptureApp/SpoutWGCSender.cpp:337-340) is modelled by
    `SpoutSender.Finish` as `CaptureFailed`. It gives status 0, and the
    ENTER prompt unless the error came after the loop saw the target close.
- CaptureTarget.ResolveRequest and SpoutUpdate.TexturePhase: the mod's
  foreign calls are taken not to throw, so its two `catch (Exception)`
  blocks are not modelled.
  - They are at WindowCapture.cs:491-494 and 618-622.
  - The foreign calls are the reflection calls, `Texture2D.CreateExternalTexture`
    and `Graphics.Blit`. On the source, an exception from one of these ends
    the rest of the path handling or of that frame's texture work.
  - `File.ReadAllText`'s own empty `catch` (WindowCapture.cs:438-441) is
    covered by the input: a read that throws leaves the text empty, like a
    missing file, which is `fileText == None`.
- Hook mode's DLL injection (Capture/main.cpp:259-319) is not modelled. It is
  process plumbing; the model keeps its environment block and creation
  flags.
- Harmony patching and the reflection lookups in WindowCapture.cs are not
  modelled. Their fields are modelled as the values they return.
- `LateUpdate`'s aspect-ratio stretch and property-block contents
  (WindowCapture.cs:302-325) are floating point and Unity rendering. The
  block is summarised as "shows the captured texture".
- Parts of the mod that are not modelled:
  - `OnDestroy` and `SetScreenController` are not modelled; whether a screen
    controller and renderer exist is an input of `LateUpdate`.
  - `LateUpdate` with no game system is out of scope: `Start` destroys such
    an instance first.
  - `Path.GetFullPath` is not modelled.
- The sender's mutex and atomics (CaptureApp/SpoutWGCSender.cpp:60-63) are
  not modelled. Frame callbacks and main-loop passes are taken one after
  another.
- Reference counting is not modelled. Texture references are tracked only as
  "received" and "released" sequences; the AddRef/Release pair around
  `SendTexture` is balanced and omitted.
- Capture/main.cpp's outer loop never clears `capture_running`, so its
  window search (Capture/main.cpp:336-344) repeats forever.
  - The model covers one round at a time and the shutdown restore separately.
  - The search's `IsWindow`/`IsIconic` waiting is not modelled.
- CaptureHelper.CaptureHelper.InitializeCapture: the file-mapping handle and
  its `CloseHandle` are not modelled; the unmapped views are recorded in
  `unmapped`, so the stale view kept after a failed `CreateFileMappingA`
  shows up there a second time on the next initialisation.
- CaptureHelper.CaptureHelper.FrameArrived: `capture_running` is always true,
  so its check is omitted.
- Case-insensitive comparison:
  - `_wcsicmp`, `_stricmp` and `OrdinalIgnoreCase` fold only the ASCII
    letters in this model, and `ToLower` on extensions does the same.
  - ProcessSearch.FindWindowByProcessName takes the target name as already
    widened. It does not model the per-byte widening of an ANSI name to a
    wide string (Capture/main.cpp:335).
- FindWindowA and the queries `OpenProcess`, `GetProcessImageFileNameA`,
  `GetWindowThreadProcessId`, `IsWindowVisible` and `GetParent` are not
  modelled. Their results are fields of the window and process records.
- The sender's `CreateDispatcherQueueController` check
  (CaptureApp/SpoutWGCSender.cpp:139) is outside its `try`. A failure there
  ends the program with an unhandled exception, neither status 0 nor 1. This
  is not modelled.
- The sender's restore of a minimised target window
  (CaptureApp/SpoutWGCSender.cpp:198) is not modelled. It only changes the
  window's state, and no later decision in the model depends on it.
- `Initialize`'s process launch is not modelled; only the decision to launch
  is.
- The shared-memory reader, touch injection and ambient-light sampling are
  not modelled. None of them has code in these files.

## Findings

| source | as written | input that shows it | evidently intended | confidence | as-written member | corrected member |
|---|---|---|---|---|---|---|
| WindowCapture.cs:176-178 | the target is put between quotes unescaped, so a trailing backslash escapes the closing quote under the C runtime's argv rules | window name `C:\Games\` with --no-cursor: the helper gets one argument `C:\Games" --no-cursor`, which names no window, so the sender exits with status 1, CaptureLoop retries every second forever and capture never starts | double the trailing backslashes before the closing quote, so the helper reads the target and the flag back | medium, not executed | CaptureInstance.HelperArgsAsWrittenMergesFlag | CaptureInstance.HelperArgsRoundTrip |
| WindowCapture.cs:550-561 | an invalid plugin is disposed and zeroed only in a local; when CreateReceiver then returns zero the method returns before writing the field | plugin p turns invalid while the sender is absent: p is disposed on this frame and again on the next | clear the field together with the local, so a disposed plugin is never disposed again | medium (assumes CheckValid keeps reporting the disposed plugin invalid), not executed | SpoutUpdate.AsWrittenDisposesTwice | SpoutUpdate.CorrectedDisposesOnce |
| Capture/main.cpp:171-183 | the old view is unmapped but the buffer field keeps the pointer; when CreateFileMappingA then fails, the function returns with the stale pointer still stored | a first initialisation with a mapped view p whose CreateFileMappingA fails: the round retries and the next initialisation calls UnmapViewOfFile(p) again, which fails, or unmaps another mapping if one was placed at p meanwhile | set the field to null after unmapping | low (the second call usually only fails), not executed | CaptureHelper.StaleViewUnmappedTwice | CaptureHelper.CorrectedUnmapsOnce |
| Capture/main.cpp:276-279 | an ANSI environment block is passed to CreateProcessA with CREATE_UNICODE_ENVIRONMENT | any hook-mode start: the first character the game reads is U+4143, not "CAPTURE_MEMNAME=" | pass only CREATE_SUSPENDED so the block is read as ANSI | high, not executed | CaptureOptions.HookEnvironmentAsWritten | CaptureOptions.HookEnvironment |
| Capture/main.cpp:354-360 | every round of the outer loop records the window's current style, which from the second round on is already borderless | window W with WS_OVERLAPPEDWINDOW is resized once, so two rounds capture it and the second records the borderless style; a later round's search returns another window of the game that is destroyed before the check at line 347 while W still exists; the loop breaks and the restore at 436-441 writes WS_POPUP back to W, not the caption style | record the style only when a new window is captured | low (needs that race; otherwise the loop never ends and nothing is restored), not executed | WindowStyle.RestoreAsWrittenLosesStyle | WindowStyle.RestoreAfterRounds |
