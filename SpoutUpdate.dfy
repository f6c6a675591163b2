/**
  The mod's replacement for the Klak Spout receiver's Update
  (WindowCapture.cs, CaptureCore.OnSpoutUpdatePrefix): keep a native
  receiver plugin alive, wrap the texture it shares in an external texture,
  and copy that into the texture the game displays.

  The native plugin is an oracle: one PluginReport per frame says whether
  the current plugin is still valid, what CreateReceiver returned, and the
  texture pointer and size the plugin reports after the update event.
  Texture destruction is deferred to the end of the frame (Unity's
  Object.Destroy while playing): a texture destroyed during the update is
  still the one blitted into in that frame and reads as absent afterwards.
 */
module SpoutUpdate {
  import opened Wrappers

  datatype SharedTexture = SharedTexture(width: int, height: int, pointer: nat)
  datatype ReceivedTexture = ReceivedTexture(width: int, height: int)

  datatype PluginReport = PluginReport(valid: bool, created: nat, pointer: nat, width: int, height: int)

  /** Events issued to the native plugin: 1 disposes a receiver, 0 updates it. */
  datatype PluginEvent = Dispose(plugin: nat) | UpdateEvent(plugin: nat)

  datatype Blit = NoBlit | BlitToTarget | BlitToReceived

  /** The receiver's _plugin, _sharedTexture and _receivedTexture fields. */
  datatype Receiver = Receiver(plugin: nat, shared: Option<SharedTexture>, received: Option<ReceivedTexture>)

  /** What one update did, besides its new fields. */
  datatype Frame = Frame(events: seq<PluginEvent>, aborted: bool, destroyedShared: bool,
                         destroyedReceived: bool, createdShared: bool, createdReceived: bool, blit: Blit)

  datatype Step = Step(next: Receiver, frame: Frame)

  /** Result of the plugin part: events issued, what the _plugin field holds, and the plugin to use. */
  datatype PluginPhase = PluginPhase(events: seq<PluginEvent>, field: nat, active: Option<nat>)

  /**
    The plugin part as written (lines 550-561): an invalid plugin is disposed
    and forgotten in a local only; when CreateReceiver then returns zero the
    update returns before the field is written, so the field keeps the
    disposed plugin.
   */
  function PluginPhaseAsWritten(plugin: nat, valid: bool, created: nat): (r: PluginPhase)
    ensures r.active.Some? ==> r.active.value != 0 && r.field == r.active.value
  {
    var disposed := plugin != 0 && !valid;
    var events := if disposed then [Dispose(plugin)] else [];
    var local := if disposed then 0 else plugin;
    if local != 0 then PluginPhase(events, plugin, Some(local))
    else if created == 0 then PluginPhase(events, plugin, None)
    else PluginPhase(events, created, Some(created))
  }

  /** The plugin part with the disposed plugin cleared from the field too, as the intended reset to zero does. */
  function PluginPhaseCorrected(plugin: nat, valid: bool, created: nat): (r: PluginPhase)
    ensures r.active.Some? ==> r.active.value != 0 && r.field == r.active.value
    ensures r.active.None? ==> r.field == 0
  {
    var disposed := plugin != 0 && !valid;
    var events := if disposed then [Dispose(plugin)] else [];
    var local := if disposed then 0 else plugin;
    if local != 0 then PluginPhase(events, plugin, Some(local))
    else if created == 0 then PluginPhase(events, 0, None)
    else PluginPhase(events, created, Some(created))
  }

  /**
    The texture part (lines 570-613), for a live plugin that reported the
    given pointer and size.
   */
  function TexturePhase(s: Receiver, field: nat, events: seq<PluginEvent>,
                        keep: bool, hasTarget: bool, pointer: nat, width: int, height: int): (r: Step)
    ensures r.next.plugin == field && !r.frame.aborted && r.frame.events == events
  {
    var mismatch := s.shared.Some? && (width != s.shared.value.width || height != s.shared.value.height);
    var shared1 := if mismatch then None else s.shared;
    var createShared := shared1.None? && pointer != 0;
    var shared2 := if createShared then Some(SharedTexture(width, height, pointer)) else shared1;
    var destroyReceived := (mismatch && !keep) || createShared || (shared1.None? && !keep);
    var createReceived := shared2.Some? && !hasTarget && s.received.None?;
    var received2 := if createReceived then Some(ReceivedTexture(shared2.value.width, shared2.value.height))
                     else s.received;
    var blit := if shared2.None? then NoBlit else if hasTarget then BlitToTarget else BlitToReceived;
    var destroyedReceived := destroyReceived && s.received.Some?;
    Step(Receiver(field, shared2, if destroyedReceived then None else received2),
         Frame(events, false, mismatch, destroyedReceived, createShared, createReceived, blit))
  }

  function Assemble(s: Receiver, phase: PluginPhase, keep: bool, hasTarget: bool, report: PluginReport): (r: Step)
  {
    match phase.active
    case None =>
      Step(s.(plugin := phase.field), Frame(phase.events, true, false, false, false, false, NoBlit))
    case Some(p) =>
      TexturePhase(s, phase.field, phase.events + [UpdateEvent(p)], keep, hasTarget,
                   report.pointer, report.width, report.height)
  }

  /** One update as written. */
  function UpdateAsWritten(s: Receiver, keep: bool, hasTarget: bool, report: PluginReport): Step {
    Assemble(s, PluginPhaseAsWritten(s.plugin, report.valid, report.created), keep, hasTarget, report)
  }

  /** One update with the corrected plugin part. */
  function UpdateCorrected(s: Receiver, keep: bool, hasTarget: bool, report: PluginReport): Step {
    Assemble(s, PluginPhaseCorrected(s.plugin, report.valid, report.created), keep, hasTarget, report)
  }

  /**
    The plugin rules as written: an invalid plugin is disposed first; the
    update aborts, leaving both textures and the _plugin field, exactly when
    no plugin is left and CreateReceiver returns zero; otherwise the plugin
    used gets the update event and is what the field holds.
   */
  lemma UpdatePluginRules(s: Receiver, keep: bool, hasTarget: bool, report: PluginReport)
    ensures var r := UpdateAsWritten(s, keep, hasTarget, report);
            var disposed := s.plugin != 0 && !report.valid;
            var used := if s.plugin != 0 && report.valid then s.plugin else report.created;
            (r.frame.aborted <==> used == 0) &&
            r.frame.events == (if disposed then [Dispose(s.plugin)] else []) +
                              (if used == 0 then [] else [UpdateEvent(used)]) &&
            r.next.plugin == (if used == 0 then s.plugin else used) &&
            (r.frame.aborted ==> r.next.shared == s.shared && r.next.received == s.received &&
                                 r.frame.blit == NoBlit)
  {
  }

  /**
    The two updates do the same thing in every frame, except that the
    corrected one clears the field when the update aborts after a dispose.
   */
  lemma UpdatesDifferOnlyInField(s: Receiver, keep: bool, hasTarget: bool, report: PluginReport)
    ensures var w := UpdateAsWritten(s, keep, hasTarget, report);
            var c := UpdateCorrected(s, keep, hasTarget, report);
            w.frame == c.frame && w.next.shared == c.next.shared && w.next.received == c.next.received &&
            (w.next.plugin != c.next.plugin <==> w.frame.aborted && s.plugin != 0 && !report.valid) &&
            (c.frame.aborted ==> c.next.plugin == 0)
  {
  }

  /**
    The texture rules of a non-aborted update: a size mismatch destroys the
    shared texture; a shared texture is created exactly when none is left
    and the pointer is nonzero, with the reported size; the received texture
    is destroyed when a shared texture is created, whatever keepLastFrame
    says, and otherwise when no shared texture is left and the last frame
    is not kept; a missing received texture is created at the shared
    texture's size when there is no target texture.
   */
  lemma UpdateTextureRules(s: Receiver, keep: bool, hasTarget: bool, report: PluginReport)
    requires !UpdateAsWritten(s, keep, hasTarget, report).frame.aborted
    ensures var r := UpdateAsWritten(s, keep, hasTarget, report);
            var mismatch := s.shared.Some? &&
                            (report.width != s.shared.value.width || report.height != s.shared.value.height);
            (r.frame.destroyedShared <==> mismatch) &&
            (r.frame.destroyedReceived <==>
               s.received.Some? && (r.frame.createdShared || ((s.shared.None? || mismatch) && !keep))) &&
            (r.frame.destroyedReceived ==> r.next.received.None?) &&
            (!r.frame.destroyedReceived && !r.frame.createdReceived ==> r.next.received == s.received) &&
            (r.frame.createdShared <==> (s.shared.None? || mismatch) && report.pointer != 0) &&
            (r.frame.createdShared ==>
               r.next.shared == Some(SharedTexture(report.width, report.height, report.pointer))) &&
            (!r.frame.createdShared && !mismatch ==> r.next.shared == s.shared) &&
            (r.frame.createdReceived <==> r.next.shared.Some? && !hasTarget && s.received.None?) &&
            (r.frame.createdReceived ==>
               r.next.received == Some(ReceivedTexture(r.next.shared.value.width, r.next.shared.value.height)))
    ensures var r := UpdateAsWritten(s, keep, hasTarget, report);
            (r.frame.blit == NoBlit <==> r.next.shared.None?) &&
            (r.next.shared.Some? ==> r.frame.blit == (if hasTarget then BlitToTarget else BlitToReceived))
  {
  }

  /** The received texture, when there is one beside a shared texture, has the shared texture's size. */
  predicate SizesAgree(s: Receiver) {
    s.shared.Some? && s.received.Some? ==>
      s.received.value.width == s.shared.value.width && s.received.value.height == s.shared.value.height
  }

  /** Every update keeps the sizes in agreement. */
  lemma UpdateKeepsSizesAgree(s: Receiver, keep: bool, hasTarget: bool, report: PluginReport)
    requires SizesAgree(s)
    ensures SizesAgree(UpdateAsWritten(s, keep, hasTarget, report).next)
    ensures SizesAgree(UpdateCorrected(s, keep, hasTarget, report).next)
  {
  }

  /**
    As written, when the plugin turns invalid and CreateReceiver fails, the
    field keeps the disposed plugin, and the next update with the same
    reports disposes the same plugin again.
   */
  lemma AsWrittenDisposesTwice(p: nat, keep: bool, hasTarget: bool)
    requires p != 0
    ensures var report := PluginReport(false, 0, 0, 0, 0);
            var first := UpdateAsWritten(Receiver(p, None, None), keep, hasTarget, report);
            var second := UpdateAsWritten(first.next, keep, hasTarget, report);
            first.frame.events == [Dispose(p)] && first.next.plugin == p &&
            second.frame.events == [Dispose(p)]
  {
  }

  /**
    Corrected, a disposed plugin never stays in the field (unless
    CreateReceiver hands back the same value), so a failed re-creation is
    followed by a fresh CreateReceiver and no second dispose.
   */
  lemma CorrectedDisposesOnce(s: Receiver, keep: bool, hasTarget: bool, report: PluginReport, later: PluginReport)
    requires s.plugin != 0 && !report.valid && report.created == 0
    ensures var first := UpdateCorrected(s, keep, hasTarget, report);
            var second := UpdateCorrected(first.next, keep, hasTarget, later);
            first.frame.events == [Dispose(s.plugin)] && first.next.plugin == 0 &&
            forall e :: e in second.frame.events ==> !e.Dispose?
  {
  }

  class SpoutReceiver {
    var plugin: nat
    var shared: Option<SharedTexture>
    var received: Option<ReceivedTexture>
    /** Every event issued to the native plugin so far. */
    var events: seq<PluginEvent>
    const keepLastFrame: bool
    const hasTarget: bool

    function State(): Receiver
      reads this
    {
      Receiver(plugin, shared, received)
    }

    constructor (keepLastFrame: bool, hasTarget: bool)
      ensures State() == Receiver(0, None, None) && events == []
      ensures this.keepLastFrame == keepLastFrame && this.hasTarget == hasTarget
    {
      plugin := 0;
      shared := None;
      received := None;
      events := [];
      this.keepLastFrame := keepLastFrame;
      this.hasTarget := hasTarget;
    }

    /** One frame of the receiver, driven by the native plugin's report. */
    method Tick(report: PluginReport) returns (blit: Blit)
      modifies this`plugin, this`shared, this`received, this`events
      ensures State() == UpdateAsWritten(old(State()), keepLastFrame, hasTarget, report).next
      ensures events == old(events) + UpdateAsWritten(old(State()), keepLastFrame, hasTarget, report).frame.events
      ensures blit == UpdateAsWritten(old(State()), keepLastFrame, hasTarget, report).frame.blit
    {
      var p := RefreshPlugin(report);
      if p == 0 {
        return NoBlit;
      }
      events := events + [UpdateEvent(p)];
      blit := UpdateTextures(report);
    }

    /** The plugin part: dispose an invalid plugin, create one when there is none; 0 aborts the update. */
    method RefreshPlugin(report: PluginReport) returns (p: nat)
      modifies this`plugin, this`events
      ensures var phase := PluginPhaseAsWritten(old(plugin), report.valid, report.created);
              plugin == phase.field && events == old(events) + phase.events &&
              p == (if phase.active.Some? then phase.active.value else 0)
    {
      p := plugin;
      if p != 0 && !report.valid {
        events := events + [Dispose(p)];
        p := 0;
      }
      if p == 0 {
        p := report.created;
        if p == 0 {
          return 0;
        }
        plugin := p;
      }
    }

    /** The texture part, once the plugin has been updated. */
    method UpdateTextures(report: PluginReport) returns (blit: Blit)
      modifies this`shared, this`received
      ensures var r := TexturePhase(old(State()), plugin, [], keepLastFrame, hasTarget,
                                    report.pointer, report.width, report.height);
              shared == r.next.shared && received == r.next.received && blit == r.frame.blit
    {
      var sharedTexture := shared;
      var receivedTexture := received;
      var hadReceived := received.Some?;
      var destroyReceived := false;
      if sharedTexture.Some? && (report.width != sharedTexture.value.width || report.height != sharedTexture.value.height) {
        if !keepLastFrame { destroyReceived := true; }
        sharedTexture := None;
        shared := None;
      }
      if sharedTexture.None? && report.pointer != 0 {
        sharedTexture := Some(SharedTexture(report.width, report.height, report.pointer));
        shared := sharedTexture;
        destroyReceived := true;
      } else if sharedTexture.None? && receivedTexture.Some? && !keepLastFrame {
        destroyReceived := true;
      }
      blit := NoBlit;
      if sharedTexture.Some? {
        if hasTarget {
          blit := BlitToTarget;
        } else {
          if receivedTexture.None? {
            receivedTexture := Some(ReceivedTexture(sharedTexture.value.width, sharedTexture.value.height));
            received := receivedTexture;
          }
          blit := BlitToReceived;
        }
      }
      // Textures destroyed during the frame are gone once it ends.
      if destroyReceived && hadReceived {
        received := None;
      }
    }
  }
}
