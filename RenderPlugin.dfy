/**
  The native Unity render plugin (Capture/RenderPlugin.cpp): three global
  handles, namely the shared handle published by the capture helper, Unity's
  destination texture, and the texture opened from the shared handle, driven
  by the exported functions.

  Pointers and handles are numbers, 0 standing for null.  The opened texture
  is named by the shared handle it was opened from.  Whether Unity supplies a
  D3D11 interface, whether an immediate context is obtained and whether
  OpenSharedResource succeeds are inputs.  The opened textures and their
  releases are recorded so that their balance can be stated.
 */
module RenderPlugin {
  import opened Wrappers

  datatype PluginState = PluginState(device: nat, sharedHandle: nat, unityTexture: nat, openedFrom: nat,
                                     opens: seq<nat>, released: seq<nat>)

  /** A CopyResource call: from the opened texture into Unity's texture. */
  datatype Copy = Copy(destination: nat, source: nat)

  datatype Event =
    | Load(d3d11Device: Option<nat>)
    | SetSharedHandle(handle: nat)
    | SetTextureFromUnity(texture: nat)
    | RenderEvent(contextOk: bool, openOk: bool)
    | Unload

  const Initial: PluginState := PluginState(0, 0, 0, 0, [], [])

  function Held(s: PluginState): seq<nat> {
    if s.openedFrom != 0 then [s.openedFrom] else []
  }

  /** Every texture opened so far has been released once, except the one still open. */
  predicate Balanced(s: PluginState) {
    s.released + Held(s) == s.opens
  }

  /** Release the opened texture, if any, and forget it. */
  function Close(s: PluginState): (r: PluginState)
    ensures r.openedFrom == 0 && r.released == s.released + Held(s)
    ensures r.device == s.device && r.sharedHandle == s.sharedHandle && r.unityTexture == s.unityTexture
    ensures r.opens == s.opens
  {
    s.(openedFrom := 0, released := s.released + Held(s))
  }

  /**
    OnRenderEvent: nothing happens without a device, a shared handle, a Unity
    texture and a context.  With no texture open, the shared handle is opened;
    a failed open clears the handle and copies nothing.  Then the open texture,
    if any, is copied into Unity's texture.
   */
  function Render(s: PluginState, contextOk: bool, openOk: bool): (PluginState, Option<Copy>) {
    if s.device == 0 || s.sharedHandle == 0 || s.unityTexture == 0 || !contextOk then (s, None)
    else if s.openedFrom == 0 && !openOk then (s.(sharedHandle := 0), None)
    else
      var s1 := if s.openedFrom == 0 then s.(openedFrom := s.sharedHandle, opens := s.opens + [s.sharedHandle]) else s;
      (s1, Some(Copy(s1.unityTexture, s1.openedFrom)))
  }

  /** The plugin's state after an event, and the copy it issues. */
  function Step(s: PluginState, e: Event): (PluginState, Option<Copy>) {
    match e
    case Load(d) => (if d.Some? then s.(device := d.value) else s, None)
    case SetSharedHandle(h) => (s.(sharedHandle := h), None)
    case SetTextureFromUnity(t) => (Close(s).(unityTexture := t), None)
    case RenderEvent(c, o) => Render(s, c, o)
    case Unload => (Close(s), None)
  }

  /** Every event keeps the opened textures balanced against their releases. */
  lemma StepBalanced(s: PluginState, e: Event)
    requires Balanced(s)
    ensures Balanced(Step(s, e).0)
  {
  }

  /** Setting the shared handle changes the handle and nothing else. */
  lemma SetSharedHandleOnlyHandle(s: PluginState, h: nat)
    ensures Step(s, SetSharedHandle(h)).0 == s.(sharedHandle := h)
    ensures Step(s, SetSharedHandle(h)).0.openedFrom == s.openedFrom && Step(s, SetSharedHandle(h)).0.unityTexture == s.unityTexture
  {
  }

  /** A new Unity texture releases the opened one and leaves none open. */
  lemma SetTextureReleases(s: PluginState, t: nat)
    ensures var r := Step(s, SetTextureFromUnity(t)).0;
            r.openedFrom == 0 && r.unityTexture == t && r.sharedHandle == s.sharedHandle &&
            r.released == s.released + (if s.openedFrom != 0 then [s.openedFrom] else [])
  {
  }

  /** Without a device, a shared handle, a Unity texture or a context a render event changes nothing. */
  lemma RenderNeedsEverything(s: PluginState, contextOk: bool, openOk: bool)
    requires s.device == 0 || s.sharedHandle == 0 || s.unityTexture == 0 || !contextOk
    ensures Render(s, contextOk, openOk) == (s, None)
  {
  }

  /** An open is attempted only when none is open: with a texture open, the outcome of an open is irrelevant. */
  lemma OpenOnlyWhenClosed(s: PluginState, contextOk: bool)
    requires s.openedFrom != 0
    ensures Render(s, contextOk, true) == Render(s, contextOk, false)
    ensures Render(s, contextOk, true).0 == s
  {
  }

  /**
    A failed open clears the shared handle and copies nothing, and later render
    events do nothing until a new handle is set.
   */
  lemma FailedOpenClearsHandle(s: PluginState, c2: bool, o2: bool)
    requires s.device != 0 && s.sharedHandle != 0 && s.unityTexture != 0 && s.openedFrom == 0
    ensures Render(s, true, false) == (s.(sharedHandle := 0), None)
    ensures var r := Render(s, true, false).0; Render(r, c2, o2) == (r, None)
  {
  }

  /** A copy is issued exactly when a texture is open after the open step, and it reads that texture. */
  lemma CopyIffOpen(s: PluginState, contextOk: bool, openOk: bool)
    ensures var (r, copy) := Render(s, contextOk, openOk);
            copy.Some? <==> s.device != 0 && s.sharedHandle != 0 && s.unityTexture != 0 && contextOk && r.openedFrom != 0
    ensures var (r, copy) := Render(s, contextOk, openOk);
            copy.Some? ==> copy.value == Copy(s.unityTexture, r.openedFrom)
  {
  }

  /**
    Handle rotation does not reopen: after a new shared handle the plugin keeps
    copying from the texture it opened from the old one; after a new Unity
    texture the next successful render opens and copies from the new handle.
   */
  lemma RotationKeepsOldTexture(s: PluginState, h: nat, t: nat)
    requires s.device != 0 && s.unityTexture != 0 && s.openedFrom != 0 && h != 0 && h != s.openedFrom
    ensures var r := Step(s, SetSharedHandle(h)).0;
            Render(r, true, true).1 == Some(Copy(s.unityTexture, s.openedFrom))
    ensures t != 0 ==>
              var r := Step(Step(s, SetSharedHandle(h)).0, SetTextureFromUnity(t)).0;
              Render(r, true, true).1 == Some(Copy(t, h))
  {
  }

  /** Unloading releases the opened texture; afterwards every opened texture has been released. */
  lemma UnloadReleasesAll(s: PluginState)
    requires Balanced(s)
    ensures Step(s, Unload).0.openedFrom == 0
    ensures Step(s, Unload).0.released == s.opens
  {
  }

  /** The state after a sequence of events. */
  function Run(s: PluginState, events: seq<Event>): PluginState
    decreases |events|
  {
    if events == [] then s else Run(Step(s, events[0]).0, events[1..])
  }

  /** However the exported functions are called, no opened texture is lost or released twice. */
  lemma {:induction false} RunBalanced(s: PluginState, events: seq<Event>)
    requires Balanced(s)
    ensures Balanced(Run(s, events))
    ensures Run(s, events + [Unload]).released == Run(s, events + [Unload]).opens
    decreases |events|
  {
    if events == [] {
      assert events + [Unload] == [Unload];
      UnloadReleasesAll(s);
    } else {
      StepBalanced(s, events[0]);
      assert (events + [Unload])[1..] == events[1..] + [Unload];
      RunBalanced(Step(s, events[0]).0, events[1..]);
    }
  }

  /** The plugin's globals as fields, one method per exported function. */
  class Plugin {
    var device: nat
    var sharedHandle: nat
    var unityTexture: nat
    var openedFrom: nat
    var opens: seq<nat>
    var released: seq<nat>

    function State(): PluginState
      reads this
    {
      PluginState(device, sharedHandle, unityTexture, openedFrom, opens, released)
    }

    constructor()
      ensures State() == Initial
    {
      device, sharedHandle, unityTexture, openedFrom := 0, 0, 0, 0;
      opens, released := [], [];
    }

    method UnityPluginLoad(d3d11Device: Option<nat>)
      modifies this
      ensures State() == Step(old(State()), Load(d3d11Device)).0
    {
      if d3d11Device.Some? {
        device := d3d11Device.value;
      }
    }

    method SetSharedHandle(handle: nat)
      modifies this
      ensures State() == Step(old(State()), Event.SetSharedHandle(handle)).0
    {
      sharedHandle := handle;
    }

    method ReleaseOpened()
      modifies this
      ensures State() == Close(old(State()))
    {
      if openedFrom != 0 {
        released := released + [openedFrom];
        openedFrom := 0;
      }
    }

    method SetTextureFromUnity(texture: nat)
      modifies this
      ensures State() == Step(old(State()), Event.SetTextureFromUnity(texture)).0
    {
      ReleaseOpened();
      unityTexture := texture;
    }

    method OnRenderEvent(contextOk: bool, openOk: bool) returns (copy: Option<Copy>)
      modifies this
      ensures (State(), copy) == Step(old(State()), RenderEvent(contextOk, openOk))
    {
      copy := None;
      if device == 0 || sharedHandle == 0 || unityTexture == 0 {
        return;
      }
      if !contextOk {
        return;
      }
      if openedFrom == 0 && sharedHandle != 0 {
        if !openOk {
          sharedHandle := 0;
          return;
        }
        openedFrom := sharedHandle;
        opens := opens + [sharedHandle];
      }
      if openedFrom != 0 {
        copy := Some(Copy(unityTexture, openedFrom));
      }
    }

    method UnityPluginUnload()
      modifies this
      ensures State() == Step(old(State()), Unload).0
    {
      ReleaseOpened();
    }
  }
}
