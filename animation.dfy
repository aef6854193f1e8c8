// The arrow-key animation controller of the scene's character. Once the
// model has loaded, its first clip plays; an arrow key-down starts the
// fourth clip when nothing runs, and an arrow key-up stops whatever plays. The
// animation library's action object is reduced to the clip it plays and
// whether it is running.

module Animation {

  /** The clip played on load, and the clip the arrow keys start. */
  const DefaultClip: nat := 0
  const AltClip: nat := 3

  /** The two keys the handlers react to; they are not told apart. */
  predicate IsTriggerKey(key: string) {
    key == "ArrowRight" || key == "ArrowLeft"
  }

  /** The animation action the handlers hold on to. */
  datatype Action = Action(clip: nat, running: bool)

  /** The controller's state: whether the load callback has run (only
      then do the key handlers exist), and the current action. */
  datatype Controller = Controller(loaded: bool, action: Action)

  /** Before the model has loaded: no handlers, nothing plays. */
  const Unloaded: Controller := Controller(false, Action(DefaultClip, false))

  /** Right after the load callback: the default clip is playing. */
  const Idle: Controller := Controller(true, Action(DefaultClip, true))

  /** The key-down handler. It acts only on a trigger key, and only when
      the current action is not running; it then plays the alternate clip.
      A key-down while anything runs (key repeat included) changes nothing. */
  function KeyDown(c: Controller, key: string): (r: Controller)
    ensures r.loaded == c.loaded
    ensures c.loaded && IsTriggerKey(key) ==> r.action.running
    ensures r != c <==> c.loaded && IsTriggerKey(key) && !c.action.running
    ensures r != c ==> r.action == Action(AltClip, true)
  {
    if c.loaded && IsTriggerKey(key) && !c.action.running then
      c.(action := Action(AltClip, true))
    else
      c
  }

  /** The key-up handler. On a trigger key it stops the current action if
      it runs, keeping its clip; otherwise nothing changes. */
  function KeyUp(c: Controller, key: string): (r: Controller)
    ensures r.loaded == c.loaded && r.action.clip == c.action.clip
    ensures c.loaded && IsTriggerKey(key) ==> !r.action.running
    ensures !(c.loaded && IsTriggerKey(key)) ==> r == c
  {
    if c.loaded && IsTriggerKey(key) && c.action.running then
      c.(action := c.action.(running := false))
    else
      c
  }

  // ---------------------------------------------------------------------
  // Event histories
  // ---------------------------------------------------------------------

  datatype Event = Down(key: string) | Up(key: string)

  predicate IsTriggerDown(e: Event) {
    e.Down? && IsTriggerKey(e.key)
  }

  predicate IsTriggerUp(e: Event) {
    e.Up? && IsTriggerKey(e.key)
  }

  function Apply(c: Controller, e: Event): Controller {
    match e
    case Down(key) => KeyDown(c, key)
    case Up(key) => KeyUp(c, key)
  }

  /** The controller after a sequence of keyboard events, in order. */
  function Run(c: Controller, evs: seq<Event>): (r: Controller)
    ensures r.loaded == c.loaded
    decreases |evs|
  {
    if evs == [] then c else Run(Apply(c, evs[0]), evs[1..])
  }

  predicate HasTriggerDown(evs: seq<Event>) {
    exists j :: 0 <= j < |evs| && IsTriggerDown(evs[j])
  }

  predicate HasTriggerUp(evs: seq<Event>) {
    exists j :: 0 <= j < |evs| && IsTriggerUp(evs[j])
  }

  /** The last trigger-key event was a key-down: some trigger key went
      down and no trigger key (either arrow) went up since. */
  predicate LastTriggerIsDown(evs: seq<Event>) {
    exists j :: 0 <= j < |evs| && IsTriggerDown(evs[j]) &&
      forall k :: j < k < |evs| ==> !IsTriggerUp(evs[k])
  }

  /** A trigger key went up, and later a trigger key went down. */
  predicate UpThenDown(evs: seq<Event>) {
    exists i, j :: 0 <= i < j < |evs| && IsTriggerUp(evs[i]) && IsTriggerDown(evs[j])
  }

  /** Running a history one event longer is one more handler call. */
  lemma {:induction false} RunSnoc(c: Controller, evs: seq<Event>, e: Event)
    ensures Run(c, evs + [e]) == Apply(Run(c, evs), e)
    decreases |evs|
  {
    if evs == [] {
      assert [] + [e] == [e];
    } else {
      assert (evs + [e])[1..] == evs[1..] + [e];
      RunSnoc(Apply(c, evs[0]), evs[1..], e);
    }
  }

  /** Before the load callback no key event has any effect. */
  lemma {:induction false} RunBeforeLoad(c: Controller, evs: seq<Event>)
    requires !c.loaded
    ensures Run(c, evs) == c
    decreases |evs|
  {
    if evs != [] {
      RunBeforeLoad(Apply(c, evs[0]), evs[1..]);
    }
  }

  /** How the history predicates change when one event is appended. */
  lemma HasSnoc(evs: seq<Event>, e: Event)
    ensures HasTriggerDown(evs + [e]) == (HasTriggerDown(evs) || IsTriggerDown(e))
    ensures HasTriggerUp(evs + [e]) == (HasTriggerUp(evs) || IsTriggerUp(e))
  {
    var t := evs + [e];
    var n := |evs|;
    assert t[n] == e;
    if HasTriggerDown(t) {
      var j :| 0 <= j < |t| && IsTriggerDown(t[j]);
      assert j < n ==> IsTriggerDown(evs[j]);
    }
    if HasTriggerDown(evs) {
      var j :| 0 <= j < n && IsTriggerDown(evs[j]);
      assert IsTriggerDown(t[j]);
    }
    if HasTriggerUp(t) {
      var j :| 0 <= j < |t| && IsTriggerUp(t[j]);
      assert j < n ==> IsTriggerUp(evs[j]);
    }
    if HasTriggerUp(evs) {
      var j :| 0 <= j < n && IsTriggerUp(evs[j]);
      assert IsTriggerUp(t[j]);
    }
  }

  lemma StillDownSnoc(evs: seq<Event>, e: Event)
    ensures LastTriggerIsDown(evs + [e]) ==
      if IsTriggerUp(e) then false else IsTriggerDown(e) || LastTriggerIsDown(evs)
  {
    var t := evs + [e];
    var n := |evs|;
    assert t[n] == e;
    if LastTriggerIsDown(t) {
      var j :| 0 <= j < |t| && IsTriggerDown(t[j]) && forall k :: j < k < |t| ==> !IsTriggerUp(t[k]);
      if j < n {
        assert !IsTriggerUp(t[n]);
        assert IsTriggerDown(evs[j]);
        assert forall k :: j < k < n ==> t[k] == evs[k];
      }
    }
    if !IsTriggerUp(e) {
      if IsTriggerDown(e) {
        assert IsTriggerDown(t[n]);
      } else if LastTriggerIsDown(evs) {
        var j :| 0 <= j < n && IsTriggerDown(evs[j]) && forall k :: j < k < n ==> !IsTriggerUp(evs[k]);
        assert forall k :: j < k < n ==> t[k] == evs[k];
        assert IsTriggerDown(t[j]) && forall k :: j < k < |t| ==> !IsTriggerUp(t[k]);
      }
    }
  }

  lemma UpThenDownSnoc(evs: seq<Event>, e: Event)
    ensures UpThenDown(evs + [e]) == (UpThenDown(evs) || (IsTriggerDown(e) && HasTriggerUp(evs)))
  {
    var t := evs + [e];
    var n := |evs|;
    assert t[n] == e;
    if UpThenDown(t) {
      var i, j :| 0 <= i < j < |t| && IsTriggerUp(t[i]) && IsTriggerDown(t[j]);
      assert IsTriggerUp(evs[i]);
      if j < n {
        assert IsTriggerDown(evs[j]);
      }
    }
    if IsTriggerDown(e) && HasTriggerUp(evs) {
      var i :| 0 <= i < n && IsTriggerUp(evs[i]);
      assert IsTriggerUp(t[i]) && IsTriggerDown(t[n]);
    }
    if UpThenDown(evs) {
      var i, j :| 0 <= i < j < n && IsTriggerUp(evs[i]) && IsTriggerDown(evs[j]);
      assert IsTriggerUp(t[i]) && IsTriggerDown(t[j]);
    }
  }

  /** A last trigger-key event that is a key-down came after every earlier
      trigger key-up. */
  lemma DownAfterRelease(evs: seq<Event>)
    requires LastTriggerIsDown(evs) && HasTriggerUp(evs)
    ensures UpThenDown(evs)
  {
    var j :| 0 <= j < |evs| && IsTriggerDown(evs[j]) && forall k :: j < k < |evs| ==> !IsTriggerUp(evs[k]);
    var i :| 0 <= i < |evs| && IsTriggerUp(evs[i]);
    assert i < j;
  }

  /** After load, an action is running exactly when the last trigger-key
      event was a key-down, or when there was no trigger key-up and the
      action ran at the start. A key-up of either arrow stops the action,
      even while the other arrow is still physically held. */
  lemma {:induction false} RunningIffLastTriggerDown(c: Controller, evs: seq<Event>)
    requires c.loaded
    ensures Run(c, evs).action.running <==>
      LastTriggerIsDown(evs) || (c.action.running && !HasTriggerUp(evs))
  {
    if evs != [] {
      var init, e := evs[..|evs| - 1], evs[|evs| - 1];
      assert evs == init + [e];
      RunSnoc(c, init, e);
      RunningIffLastTriggerDown(c, init);
      HasSnoc(init, e);
      StillDownSnoc(init, e);
      UpThenDownSnoc(init, e);
    }
  }

  /** After load, the alternate clip has been started exactly when it was
      already current, or when a trigger key went down at a moment nothing
      was running: before any event if nothing ran then, or later only
      after a trigger key-up had stopped the running action. */
  lemma {:induction false} ClipHistory(c: Controller, evs: seq<Event>)
    requires c.loaded
    ensures Run(c, evs).action.clip ==
      if c.action.clip == AltClip || (!c.action.running && HasTriggerDown(evs)) || UpThenDown(evs)
      then AltClip else c.action.clip
  {
    if evs != [] {
      var init, e := evs[..|evs| - 1], evs[|evs| - 1];
      assert evs == init + [e];
      RunSnoc(c, init, e);
      ClipHistory(c, init);
      RunningIffLastTriggerDown(c, init);
      HasSnoc(init, e);
      StillDownSnoc(init, e);
      UpThenDownSnoc(init, e);
      if IsTriggerDown(e) && LastTriggerIsDown(init) && HasTriggerUp(init) {
        DownAfterRelease(init);
      }
      if IsTriggerDown(e) && !c.action.running && LastTriggerIsDown(init) {
        var j :| 0 <= j < |init| && IsTriggerDown(init[j]) &&
          forall k :: j < k < |init| ==> !IsTriggerUp(init[k]);
        assert HasTriggerDown(init);
      }
    }
  }

  /** From the state right after load: the handlers only ever hold the
      default or the alternate clip; the alternate clip is current exactly
      when a trigger key-up was followed by a trigger key-down; and an
      action runs exactly when the last trigger-key event was a key-down,
      or when no trigger key has been released yet (the default clip loops
      on). */
  lemma FromIdle(evs: seq<Event>)
    ensures Run(Idle, evs).loaded
    ensures Run(Idle, evs).action.clip in {DefaultClip, AltClip}
    ensures Run(Idle, evs).action.clip == AltClip <==> UpThenDown(evs)
    ensures Run(Idle, evs).action.running <==> LastTriggerIsDown(evs) || !HasTriggerUp(evs)
  {
    ClipHistory(Idle, evs);
    RunningIffLastTriggerDown(Idle, evs);
  }

  /** The observable sequence when the right arrow is tapped twice and the
      left arrow pressed while the right is still held: the first press is
      ignored because the default clip is still running, its release stops
      the default clip, and the second press starts the alternate clip,
      which neither repeat nor the other arrow restarts; releasing the left
      arrow stops it although the right arrow is still held. */
  lemma ArrowScenario()
    ensures Run(Idle, [Down("ArrowRight")]) == Idle
    ensures Run(Idle, [Down("ArrowRight"), Up("ArrowRight")]) ==
      Controller(true, Action(DefaultClip, false))
    ensures Run(Idle, [Down("ArrowRight"), Up("ArrowRight"), Down("ArrowRight")]) ==
      Controller(true, Action(AltClip, true))
    ensures Run(Idle, [Down("ArrowRight"), Up("ArrowRight"), Down("ArrowRight"),
                       Down("ArrowRight"), Down("ArrowLeft")]) ==
      Controller(true, Action(AltClip, true))
    ensures Run(Idle, [Down("ArrowRight"), Up("ArrowRight"), Down("ArrowRight"),
                       Down("ArrowLeft"), Up("ArrowLeft")]) ==
      Controller(true, Action(AltClip, false))
    ensures Run(Idle, [Down("Space"), Up("a")]) == Idle
  {
  }

  // ---------------------------------------------------------------------
  // The handlers' captured state, updated in place
  // ---------------------------------------------------------------------

  class AnimationController {
    var loaded: bool
    var clip: nat
    var running: bool

    function State(): Controller
      reads this
    {
      Controller(loaded, Action(clip, running))
    }

    constructor ()
      ensures State() == Unloaded
    {
      loaded, clip, running := false, DefaultClip, false;
    }

    /** The action's play(): it runs from now on; its clip is unchanged. */
    method Play()
      modifies this`running
      ensures running
    {
      running := true;
    }

    /** The action's stop(): it no longer runs; its clip is unchanged. */
    method Stop()
      modifies this`running
      ensures !running
    {
      running := false;
    }

    /** The load callback: the action for the default clip is created and
        played, and the key handlers come into existence. */
    method OnLoad()
      requires !loaded
      modifies this
      ensures State() == Idle
    {
      clip := DefaultClip;
      Play();
      loaded := true;
    }

    method OnKeyDown(key: string)
      modifies this
      ensures State() == KeyDown(old(State()), key)
    {
      if loaded && IsTriggerKey(key) {
        if !running {
          clip := AltClip;
          Play();
        }
      }
    }

    method OnKeyUp(key: string)
      modifies this
      ensures State() == KeyUp(old(State()), key)
    {
      if loaded && IsTriggerKey(key) {
        if running {
          Stop();
        }
      }
    }
  }
}
