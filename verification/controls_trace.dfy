/**
 Sequences of trigger and button callbacks: what the flags hold after any
 sequence, how often the trigger press and HomeTap are reported.
 */
module ControlsTrace {
  import opened InputTypes
  import opened Controls

  /** The handlers applied to `evs` in order, from flags `f`: the final flags and every invoked event. */
  function RunEvents(f: ButtonFlags, own: ControllerId, evs: seq<ControllerEvent>): (r: Reaction)
    ensures |r.signals| <= |evs|
    decreases |evs|
  {
    if |evs| == 0 then
      Reaction(f, [])
    else
      var h := Handle(f, own, evs[0]);
      var rest := RunEvents(h.flags, own, evs[1..]);
      Reaction(rest.flags, h.signals + rest.signals)
  }

  /** Running one more callback after a sequence. */
  lemma {:induction false} RunEventsSnoc(f: ButtonFlags, own: ControllerId, evs: seq<ControllerEvent>, e: ControllerEvent)
    ensures var r := RunEvents(f, own, evs);
            var h := Handle(r.flags, own, e);
            RunEvents(f, own, evs + [e]) == Reaction(h.flags, r.signals + h.signals)
    decreases |evs|
  {
    if |evs| == 0 {
      assert evs + [e] == [e];
      assert [e][1..] == [];
    } else {
      var h0 := Handle(f, own, evs[0]);
      assert (evs + [e])[0] == evs[0];
      assert (evs + [e])[1..] == evs[1..] + [e];
      RunEventsSnoc(h0.flags, own, evs[1..], e);
      var rest := RunEvents(h0.flags, own, evs[1..]);
      var h := Handle(rest.flags, own, e);
      assert h0.signals + (rest.signals + h.signals) == (h0.signals + rest.signals) + h.signals;
    }
  }

  /** Callbacks for other controllers change nothing and report nothing. */
  lemma {:induction false} ForeignEventsChangeNothing(f: ButtonFlags, own: ControllerId, evs: seq<ControllerEvent>)
    requires forall k :: 0 <= k < |evs| ==> evs[k].id != own
    ensures RunEvents(f, own, evs) == Reaction(f, [])
    decreases |evs|
  {
    if |evs| > 0 {
      ForeignEventsChangeNothing(f, own, evs[1..]);
    }
  }

  /** The two flags the handlers keep. */
  datatype Flag = TriggerLatch | BumperFlag

  function Read(f: ButtonFlags, flag: Flag): bool {
    match flag
    case TriggerLatch => f.triggerIsDown
    case BumperFlag => f.bumperDown
  }

  /**
   What one callback does to a flag, described by event alone: a strong
   enough trigger press of this controller sets the latch, its trigger
   release clears it; its bumper press sets the bumper flag, its bumper
   release clears it; nothing else touches either.
   */
  function Effect(own: ControllerId, flag: Flag, ev: ControllerEvent): Option<bool> {
    if ev.id != own then None
    else
      match (flag, ev)
      case (TriggerLatch, TriggerDown(_, value)) => if value > TriggerPressValue then Some(true) else None
      case (TriggerLatch, TriggerUp(_, _)) => Some(false)
      case (BumperFlag, ButtonDown(_, b)) => if b == Bumper then Some(true) else None
      case (BumperFlag, ButtonUp(_, b)) => if b == Bumper then Some(false) else None
      case _ => None
  }

  /** The setting made to `flag` by the last callback in `evs` that makes one. */
  function LastSetting(own: ControllerId, flag: Flag, evs: seq<ControllerEvent>): Option<bool>
    decreases |evs|
  {
    if |evs| == 0 then None
    else
      match Effect(own, flag, evs[|evs| - 1])
      case Some(v) => Some(v)
      case None => LastSetting(own, flag, evs[..|evs| - 1])
  }

  /** One handler changes a flag exactly as `Effect` says. */
  lemma HandleMatchesEffect(f: ButtonFlags, own: ControllerId, flag: Flag, ev: ControllerEvent)
    ensures Read(Handle(f, own, ev).flags, flag) == match Effect(own, flag, ev) case Some(v) => v case None => Read(f, flag)
  {
  }

  /**
   After any sequence of callbacks each flag holds the setting of the last
   callback that made one, or its starting value if none did.
   */
  lemma {:induction false} FlagIsLastSetting(f: ButtonFlags, own: ControllerId, flag: Flag, evs: seq<ControllerEvent>)
    ensures Read(RunEvents(f, own, evs).flags, flag) == match LastSetting(own, flag, evs) case Some(v) => v case None => Read(f, flag)
    decreases |evs|
  {
    if |evs| > 0 {
      var init := evs[..|evs| - 1];
      var e := evs[|evs| - 1];
      assert evs == init + [e];
      RunEventsSnoc(f, own, init, e);
      FlagIsLastSetting(f, own, flag, init);
      HandleMatchesEffect(RunEvents(f, own, init).flags, own, flag, e);
    }
  }

  function Count(s: Signal, ss: seq<Signal>): (n: nat)
    ensures n <= |ss|
    ensures n == 0 <==> s !in ss
  {
    if |ss| == 0 then 0 else (if ss[0] == s then 1 else 0) + Count(s, ss[1..])
  }

  lemma {:induction false} CountAppend(s: Signal, a: seq<Signal>, b: seq<Signal>)
    ensures Count(s, a + b) == Count(s, a) + Count(s, b)
    decreases |a|
  {
    if |a| == 0 {
      assert a + b == b;
    } else {
      assert (a + b)[0] == a[0];
      assert (a + b)[1..] == a[1..] + b;
      CountAppend(s, a[1..], b);
    }
  }

  /**
   No repeat while held: as long as this controller's trigger is not
   released, the trigger press is reported at most once, and not at all if
   the latch was already set.
   */
  lemma {:induction false} TriggerReportedOncePerHold(f: ButtonFlags, own: ControllerId, evs: seq<ControllerEvent>)
    requires forall k :: 0 <= k < |evs| ==> !(evs[k].TriggerUp? && evs[k].id == own)
    ensures Count(TriggerPressed, RunEvents(f, own, evs).signals) <= if f.triggerIsDown then 0 else 1
    decreases |evs|
  {
    if |evs| > 0 {
      var h := Handle(f, own, evs[0]);
      var rest := RunEvents(h.flags, own, evs[1..]);
      TriggerReportedOncePerHold(h.flags, own, evs[1..]);
      CountAppend(TriggerPressed, h.signals, rest.signals);
      assert TriggerPressed in h.signals ==> h.flags.triggerIsDown && !f.triggerIsDown;
      assert f.triggerIsDown ==> h.flags.triggerIsDown;
    }
  }

  /** The number of HomeTap releases of this controller in `evs`. */
  function HomeTapReleases(own: ControllerId, evs: seq<ControllerEvent>): nat
    decreases |evs|
  {
    if |evs| == 0 then 0
    else (if evs[0] == ButtonUp(own, HomeTap) then 1 else 0) + HomeTapReleases(own, evs[1..])
  }

  /** HomeTap is reported once for each of its releases, and never on its press. */
  lemma {:induction false} HomeTapOncePerRelease(f: ButtonFlags, own: ControllerId, evs: seq<ControllerEvent>)
    ensures Count(HomeTapped, RunEvents(f, own, evs).signals) == HomeTapReleases(own, evs)
    decreases |evs|
  {
    if |evs| > 0 {
      var h := Handle(f, own, evs[0]);
      var rest := RunEvents(h.flags, own, evs[1..]);
      HomeTapOncePerRelease(h.flags, own, evs[1..]);
      CountAppend(HomeTapped, h.signals, rest.signals);
    }
  }

  /** From the component's initial flags, two strong trigger presses without a release report once and leave the latch set. */
  lemma HeldTriggerFromStart(own: ControllerId)
    ensures RunEvents(InitialFlags, own, [TriggerDown(own, 0.9), TriggerDown(own, 1.0)])
            == Reaction(ButtonFlags(true, false), [TriggerPressed])
  {
    var evs := [TriggerDown(own, 0.9), TriggerDown(own, 1.0)];
    assert evs[1..] == [TriggerDown(own, 1.0)];
    assert evs[1..][1..] == [];
    var latched := ButtonFlags(true, false);
    assert Handle(InitialFlags, own, evs[0]) == Reaction(latched, [TriggerPressed]);
    assert Handle(latched, own, evs[1]) == Reaction(latched, []);
    assert RunEvents(latched, own, evs[1..][1..]) == Reaction(latched, []);
    assert RunEvents(latched, own, evs[1..]) == Reaction(latched, []);
  }
}
