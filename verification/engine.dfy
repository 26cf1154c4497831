/** The swiper as a whole: every way its state can change, as one event type, and
    the invariants that hold over any sequence of events. */
module Engine {
  import opened JsMath
  import opened Wraparound
  import opened Swiper
  import opened Gesture
  import opened Autoplay

  /** The imperative handle's calls, the gesture reports, the release timeout that
      clears the drag flag, one animation frame of the spring (its live value, which
      the model does not constrain), the spring coming to rest, and an autoplay
      interval firing. */
  datatype Event =
    | SwipeToCall(index: int)
    | NextCall
    | PrevCall
    | Drag(track: nat, frame: Frame)
    | DragTimeout
    | SpringFrame(value: real)
    | SpringRest
    | AutoplayTick

  /** One event. Drags go to the handler as the component writes it. An autoplay
      tick does nothing unless the timer is running, which it is not while a drag
      is active. An animation frame moves only the spring's live value. */
  function Step(cfg: Config, s: State, e: Event): (r: State)
    requires Valid(cfg)
    ensures |s.changes| <= |r.changes| <= |s.changes| + 1
    ensures r.changes[..|s.changes|] == s.changes
    ensures |r.changes| == |s.changes| + 1 ==> r.changes[|s.changes|] == r.current && 0 <= r.current < cfg.count
    ensures |r.changes| == |s.changes| ==> r.current == s.current
    ensures e.SwipeToCall? || e.NextCall? || e.PrevCall? ==> |r.changes| == |s.changes| + 1
    ensures e.DragTimeout? || e.SpringRest? || e.SpringFrame? ==> r.changes == s.changes
    ensures e.SpringFrame? ==> r.requests == s.requests && r.target == s.target
    ensures e.AutoplayTick? && (s.dragging || !Truthy(cfg.autoplay)) ==> r == s
    ensures e.DragTimeout? ==> !r.dragging
  {
    match e
    case SwipeToCall(index) => SwipeTo(cfg, s, index)
    case NextCall => SwipeNext(cfg, s)
    case PrevCall => SwipePrev(cfg, s)
    case Drag(track, frame) => OnDragAsWritten(cfg, s, track, frame)
    case DragTimeout => s.(dragging := false)
    case SpringFrame(x) => s.(position := x)
    case SpringRest => Rest(cfg, s)
    case AutoplayTick =>
      if AutoplayTimer(cfg.autoplay, s.dragging).Stopped? then s else SwipeNext(cfg, s)
  }

  /** A sequence of events, in order. */
  function Run(cfg: Config, s: State, events: seq<Event>): State
    requires Valid(cfg)
    decreases |events|
  {
    if events == [] then s else Run(cfg, Step(cfg, s, events[0]), events[1..])
  }

  /** Every animation target is a whole pane, and outside loop mode one of the panes. */
  predicate AnimatesToPanes(cfg: Config, q: Request)
    requires Valid(cfg)
  {
    q.Animate? ==> IsInteger(q.to) && (!cfg.loop ==> 0.0 <= q.to <= (cfg.count - 1) as real)
  }

  /** What holds after any history: every notified index is a pane, the committed
      index is the last one notified, and every animation aims at a pane. */
  predicate Inv(cfg: Config, s: State)
    requires Valid(cfg)
  {
    && (forall i :: 0 <= i < |s.changes| ==> 0 <= s.changes[i] < cfg.count)
    && (|s.changes| > 0 ==> s.current == s.changes[|s.changes| - 1])
    && (forall i :: 0 <= i < |s.requests| ==> AnimatesToPanes(cfg, s.requests[i]))
  }

  lemma MountEstablishes(cfg: Config, initialSwipe: int)
    requires Valid(cfg)
    ensures Inv(cfg, Mount(cfg, initialSwipe))
  {
  }

  /** Each new request aims at a pane. */
  lemma StepRequests(cfg: Config, s: State, e: Event)
    requires Valid(cfg)
    ensures |Step(cfg, s, e).requests| >= |s.requests|
    ensures Step(cfg, s, e).requests[..|s.requests|] == s.requests
    ensures forall i :: |s.requests| <= i < |Step(cfg, s, e).requests| ==>
      AnimatesToPanes(cfg, Step(cfg, s, e).requests[i])
  {
    match e
    case Drag(track, frame) =>
      if track > 0 && frame.last {
        var index := ReleaseIndex(AxisOffset(cfg, frame), frame.velocity.0, frame.direction.0, TrackSize(track));
        SwipeToRequest(cfg, s.(dragging := true), index);
      }
    case SwipeToCall(index) => SwipeToRequest(cfg, s, index);
    case NextCall => SwipeToRequest(cfg, s, Round(s.position) + 1);
    case PrevCall => SwipeToRequest(cfg, s, Round(s.position) - 1);
    case AutoplayTick => SwipeToRequest(cfg, s, Round(s.position) + 1);
    case _ =>
  }

  lemma SwipeToRequest(cfg: Config, s: State, index: int)
    requires Valid(cfg)
    ensures AnimatesToPanes(cfg, SwipeTo(cfg, s, index).requests[|s.requests|])
  {
  }

  /** Every event keeps the invariant. */
  lemma StepPreservesInv(cfg: Config, s: State, e: Event)
    requires Valid(cfg) && Inv(cfg, s)
    ensures Inv(cfg, Step(cfg, s, e))
  {
    var r := Step(cfg, s, e);
    StepRequests(cfg, s, e);
    forall i | 0 <= i < |r.requests|
      ensures AnimatesToPanes(cfg, r.requests[i])
    {
      if i < |s.requests| {
        assert r.requests[i] == r.requests[..|s.requests|][i];
      }
    }
    forall i | 0 <= i < |r.changes|
      ensures 0 <= r.changes[i] < cfg.count
    {
      if i < |s.changes| {
        assert r.changes[i] == r.changes[..|s.changes|][i];
      }
    }
  }

  /** Any sequence of events from a state satisfying the invariant keeps it, and
      only appends to the notification log, at most one entry per event. */
  lemma {:induction false} RunPreservesInv(cfg: Config, s: State, events: seq<Event>)
    requires Valid(cfg) && Inv(cfg, s)
    ensures Inv(cfg, Run(cfg, s, events))
    ensures |s.changes| <= |Run(cfg, s, events).changes| <= |s.changes| + |events|
    ensures Run(cfg, s, events).changes[..|s.changes|] == s.changes
    decreases |events|
  {
    if events != [] {
      var t := Step(cfg, s, events[0]);
      StepPreservesInv(cfg, s, events[0]);
      RunPreservesInv(cfg, t, events[1..]);
      var r := Run(cfg, s, events);
      assert r.changes[..|s.changes|] == r.changes[..|t.changes|][..|s.changes|];
    }
  }

  /** From mount, after any history in which something was notified, the indicator's
      index is a pane. */
  lemma CurrentIsAPane(cfg: Config, initialSwipe: int, events: seq<Event>)
    requires Valid(cfg)
    requires |Run(cfg, Mount(cfg, initialSwipe), events).changes| > 0
    ensures 0 <= Run(cfg, Mount(cfg, initialSwipe), events).current < cfg.count
  {
    MountEstablishes(cfg, initialSwipe);
    RunPreservesInv(cfg, Mount(cfg, initialSwipe), events);
  }

  /** With the timer running, an autoplay tick followed by the spring coming to rest
      is the tick `Autoplay.Tick` counts. */
  lemma AutoplayTickIsTick(cfg: Config, s: State)
    requires Valid(cfg) && !s.dragging && Truthy(cfg.autoplay)
    ensures Run(cfg, s, [AutoplayTick, SpringRest]) == Tick(cfg, s)
  {
    var t := Step(cfg, s, AutoplayTick);
    assert [AutoplayTick, SpringRest][1..] == [SpringRest];
    assert [SpringRest][1..] == [];
    assert Run(cfg, t, [SpringRest]) == Run(cfg, Step(cfg, t, SpringRest), []);
  }

  /** `swipeNext` reads the spring's live value. From rest on pane `k`, a second
      `swipeNext` issued once the animation has passed halfway to pane `k + 1`
      aims at pane `k + 2`; one issued before halfway aims at `k + 1` again. */
  lemma NextPastHalfway(cfg: Config, s: State, k: int, x: real)
    requires Valid(cfg) && s.position == k as real
    ensures
      var a := Run(cfg, s, [NextCall, SpringFrame(x)]);
      && a.position == x
      && a.target == Step(cfg, s, NextCall).target
      && (k as real + 0.5 <= x < k as real + 1.5 ==>
            Run(cfg, s, [NextCall, SpringFrame(x), NextCall]) == SwipeTo(cfg, a, k + 2))
      && (k as real - 0.5 <= x < k as real + 0.5 ==>
            Run(cfg, s, [NextCall, SpringFrame(x), NextCall]) == SwipeTo(cfg, a, k + 1))
  {
    var a1 := Step(cfg, s, NextCall);
    var a := Step(cfg, a1, SpringFrame(x));
    var es := [NextCall, SpringFrame(x), NextCall];
    assert es[1..] == [SpringFrame(x), NextCall];
    assert es[1..][1..] == [NextCall];
    assert [NextCall][1..] == [];
    assert [NextCall, SpringFrame(x)][1..] == [SpringFrame(x)];
    assert [SpringFrame(x)][1..] == [];
    assert Run(cfg, a1, [SpringFrame(x)]) == Run(cfg, a, []);
    assert Run(cfg, s, [NextCall, SpringFrame(x)]) == a;
    assert Run(cfg, a, [NextCall]) == Run(cfg, Step(cfg, a, NextCall), []);
    assert Run(cfg, a1, [SpringFrame(x), NextCall]) == Run(cfg, a, [NextCall]);
    assert Run(cfg, s, es) == Step(cfg, a, NextCall);
    if k as real + 0.5 <= x < k as real + 1.5 {
      RoundUnique(x, k + 1);
    }
    if k as real - 0.5 <= x < k as real + 0.5 {
      RoundUnique(x, k);
    }
  }
}
