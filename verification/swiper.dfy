/** The settle engine of the swiper component: the committed index, the spring
    that animates the track, the drag flag, and the log of `onChange`
    notifications and spring requests.

    The spring value is measured in panes: the component's own spring holds
    `position * axisDistance` (percent horizontally, pixels vertically). Reducing
    and folding commute with that scaling (`Wraparound.ModulusScale`,
    `Wraparound.FoldScale`, `RestInAxisUnits`), so each formula of the component,
    evaluated in axis units, is the pane formula times `axisDistance`.
    The spring is reduced to its requests: `Animate(t)` sets a new target,
    `Jump(t)` moves position and target at once, and coming to rest makes the
    position equal to the target. */
module Swiper {
  import opened JsMath
  import opened Wraparound

  /** The `autoplay` prop: a boolean or a number of milliseconds. */
  datatype AutoplayProp = Flag(on: bool) | Millis(ms: int)

  /** The props and measurements the engine reads. `rootHeight` is the measured
      height of the root element, used only in vertical mode. */
  datatype Config = Config(
    loop: bool,
    vertical: bool,
    count: int,
    rootHeight: real,
    autoplay: AutoplayProp)

  /** `axisDistance`: one pane is 100 (percent) horizontally, the root's height vertically. */
  function AxisDistance(cfg: Config): (d: real)
    ensures !cfg.vertical ==> d == 100.0
    ensures cfg.vertical ==> d == cfg.rootHeight
  {
    if cfg.vertical then cfg.rootHeight else 100.0
  }

  /** At least one slide and a measured, positive pane size. */
  predicate Valid(cfg: Config) {
    cfg.count >= 1 && AxisDistance(cfg) > 0.0
  }

  /** `flagWidth` (half the cycle `count * axisDistance`, less 10 axis units), in panes.
      It is below one cycle, and not negative once the cycle spans 20 axis units. */
  function FlagWidth(cfg: Config): (f: real)
    requires Valid(cfg)
    ensures f < cfg.count as real
    ensures cfg.count as real * AxisDistance(cfg) >= 20.0 <==> 0.0 <= f
  {
    var d := AxisDistance(cfg);
    var f := (cfg.count as real * d / 2.0 - 10.0) / d;
    FlagWidthFacts(cfg.count as real, d, f);
    f
  }

  lemma FlagWidthFacts(n: real, d: real, f: real)
    requires n >= 1.0 && d > 0.0 && f == (n * d / 2.0 - 10.0) / d
    ensures f < n
    ensures n * d >= 20.0 <==> 0.0 <= f
  {
    assert f * d == n * d / 2.0 - 10.0;
  }

  /** `bound(v, lo, hi)`: the helper is not part of this model; it is taken to be
      the clamp `min(max(v, lo), hi)`. */
  function Bound(v: int, lo: int, hi: int): (r: int)
    ensures r <= hi
    ensures lo <= hi ==> lo <= r
    ensures lo <= v <= hi ==> r == v
    ensures v < lo <= hi ==> r == lo
    ensures hi < v ==> r == hi
  {
    var m := if v < lo then lo else v;
    if m > hi then hi else m
  }

  /** Clamping keeps order. */
  lemma BoundMonotone(a: int, b: int, lo: int, hi: int)
    requires a <= b
    ensures Bound(a, lo, hi) <= Bound(b, lo, hi)
  {
  }

  /** A spring request: animate toward a target, or jump there immediately. */
  datatype Request = Animate(to: real) | Jump(to: real)

  datatype State = State(
    current: int,
    position: real,
    target: real,
    dragging: bool,
    changes: seq<int>,
    requests: seq<Request>)

  /** `api.start`: record the request and apply it to the spring. */
  function Start(s: State, q: Request): (r: State)
    ensures r.requests == s.requests + [q]
    ensures r.target == q.to
    ensures r.position == if q.Jump? then q.to else s.position
    ensures r.current == s.current && r.changes == s.changes && r.dragging == s.dragging
  {
    match q
    case Animate(t) => s.(target := t, requests := s.requests + [q])
    case Jump(t) => s.(position := t, target := t, requests := s.requests + [q])
  }

  /** The spring as first created: the initial index clamped into range, at rest
      on its pane. `current` itself keeps the unclamped `initialSwipe`. */
  function Mount(cfg: Config, initialSwipe: int): (r: State)
    requires Valid(cfg)
    ensures r.current == initialSwipe && !r.dragging
    ensures r.changes == [] && r.requests == []
    ensures r.position == r.target
    ensures 0.0 <= r.position <= (cfg.count - 1) as real
    ensures IsInteger(r.position)
    ensures 0 <= initialSwipe < cfg.count ==> r.position == initialSwipe as real
    ensures initialSwipe < 0 ==> r.position == 0.0
    ensures cfg.count <= initialSwipe ==> r.position == (cfg.count - 1) as real
  {
    var i := Bound(initialSwipe, 0, cfg.count - 1);
    IntegerOfInt(i);
    State(initialSwipe, i as real, i as real, false, [], [])
  }

  /** `swipeTo`: commit an index, notify `onChange` exactly once with it, and start
      one animation. Loop mode commits the index's representative in [0, count)
      but animates to the unwrapped pane `index`; otherwise the index is clamped
      into [0, count - 1] and both the commit and the target use it. */
  function SwipeTo(cfg: Config, s: State, index: int): (r: State)
    requires Valid(cfg)
    ensures r.changes == s.changes + [r.current]
    ensures r.requests == s.requests + [Animate(r.target)]
    ensures r.position == s.position && r.dragging == s.dragging
    ensures 0 <= r.current < cfg.count
    ensures IsInteger(r.target)
    ensures cfg.loop ==> Congruent(r.current as real, index as real, cfg.count as real)
    ensures cfg.loop ==> r.target == index as real
    ensures !cfg.loop ==> r.target == r.current as real
    ensures !cfg.loop && 0 <= index < cfg.count ==> r.current == index
    ensures !cfg.loop && index < 0 ==> r.current == 0
    ensures !cfg.loop && cfg.count <= index ==> r.current == cfg.count - 1
  {
    if cfg.loop then
      var i := WrapIndex(index, cfg.count);
      IntegerOfInt(index);
      Start(s.(current := i, changes := s.changes + [i]), Animate(index as real))
    else
      var i := Bound(index, 0, cfg.count - 1);
      IntegerOfInt(i);
      Start(s.(current := i, changes := s.changes + [i]), Animate(i as real))
  }

  /** `swipeNext`: one pane past the pane nearest the live spring position
      (`Math.round(position / axisDistance) + 1`), not past `current`. The pane
      aimed at lies more than half a pane and at most one and a half panes ahead
      of the spring; outside loop mode it is clamped to the last pane. */
  function SwipeNext(cfg: Config, s: State): (r: State)
    requires Valid(cfg)
    ensures r.changes == s.changes + [r.current] && r.requests == s.requests + [Animate(r.target)]
    ensures r.position == s.position && r.dragging == s.dragging
    ensures 0 <= r.current < cfg.count && IsInteger(r.target)
    ensures cfg.loop ==> s.position + 0.5 < r.target <= s.position + 1.5
    ensures cfg.loop ==> Congruent(r.current as real, r.target, cfg.count as real)
    ensures !cfg.loop ==> r.current == Bound(Round(s.position) + 1, 0, cfg.count - 1)
    ensures !cfg.loop ==> r.target == r.current as real
    ensures !cfg.loop && -1.5 <= s.position < (cfg.count - 1) as real - 0.5 ==>
      s.position + 0.5 < r.target <= s.position + 1.5
  {
    SwipeTo(cfg, s, Round(s.position) + 1)
  }

  /** `swipePrev`: one pane before the pane nearest the live spring position. The
      pane aimed at lies at least half a pane and less than one and a half panes
      behind the spring; outside loop mode it is clamped to the first pane. */
  function SwipePrev(cfg: Config, s: State): (r: State)
    requires Valid(cfg)
    ensures r.changes == s.changes + [r.current] && r.requests == s.requests + [Animate(r.target)]
    ensures r.position == s.position && r.dragging == s.dragging
    ensures 0 <= r.current < cfg.count && IsInteger(r.target)
    ensures cfg.loop ==> s.position - 1.5 < r.target <= s.position - 0.5
    ensures cfg.loop ==> Congruent(r.current as real, r.target, cfg.count as real)
    ensures !cfg.loop ==> r.current == Bound(Round(s.position) - 1, 0, cfg.count - 1)
    ensures !cfg.loop ==> r.target == r.current as real
    ensures !cfg.loop && 0.5 <= s.position < cfg.count as real + 0.5 ==>
      s.position - 1.5 < r.target <= s.position - 0.5
  {
    SwipeTo(cfg, s, Round(s.position) - 1)
  }

  /** The handler the spring calls once it is idle: unless a drag is active, replace
      the position by its representative in [0, count), issuing no request
      when it is already there. */
  function OnRest(cfg: Config, s: State): (r: State)
    requires Valid(cfg)
    ensures s.dragging ==> r == s
    ensures !s.dragging ==> 0.0 <= r.position < cfg.count as real
    ensures !s.dragging ==> Congruent(r.position, s.position, cfg.count as real)
    ensures r.requests == s.requests <==> s.dragging || 0.0 <= s.position < cfg.count as real
    ensures r.requests != s.requests ==> r.requests == s.requests + [Jump(r.position)]
    ensures 0.0 <= s.position < cfg.count as real ==> r == s
    ensures r.current == s.current && r.changes == s.changes && r.dragging == s.dragging
  {
    if s.dragging then s
    else
      var standard := Modulus(s.position, cfg.count as real);
      if standard == s.position then s
      else Start(s, Jump(standard))
  }

  /** The spring reaches its target, then runs `OnRest`. It ends at rest, with at
      most one jump request added and the committed index untouched. */
  function Rest(cfg: Config, s: State): (r: State)
    requires Valid(cfg)
    ensures r.position == r.target
    ensures r.requests == s.requests || r.requests == s.requests + [Jump(r.position)]
    ensures r.current == s.current && r.changes == s.changes && r.dragging == s.dragging
  {
    OnRest(cfg, s.(position := s.target))
  }

  /** The offset, in panes, at which slide `slide` is drawn for spring position `x`;
      loop mode folds it into the window [-flagWidth, count - flagWidth). */
  function SlideOffset(cfg: Config, x: real, slide: int): (r: real)
    requires Valid(cfg)
    ensures cfg.loop ==> Congruent(r, slide as real - x, cfg.count as real)
    ensures cfg.loop ==> -FlagWidth(cfg) <= r < cfg.count as real - FlagWidth(cfg)
    ensures !cfg.loop ==> r == slide as real - x
  {
    var position := -x + slide as real;
    if cfg.loop then Fold(position, cfg.count as real, FlagWidth(cfg)) else position
  }

  /** The component reduces the spring value `raw = x * axisDistance` modulo
      `totalWidth = axisDistance * count` in axis units; that is the pane reduction
      times `axisDistance`, so the two agree on whether a jump is needed. */
  lemma RestInAxisUnits(cfg: Config, x: real, raw: real, totalWidth: real)
    requires Valid(cfg)
    requires raw == x * AxisDistance(cfg) && totalWidth == AxisDistance(cfg) * cfg.count as real
    ensures Modulus(raw, totalWidth) == Modulus(x, cfg.count as real) * AxisDistance(cfg)
    ensures Modulus(raw, totalWidth) == raw <==> Modulus(x, cfg.count as real) == x
  {
    ModulusInUnits(x, cfg.count as real, AxisDistance(cfg), raw, totalWidth);
  }

  /** From rest on pane `k`, `swipeNext` aims at pane `k + 1` and `swipePrev` at `k - 1`. */
  lemma StepFromPane(cfg: Config, s: State, k: int)
    requires Valid(cfg) && s.position == k as real
    ensures SwipeNext(cfg, s) == SwipeTo(cfg, s, k + 1)
    ensures SwipePrev(cfg, s) == SwipeTo(cfg, s, k - 1)
  {
    RoundTies(k);
  }

  /** Coming to rest leaves the position congruent to the target: equal to it while
      a drag is active, its representative in [0, count) otherwise. */
  lemma RestNearTarget(cfg: Config, t: State)
    requires Valid(cfg)
    ensures Congruent(Rest(cfg, t).position, t.target, cfg.count as real)
    ensures t.dragging ==> Rest(cfg, t).position == t.target
    ensures !t.dragging ==> 0.0 <= Rest(cfg, t).position < cfg.count as real
    ensures 0.0 <= t.target < cfg.count as real ==> Rest(cfg, t).position == t.target
  {
    if t.dragging {
      CongruentRefl(t.target, cfg.count as real);
    }
  }

  /** After an animation toward pane `index` comes to rest, the spring sits a whole
      number of cycles from the committed pane, and exactly on it when no drag is
      active or outside loop mode. */
  lemma SettleLandsOnCommitted(cfg: Config, s: State, index: int)
    requires Valid(cfg)
    ensures Congruent(Rest(cfg, SwipeTo(cfg, s, index)).position,
                      SwipeTo(cfg, s, index).current as real, cfg.count as real)
    ensures !cfg.loop || !s.dragging ==>
      Rest(cfg, SwipeTo(cfg, s, index)).position == SwipeTo(cfg, s, index).current as real
  {
    var t := SwipeTo(cfg, s, index);
    var x := Rest(cfg, t).position;
    var c := t.current as real;
    var n := cfg.count as real;
    RestNearTarget(cfg, t);
    if cfg.loop {
      CongruentSymm(c, index as real, n);
      CongruentTrans(x, t.target, c, n);
      if !s.dragging {
        CongruentInWindow(x, c, 0.0, n);
      }
    }
  }

  /** In loop mode with a cycle of at least 20 axis units (so `flagWidth` is not
      negative), slide `j` is drawn at offset 0 exactly when the spring position is a
      whole number of cycles from pane `j`. */
  lemma SlideAtOrigin(cfg: Config, x: real, j: int)
    requires Valid(cfg) && cfg.loop && cfg.count as real * AxisDistance(cfg) >= 20.0
    ensures SlideOffset(cfg, x, j) == 0.0 <==> Congruent(x, j as real, cfg.count as real)
  {
    var p := -x + j as real;
    FoldZero(p, cfg.count as real, FlagWidth(cfg));
    CongruentMirror(x, x, j as real, cfg.count as real);
  }

  /** The pane on screen once a settle comes to rest is the pane `onChange` reported:
      slide `j` sits at offset 0 exactly when `j` is the committed index. */
  lemma SettleShowsCommitted(cfg: Config, s: State, index: int, j: int)
    requires Valid(cfg) && 0 <= j < cfg.count
    requires cfg.loop ==> cfg.count as real * AxisDistance(cfg) >= 20.0
    ensures SlideOffset(cfg, Rest(cfg, SwipeTo(cfg, s, index)).position, j) == 0.0
            <==> j == SwipeTo(cfg, s, index).current
  {
    var t := SwipeTo(cfg, s, index);
    var x := Rest(cfg, t).position;
    SettleLandsOnCommitted(cfg, s, index);
    if cfg.loop {
      SlideAtOrigin(cfg, x, j);
      CongruentVia(x, t.current as real, j as real, cfg.count as real);
      PanesCongruent(t.current, j, cfg.count);
    }
  }

  /** Idle normalisation is invisible: every slide is drawn where it would have been
      drawn at the unnormalised target (outside loop mode, targets in range are kept). */
  lemma RestKeepsSlides(cfg: Config, s: State, j: int)
    requires Valid(cfg)
    requires !cfg.loop ==> 0.0 <= s.target < cfg.count as real
    ensures SlideOffset(cfg, Rest(cfg, s).position, j) == SlideOffset(cfg, s.target, j)
  {
    var x := Rest(cfg, s).position;
    RestNearTarget(cfg, s);
    if cfg.loop {
      CongruentMirror(x, s.target, j as real, cfg.count as real);
      FoldPeriodic(-x + j as real, -s.target + j as real, cfg.count as real, FlagWidth(cfg));
    }
  }

  /** Coming to rest twice is coming to rest once: the normalised position needs no
      further jump. */
  lemma RestIdempotent(cfg: Config, s: State)
    requires Valid(cfg)
    ensures Rest(cfg, Rest(cfg, s)) == Rest(cfg, s)
  {
    RestNearTarget(cfg, s);
  }

  /** The spring is created at rest on a pane of the cycle, so its first rest
      changes nothing. */
  lemma MountIsAtRest(cfg: Config, initialSwipe: int)
    requires Valid(cfg)
    ensures Rest(cfg, Mount(cfg, initialSwipe)) == Mount(cfg, initialSwipe)
  {
  }

  /** From rest on pane `k`, `swipeNext`, rest, `swipePrev`, rest returns to pane `k`
      (to its representative in loop mode; outside loop mode when `k + 1` is a pane),
      with two notifications. */
  lemma NextThenPrev(cfg: Config, s: State, k: int)
    requires Valid(cfg) && s.position == k as real && !s.dragging
    ensures
      var a := Rest(cfg, SwipeNext(cfg, s));
      var b := Rest(cfg, SwipePrev(cfg, a));
      && b.changes == s.changes + [a.current, b.current]
      && (cfg.loop ==> b.current == WrapIndex(k, cfg.count) && b.position == b.current as real)
      && (!cfg.loop && 0 <= k < cfg.count - 1 ==> b.current == k && b.position == k as real)
  {
    var n := cfg.count;
    StepFromPane(cfg, s, k);
    var a := Rest(cfg, SwipeTo(cfg, s, k + 1));
    SettleLandsOnCommitted(cfg, s, k + 1);
    StepFromPane(cfg, a, a.current);
    SettleLandsOnCommitted(cfg, a, a.current - 1);
    if cfg.loop {
      WrapStepBack(k, n);
    }
  }

  /** `swipeNext` reads the spring, not `current`: two calls before the spring moves
      commit the same pane twice, with two notifications. */
  lemma NextWhileAnimating(cfg: Config, s: State)
    requires Valid(cfg)
    ensures
      var a := SwipeNext(cfg, s);
      var b := SwipeNext(cfg, a);
      && b.current == a.current
      && b.changes == s.changes + [a.current, a.current]
      && b.requests == s.requests + [Animate(a.target), Animate(a.target)]
  {
    var a := SwipeNext(cfg, s);
    assert a.position == s.position;
  }
}
