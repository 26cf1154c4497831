/** The drag gesture of the swiper: the frames the gesture library reports, the
    drag origin and bounds the component hands to it, and the handler that moves
    the spring while the finger is down and commits an index on release.

    Offsets are in track pixels: the drag starts at the spring's pane position
    times the track size, and the bounds span `count - 1` track sizes. */
module Gesture {
  import opened JsMath
  import opened Wraparound
  import opened Swiper

  /** One report of the gesture library: the accumulated offset (already
      transformed so that moving toward later slides is positive), the speed and
      the direction (-1, 0 or 1) of the movement, and whether the touch or mouse button was released. */
  datatype Frame = Frame(
    offset: (real, real),
    velocity: (real, real),
    direction: (int, int),
    last: bool)

  /** The offset along the swiper's axis. */
  function AxisOffset(cfg: Config, f: Frame): (v: real)
    ensures cfg.vertical ==> v == f.offset.1
    ensures !cfg.vertical ==> v == f.offset.0
  {
    if cfg.vertical then f.offset.1 else f.offset.0
  }

  /** The `from` option: where a drag starts, in track pixels, for a spring at
      `position` panes. The other axis starts at 0. */
  function DragOrigin(cfg: Config, s: State, track: nat): (o: (real, real))
    ensures AxisOffset(cfg, Frame(o, (0.0, 0.0), (0, 0), false)) == s.position * track as real
    ensures (if cfg.vertical then o.0 else o.1) == 0.0
  {
    var along := s.position * track as real;
    if cfg.vertical then (0.0, along) else (along, 0.0)
  }

  /** The `bounds` option: none in loop mode; otherwise the first pane through the
      last, in track pixels. */
  datatype Bounds = Unbounded | Between(lo: real, hi: real)

  function DragBounds(cfg: Config, track: nat): (b: Bounds)
    requires Valid(cfg)
    ensures cfg.loop <==> b.Unbounded?
    ensures b.Between? ==> b.lo == 0.0 && b.lo <= b.hi
    ensures b.Between? ==> b.hi == (cfg.count - 1) as real * track as real
  {
    if cfg.loop then Unbounded
    else
      IntCastMul(cfg.count - 1, track);
      Between(0.0, ((cfg.count - 1) * track) as real)
  }

  predicate WithinBounds(b: Bounds, v: real) {
    b.Unbounded? || b.lo <= v <= b.hi
  }

  /** A drag that starts from a spring resting inside the range of panes starts
      inside the bounds. */
  lemma OriginWithinBounds(cfg: Config, s: State, track: nat)
    requires Valid(cfg)
    requires cfg.loop || 0.0 <= s.position <= (cfg.count - 1) as real
    ensures WithinBounds(DragBounds(cfg, track), AxisOffset(cfg, Frame(DragOrigin(cfg, s, track), (0.0, 0.0), (0, 0), false)))
  {
    if !cfg.loop {
      ScaleWithin(s.position, (cfg.count - 1) as real, track as real);
    }
  }

  lemma ScaleWithin(p: real, hi: real, t: real)
    requires 0.0 <= p <= hi && 0.0 <= t
    ensures 0.0 <= p * t <= hi * t
  {
    assert hi * t - p * t == (hi - p) * t;
  }

  /** The index a release commits: the offset plus a fling of at most one track
      size in the direction of movement, divided by the track size and rounded.
      A release at speed below half a track size per second moves by less than a
      pane, and one without speed or direction settles on the nearest pane. */
  function ReleaseIndex(offset: real, velocity: real, direction: int, track: real): (r: int)
    requires track > 0.0
    ensures 0.0 <= velocity && -1 <= direction <= 1 ==>
      Round(offset / track) - 1 <= r <= Round(offset / track) + 1
    ensures velocity == 0.0 || direction == 0 ==> r == Round(offset / track)
  {
    var fling := Min(velocity * 2000.0, track) * direction as real;
    FlingWithinTrack(velocity, Min(velocity * 2000.0, track), direction, track, fling);
    NudgedRound(offset, fling, track);
    Round((offset + fling) / track)
  }

  /** The fling term is at most one track size, and 0 without speed or direction. */
  lemma FlingWithinTrack(velocity: real, m: real, direction: int, track: real, fling: real)
    requires track > 0.0
    requires m == Min(velocity * 2000.0, track) && fling == m * direction as real
    ensures 0.0 <= velocity && -1 <= direction <= 1 ==> -track <= fling <= track
    ensures velocity == 0.0 || direction == 0 ==> fling == 0.0
  {
    if direction == 1 {
      assert fling == m;
    } else if direction == -1 {
      assert fling == -m;
    }
  }

  /** Moving a quotient by at most one whole divisor moves its rounding by at most one. */
  lemma NudgedRound(offset: real, fling: real, track: real)
    requires track > 0.0
    ensures -track <= fling <= track ==>
      Round(offset / track) - 1 <= Round((offset + fling) / track) <= Round(offset / track) + 1
    ensures fling == 0.0 ==> Round((offset + fling) / track) == Round(offset / track)
  {
    var q := offset / track;
    var e := fling / track;
    DivSum(offset, fling, track);
    if -track <= fling <= track {
      UnitQuotient(fling, track, e);
      RoundMonotone(q - 1.0, q + e);
      RoundMonotone(q + e, q + 1.0);
      RoundShift(q, -1);
      RoundShift(q, 1);
    }
  }

  lemma UnitQuotient(x: real, t: real, e: real)
    requires t > 0.0 && -t <= x <= t && e == x / t
    ensures -1.0 <= e <= 1.0
  {
    assert x == e * t;
    if e > 1.0 {
      MulUnitBelow(e, t);
      MulStrict(e, t);
    }
    if e < -1.0 {
      MulStrict(-e, t);
    }
  }

  lemma MulStrict(e: real, t: real)
    requires e > 1.0 && t > 0.0
    ensures e * t > t
  {
    assert e * t - t == (e - 1.0) * t;
  }

  /** The track size as a divisor, once the `track == 0` guard has passed. */
  function TrackSize(track: nat): (t: real)
    requires track > 0
    ensures t > 0.0
  {
    track as real
  }

  /** The drag handler as the component writes it: a moving frame jumps the spring to
      the raw pixel offset read as an axis value, that is `offset / axisDistance` panes;
      a release commits `ReleaseIndex` through `swipeTo`. Both set the drag flag. */
  function OnDragAsWritten(cfg: Config, s: State, track: nat, f: Frame): (r: State)
    requires Valid(cfg)
    ensures track == 0 ==> r == s
    ensures track > 0 ==> r.dragging
    ensures track > 0 && !f.last ==>
      r.position == AxisOffset(cfg, f) / AxisDistance(cfg)
      && r.requests == s.requests + [Jump(r.position)] && r.changes == s.changes
    ensures track > 0 && f.last ==> r.changes == s.changes + [r.current] && r.position == s.position
  {
    // The `!distance` guard: a track not yet laid out has size 0 and the frame is ignored.
    if track == 0 then s
    else
      var s1 := s.(dragging := true);
      if !f.last then Start(s1, Jump(AxisOffset(cfg, f) / AxisDistance(cfg)))
      else SwipeTo(cfg, s1, ReleaseIndex(AxisOffset(cfg, f), f.velocity.0, f.direction.0, TrackSize(track)))
  }

  /** The drag handler with the moving frame converted from track pixels to panes,
      the conversion `from` inverts: `offset / track`. */
  function OnDrag(cfg: Config, s: State, track: nat, f: Frame): (r: State)
    requires Valid(cfg)
    ensures track == 0 ==> r == s
    ensures track > 0 ==> r.dragging
    ensures track > 0 && !f.last ==>
      r.position * track as real == AxisOffset(cfg, f)
      && r.requests == s.requests + [Jump(r.position)] && r.changes == s.changes
    ensures track > 0 && f.last ==> r.changes == s.changes + [r.current] && r.position == s.position
    ensures track > 0 && f.last ==> 0 <= r.current < cfg.count
  {
    // The `!distance` guard: a track not yet laid out has size 0 and the frame is ignored.
    if track == 0 then s
    else
      var s1 := s.(dragging := true);
      if !f.last then
        var p := AxisOffset(cfg, f) / TrackSize(track);
        QuotientTimes(AxisOffset(cfg, f), track as real, p);
        Start(s1, Jump(p))
      else SwipeTo(cfg, s1, ReleaseIndex(AxisOffset(cfg, f), f.velocity.0, f.direction.0, TrackSize(track)))
  }

  lemma QuotientTimes(x: real, t: real, p: real)
    requires t > 0.0 && p == x / t
    ensures p * t == x
  {
  }

  /** A frame that has not moved from the drag origin leaves the spring where it was. */
  lemma StillDragKeepsPosition(cfg: Config, s: State, track: nat, f: Frame)
    requires Valid(cfg) && track > 0 && !f.last
    requires f.offset == DragOrigin(cfg, s, track)
    ensures OnDrag(cfg, s, track, f).position == s.position
  {
    var r := OnDrag(cfg, s, track, f);
    MulCancel(r.position, s.position, track as real);
  }

  /** A moving frame inside the bounds keeps the spring within the range of panes. */
  lemma BoundedDragStaysInRange(cfg: Config, s: State, track: nat, f: Frame)
    requires Valid(cfg) && track > 0 && !f.last && !cfg.loop
    requires WithinBounds(DragBounds(cfg, track), AxisOffset(cfg, f))
    ensures 0.0 <= OnDrag(cfg, s, track, f).position <= (cfg.count - 1) as real
  {
    var p := OnDrag(cfg, s, track, f).position;
    var t := track as real;
    var n := (cfg.count - 1) as real;
    assert 0.0 <= p * t <= n * t;
    ScaleBack(p, n, t);
  }

  lemma ScaleBack(p: real, n: real, t: real)
    requires t > 0.0 && 0.0 <= p * t <= n * t
    ensures 0.0 <= p <= n
  {
    MulOrder(0.0, p, t);
    MulOrder(p, n, t);
  }

  lemma MulOrder(a: real, b: real, t: real)
    requires t > 0.0
    ensures a * t <= b * t <==> a <= b
  {
    assert b * t - a * t == (b - a) * t;
  }

  /** As written, a release commits the pane of `ReleaseIndex` through `swipeTo`. In
      loop mode the spring aims within one pane of the rounded offset and commits
      that target's representative; outside loop mode the committed pane is within
      one of the rounded offset, after clamping. Without speed it is exactly
      `swipeTo` of the rounded offset. */
  lemma ReleaseCommitsNearOffset(cfg: Config, s: State, track: nat, f: Frame)
    requires Valid(cfg) && track > 0 && f.last
    requires 0.0 <= f.velocity.0 && -1 <= f.direction.0 <= 1
    ensures
      var r := OnDragAsWritten(cfg, s, track, f);
      var k := Round(AxisOffset(cfg, f) / track as real);
      && r.dragging
      && r.changes == s.changes + [r.current]
      && r.position == s.position
      && (cfg.loop ==> (k - 1) as real <= r.target <= (k + 1) as real)
      && (cfg.loop ==> Congruent(r.current as real, r.target, cfg.count as real))
      && (!cfg.loop ==> Bound(k - 1, 0, cfg.count - 1) <= r.current <= Bound(k + 1, 0, cfg.count - 1))
      && (f.velocity.0 == 0.0 ==> r == SwipeTo(cfg, s.(dragging := true), k))
  {
    var k := Round(AxisOffset(cfg, f) / track as real);
    var i := ReleaseIndex(AxisOffset(cfg, f), f.velocity.0, f.direction.0, TrackSize(track));
    BoundMonotone(k - 1, i, 0, cfg.count - 1);
    BoundMonotone(i, k + 1, 0, cfg.count - 1);
  }

  /** Releasing without speed at the drag origin commits the pane nearest the spring,
      in the handler as written and in the converted one alike. */
  lemma StillReleaseCommitsNearest(cfg: Config, s: State, track: nat, f: Frame)
    requires Valid(cfg) && track > 0 && f.last && f.velocity.0 == 0.0
    requires f.offset == DragOrigin(cfg, s, track)
    ensures OnDragAsWritten(cfg, s, track, f) == SwipeTo(cfg, s.(dragging := true), Round(s.position))
    ensures OnDrag(cfg, s, track, f) == SwipeTo(cfg, s.(dragging := true), Round(s.position))
  {
    var t := track as real;
    var o := AxisOffset(cfg, f);
    assert o == s.position * t;
    QuotientOfProduct(s.position, t, o);
  }

  lemma QuotientOfProduct(p: real, t: real, o: real)
    requires t > 0.0 && o == p * t
    ensures o / t == p
  {
  }

  /** As written, a frame that has not moved from the origin moves the spring to
      `position * track / axisDistance` panes. */
  lemma StillDragAsWritten(cfg: Config, s: State, track: nat, f: Frame)
    requires Valid(cfg) && track > 0 && !f.last
    requires f.offset == DragOrigin(cfg, s, track)
    ensures OnDragAsWritten(cfg, s, track, f).position * AxisDistance(cfg) == s.position * track as real
  {
    var r := OnDragAsWritten(cfg, s, track, f);
    QuotientTimes(AxisOffset(cfg, f), AxisDistance(cfg), r.position);
  }

  /** A horizontal swiper resting on pane 1 with a 375-pixel track: a first, still
      frame jumps the spring to pane 3.75 as written, and leaves it on pane 1 once the
      offset is converted. */
  lemma StillDragCounterexample()
    ensures
      var cfg := Config(true, false, 5, 0.0, Flag(false));
      var s := Mount(cfg, 1);
      var f := Frame(DragOrigin(cfg, s, 375), (0.0, 0.0), (0, 0), false);
      && OnDragAsWritten(cfg, s, 375, f).position == 3.75
      && OnDrag(cfg, s, 375, f).position == 1.0
  {
    var cfg := Config(true, false, 5, 0.0, Flag(false));
    var s := Mount(cfg, 1);
    var f := Frame(DragOrigin(cfg, s, 375), (0.0, 0.0), (0, 0), false);
    StillDragKeepsPosition(cfg, s, 375, f);
  }

  /** As written, a two-pane horizontal swiper resting on pane 1 with a 375-pixel
      track: a frame at the upper drag bound, which is also still at the origin,
      jumps the spring to pane 3.75, past the last pane. Converted, it stays on pane 1. */
  lemma BoundedDragCounterexample()
    ensures
      var cfg := Config(false, false, 2, 0.0, Flag(false));
      var s := Mount(cfg, 1);
      var f := Frame((375.0, 0.0), (0.0, 0.0), (0, 0), false);
      && WithinBounds(DragBounds(cfg, 375), AxisOffset(cfg, f))
      && OnDragAsWritten(cfg, s, 375, f).position == 3.75
      && OnDragAsWritten(cfg, s, 375, f).position > (cfg.count - 1) as real
      && OnDrag(cfg, s, 375, f).position == 1.0
  {
    var cfg := Config(false, false, 2, 0.0, Flag(false));
    var s := Mount(cfg, 1);
    var f := Frame((375.0, 0.0), (0.0, 0.0), (0, 0), false);
    assert f.offset == DragOrigin(cfg, s, 375);
    StillDragKeepsPosition(cfg, s, 375, f);
  }

  /** A larger offset never commits an earlier pane, for the same speed and direction. */
  lemma ReleaseMonotone(o1: real, o2: real, velocity: real, direction: int, track: real)
    requires track > 0.0 && o1 <= o2
    ensures ReleaseIndex(o1, velocity, direction, track) <= ReleaseIndex(o2, velocity, direction, track)
  {
    var fling := Min(velocity * 2000.0, track) * direction as real;
    DivMonotone(o1 + fling, o2 + fling, track);
    RoundMonotone((o1 + fling) / track, (o2 + fling) / track);
  }

  lemma DivMonotone(a: real, b: real, t: real)
    requires t > 0.0 && a <= b
    ensures a / t <= b / t
  {
    assert b / t - a / t == (b - a) / t;
  }

  /** Releases on a 300-pixel track: half a pane back without speed rounds up to pane
      0 (`Math.round(-0.5)` is 0); a fast flick backwards from just behind pane 0
      reaches pane -1; a slow release one third of a pane forward stays on pane 0;
      a fast flick forward from the same place reaches pane 1. */
  lemma ReleaseExamples()
    ensures ReleaseIndex(-150.0, 0.0, -1, 300.0) == 0
    ensures ReleaseIndex(-10.0, 5.0, -1, 300.0) == -1
    ensures ReleaseIndex(100.0, 0.0, 1, 300.0) == 0
    ensures ReleaseIndex(100.0, 1.0, 1, 300.0) == 1
  {
    RoundTies(0);
    assert (-10.0 + -300.0) / 300.0 == -310.0 / 300.0;
    RoundUnique(-310.0 / 300.0, -1);
    RoundUnique(100.0 / 300.0, 0);
    assert (100.0 + 300.0) / 300.0 == 400.0 / 300.0;
    RoundUnique(400.0 / 300.0, 1);
  }
}
