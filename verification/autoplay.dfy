/** Autoplay: the interval the component keeps while `autoplay` is truthy and no
    drag is active, and what a run of its ticks does to the committed index. */
module Autoplay {
  import opened JsMath
  import opened Wraparound
  import opened Swiper

  /** JavaScript truthiness of the prop: `false` and `0` are falsy, every other
      boolean or number is truthy. */
  predicate Truthy(a: AutoplayProp): (b: bool)
    ensures b <==> a != Flag(false) && a != Millis(0)
  {
    match a
    case Flag(on) => on
    case Millis(ms) => ms != 0
  }

  /** The interval timer the effect leaves behind. */
  datatype Timer = Stopped | Every(period: int)

  /** The autoplay effect: no timer while the prop is falsy or a drag is active;
      otherwise one every 5000 ms for `true`, every `ms` for a number. */
  function AutoplayTimer(a: AutoplayProp, dragging: bool): (t: Timer)
    ensures t.Stopped? <==> dragging || !Truthy(a)
    ensures !dragging && a == Flag(true) ==> t == Every(5000)
    ensures !dragging && a.Millis? && a.ms != 0 ==> t == Every(a.ms)
  {
    if !Truthy(a) || dragging then Stopped
    else
      match a
      case Flag(_) => Every(5000)
      case Millis(ms) => Every(ms)
  }

  /** One tick that the spring has time to finish: `swipeNext`, then rest. It
      notifies once, with the committed pane, and leaves the spring at rest. */
  function Tick(cfg: Config, s: State): (r: State)
    requires Valid(cfg)
    ensures r.changes == s.changes + [r.current] && 0 <= r.current < cfg.count
    ensures r.position == r.target && r.dragging == s.dragging
  {
    Rest(cfg, SwipeNext(cfg, s))
  }

  /** `m` ticks in a row. */
  function Ticks(cfg: Config, s: State, m: nat): State
    requires Valid(cfg)
  {
    if m == 0 then s else Tick(cfg, Ticks(cfg, s, m - 1))
  }

  /** The pane `j` ticks after pane `k`: wrapped around in loop mode, held at the
      last pane otherwise. */
  function Reached(cfg: Config, k: int, j: nat): (c: int)
    requires Valid(cfg)
    ensures 0 <= c < cfg.count
  {
    if cfg.loop then WrapIndex(k + j, cfg.count) else Bound(k + j, 0, cfg.count - 1)
  }

  /** A tick from rest on pane `c` commits the next pane and rests on it, with one
      notification. */
  lemma TickFromPane(cfg: Config, s: State, c: int)
    requires Valid(cfg) && !s.dragging && s.position == c as real
    ensures
      var r := Tick(cfg, s);
      && r.current == (if cfg.loop then WrapIndex(c + 1, cfg.count) else Bound(c + 1, 0, cfg.count - 1))
      && r.position == r.current as real && !r.dragging
      && r.changes == s.changes + [r.current]
  {
    StepFromPane(cfg, s, c);
    SettleLandsOnCommitted(cfg, s, c + 1);
  }

  /** The next pane of the pane reached after `j` ticks is the pane reached after `j + 1`. */
  lemma ReachedStep(cfg: Config, k: int, j: nat)
    requires Valid(cfg) && 0 <= k
    ensures Reached(cfg, k, j + 1) ==
      (if cfg.loop then WrapIndex(Reached(cfg, k, j) + 1, cfg.count)
       else Bound(Reached(cfg, k, j) + 1, 0, cfg.count - 1))
  {
    if cfg.loop {
      WrapStepForward(k + j, cfg.count);
    }
  }

  /** A tick from rest on the pane reached after `j` ticks rests on the pane reached
      after `j + 1`, and notifies it. */
  lemma TickAfter(cfg: Config, p: State, k: int, j: nat)
    requires Valid(cfg) && !p.dragging && 0 <= k && p.position == Reached(cfg, k, j) as real
    ensures Tick(cfg, p).position == Reached(cfg, k, j + 1) as real
    ensures Tick(cfg, p).current == Reached(cfg, k, j + 1)
    ensures !Tick(cfg, p).dragging
    ensures Tick(cfg, p).changes == p.changes + [Reached(cfg, k, j + 1)]
  {
    TickFromPane(cfg, p, Reached(cfg, k, j));
    ReachedStep(cfg, k, j);
  }

  /** The notifications of `m` ticks from pane `k`: the panes reached after 1, ..., `m` ticks. */
  function Notified(cfg: Config, k: int, m: nat): (ns: seq<int>)
    requires Valid(cfg)
    ensures |ns| == m
    ensures forall j :: 0 <= j < m ==> ns[j] == Reached(cfg, k, j + 1)
  {
    if m == 0 then [] else Notified(cfg, k, m - 1) + [Reached(cfg, k, m)]
  }

  /** Starting at rest on pane `k`, `m` ticks leave the spring at rest on the pane
      `Reached(k, m)`, after notifying `Reached(k, 1)`, ..., `Reached(k, m)` in order. */
  lemma {:induction false} TicksAdvance(cfg: Config, s: State, k: int, m: nat)
    requires Valid(cfg) && !s.dragging && 0 <= k < cfg.count && s.position == k as real
    ensures Ticks(cfg, s, m).position == Reached(cfg, k, m) as real
    ensures !Ticks(cfg, s, m).dragging
    ensures m >= 1 ==> Ticks(cfg, s, m).current == Reached(cfg, k, m)
    ensures Ticks(cfg, s, m).changes == s.changes + Notified(cfg, k, m)
  {
    if m > 0 {
      TicksAdvance(cfg, s, k, m - 1);
      TickAfter(cfg, Ticks(cfg, s, m - 1), k, m - 1);
      assert Notified(cfg, k, m) == Notified(cfg, k, m - 1) + [Reached(cfg, k, m)];
    }
  }

  /** In loop mode `count` ticks bring the swiper back to the pane it started on. */
  lemma LoopReturns(cfg: Config, s: State, k: int)
    requires Valid(cfg) && cfg.loop && !s.dragging && 0 <= k < cfg.count && s.position == k as real
    ensures Ticks(cfg, s, cfg.count).current == k
    ensures Ticks(cfg, s, cfg.count).position == k as real
  {
    TicksAdvance(cfg, s, k, cfg.count);
    FullCycle(cfg, k);
  }

  lemma FullCycle(cfg: Config, k: int)
    requires Valid(cfg) && cfg.loop && 0 <= k < cfg.count
    ensures Reached(cfg, k, cfg.count) == k
  {
    WrapIndexCycles(k + cfg.count, k, 1, cfg.count);
    assert WrapIndex(k, cfg.count) == k;
  }

  /** Outside loop mode autoplay stops advancing at the last pane but keeps notifying
      it on every tick. */
  lemma HoldsAtLastPane(cfg: Config, s: State, k: int, m: nat)
    requires Valid(cfg) && !cfg.loop && !s.dragging && 0 <= k < cfg.count && s.position == k as real
    requires k + m >= cfg.count - 1 && m >= 1
    ensures Ticks(cfg, s, m).current == cfg.count - 1
    ensures Ticks(cfg, s, m).changes == s.changes + Notified(cfg, k, m)
    ensures Notified(cfg, k, m)[m - 1] == cfg.count - 1
  {
    TicksAdvance(cfg, s, k, m);
  }
}
