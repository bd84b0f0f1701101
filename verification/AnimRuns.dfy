/** Animations over time: one tick, whole runs, and the static pool (src/compositor/anim.c). */
module AnimRuns {
  import opened Fixed
  import opened Easings
  import opened Division

  datatype Kind = Spring | Timed

  /** Where the rounded value goes after each tick. */
  datatype Bind =
    | Unbound
    | ToI32(ptr: nat, scale: int, offset: int, min: int, max: int)
    | ToU8(ptr: nat, scale: int, offset: int, min: int, max: int)

  datatype Anim = Anim(
    used: bool, kind: Kind, current: int, velocity: int, start: int, target: int,
    t: int, duration: int, stiffness: int, damping: int, curve: Curve, bind: Bind, done: bool, loop: bool)

  function Abs(x: int): int {
    if x < 0 then -x else x
  }

  function Clamp(v: int, lo: int, hi: int): int {
    if v < lo then lo else if v > hi then hi else v
  }

  // ---------------------------------------------------------------- one tick

  /** anim_ease with a named curve, or anim_ease_bezier when the curve is a Bezier. */
  function StartEase(a: Anim, start: int, target: int, duration: int, c: Curve): Anim {
    var c2 := if c.Bezier? then c.(x1 := Clamp(c.x1, 0, ONE), x2 := Clamp(c.x2, 0, ONE)) else c;
    a.(kind := Timed, current := start, start := start, target := target,
       duration := if duration > 0 then duration else ONE, curve := c2, t := 0, velocity := 0, done := false)
  }

  /** anim_spring: a running spring keeps its value and velocity. */
  function StartSpring(a: Anim, start: int, target: int, stiffness: int, damping: int): Anim {
    a.(kind := Spring, current := if a.current == 0 || a.done then start else a.current,
       start := start, target := target, stiffness := stiffness, damping := damping, done := false)
  }

  function Retarget(a: Anim, target: int): Anim {
    if a.kind == Timed then a.(target := target, done := false, start := a.current, t := 0)
    else a.(target := target, done := false)
  }

  function StepSpring(a: Anim, dt: int): Anim {
    var err := a.target - a.current;
    var force := FxMul(a.stiffness, err) - FxMul(a.damping, a.velocity);
    var v := a.velocity + FxMul(force, dt);
    if Abs(err) < ONE / 256 && Abs(v) < ONE / 64 then a.(current := a.target, velocity := 0, done := true)
    else a.(velocity := v, current := a.current + FxMul(v, dt))
  }

  function StepEase(a: Anim, dt: int): Anim {
    var t := a.t + FxDiv(dt, a.duration);
    var b := if t >= ONE then a.(t := ONE, done := true) else a.(t := t);
    b.(current := b.start + FxMul(Ease(b.curve, b.t), b.target - b.start))
  }

  /** A finished looping animation turns round before it steps. */
  function Restart(a: Anim): Anim {
    var b := a.(start := a.target, target := a.start, done := false);
    if a.kind == Timed then b.(t := 0, current := b.start) else b
  }

  predicate Idle(a: Anim) {
    !a.used || (a.done && !a.loop)
  }

  function Tick(a: Anim, dt: int): Anim {
    if Idle(a) then a
    else
      var b := if a.done then Restart(a) else a;
      if b.kind == Spring then StepSpring(b, dt) else StepEase(b, dt)
  }

  function Run(a: Anim, dt: int, n: nat): Anim {
    if n == 0 then a else Tick(Run(a, dt, n - 1), dt)
  }

  // ---------------------------------------------------------------- landing

  /** A finished animation shows its target. */
  predicate Landed(a: Anim) {
    a.done ==> a.current == a.target
  }

  predicate Spans(a: Anim) {
    Fits(a.target - a.start) && Fits(a.start - a.target)
  }

  lemma FullEaseLands(c: Curve, start: int, target: int)
    requires Fits(target - start)
    ensures start + FxMul(Ease(c, ONE), target - start) == target
  {
    hide *;
    EaseEnds(c);
    var d := target - start;
    MulByOne(d);
    assert Ease(c, ONE) == ONE && FxMul(ONE, d) == d;
  }

  lemma EaseStepLands(a: Anim, dt: int)
    requires !a.done && Spans(a)
    ensures Landed(StepEase(a, dt)) && Spans(StepEase(a, dt))
  {
    hide Ease, FxMul, FxDiv;
    FullEaseLands(a.curve, a.start, a.target);
  }

  lemma SpringStepLands(a: Anim, dt: int)
    requires !a.done && Spans(a)
    ensures Landed(StepSpring(a, dt)) && Spans(StepSpring(a, dt))
  {
    hide FxMul;
  }

  /** `x` is `exact` / ONE, rounded. */
  predicate Rounded(x: int, exact: int) {
    -HALF <= x * ONE - exact <= HALF
  }

  /**
   * Semi-implicit Euler: the velocity gains the pull towards the target less the drag, times the step, and the
   * position gains the new velocity times the step, each product rounded; the spring settles on the target exactly
   * when it was within 1/256 of it and the new velocity is below 1/64.
   */
  predicate Springs(a: Anim, dt: int, pull: int, drag: int, gain: int, b: Anim) {
    var err, v := a.target - a.current, a.velocity + gain;
    && Rounded(pull, a.stiffness * err) && Rounded(drag, a.damping * a.velocity) && Rounded(gain, (pull - drag) * dt)
    && if -256 < err < 256 && -1024 < v < 1024
       then b == a.(current := a.target, velocity := 0, done := true)
       else b == a.(current := b.current, velocity := v) && Rounded(b.current - a.current, v * dt)
  }

  lemma SpringStepIs(a: Anim, dt: int)
    requires var err := a.target - a.current;
             && Fits((a.stiffness * err + HALF) / ONE) && Fits((a.damping * a.velocity + HALF) / ONE)
             && Fits(((FxMul(a.stiffness, err) - FxMul(a.damping, a.velocity)) * dt + HALF) / ONE)
             && var v := a.velocity + FxMul(FxMul(a.stiffness, err) - FxMul(a.damping, a.velocity), dt);
                Fits((v * dt + HALF) / ONE)
    ensures exists pull, drag, gain :: Springs(a, dt, pull, drag, gain, StepSpring(a, dt))
  {
    hide FxMul;
    var err := a.target - a.current;
    var pull, drag := FxMul(a.stiffness, err), FxMul(a.damping, a.velocity);
    var gain := FxMul(pull - drag, dt);
    MulIsNearest(a.stiffness, err);
    MulIsNearest(a.damping, a.velocity);
    MulIsNearest(pull - drag, dt);
    MulIsNearest(a.velocity + gain, dt);
    assert Springs(a, dt, pull, drag, gain, StepSpring(a, dt));
  }

  /** One step of a timed animation: the progress gains the quotient of step and duration, capped at ONE, where it
      ends; the value is the eased share of the way, rounded. */
  lemma EaseStepIs(a: Anim, dt: int)
    requires a.duration > 0 && dt >= 0 && Fits(dt * ONE / a.duration)
    requires forall t :: 0 <= t <= ONE ==> Fits((Ease(a.curve, t) * (a.target - a.start) + HALF) / ONE)
    requires 0 <= a.t <= ONE && !a.done
    ensures var b, p := StepEase(a, dt), a.t + dt * ONE / a.duration;
            && b.t == (if p >= ONE then ONE else p) && (b.done <==> p >= ONE)
            && Rounded(b.current - a.start, Ease(a.curve, b.t) * (a.target - a.start))
            && b == a.(t := b.t, done := b.done, current := b.current)
  {
    StepSize(dt, a.duration);
    hide Ease, FxMul, FxDiv;
    var b := StepEase(a, dt);
    MulIsNearest(Ease(a.curve, b.t), a.target - a.start);
  }

  /** Every tick keeps finished animations exactly on their targets. */
  lemma TickKeepsLanded(a: Anim, dt: int)
    requires Landed(a) && Spans(a)
    ensures Landed(Tick(a, dt)) && Spans(Tick(a, dt))
  {
    if !Idle(a) {
      var b := if a.done then Restart(a) else a;
      if b.kind == Timed {
        EaseStepLands(b, dt);
      } else {
        SpringStepLands(b, dt);
      }
    }
    hide StepEase, StepSpring, Landed;
  }

  lemma {:induction false} RunKeepsLanded(a: Anim, dt: int, n: nat)
    requires Landed(a) && Spans(a)
    ensures Landed(Run(a, dt, n)) && Spans(Run(a, dt, n))
  {
    if n > 0 {
      RunKeepsLanded(a, dt, n - 1);
      TickKeepsLanded(Run(a, dt, n - 1), dt);
    }
  }

  /** What the rest of the kernel does to an animation. */
  datatype Op =
    | TickBy(dt: int)
    | EaseTo(start: int, target: int, duration: int, curve: Curve)
    | SpringTo(start: int, target: int, stiffness: int, damping: int)
    | RetargetTo(target: int)

  function Do(a: Anim, op: Op): Anim {
    match op
    case TickBy(dt) => Tick(a, dt)
    case EaseTo(start, target, duration, c) => StartEase(a, start, target, duration, c)
    case SpringTo(start, target, stiffness, damping) => StartSpring(a, start, target, stiffness, damping)
    case RetargetTo(target) => Retarget(a, target)
  }

  function Play(a: Anim, ops: seq<Op>): Anim {
    if ops == [] then a else Do(Play(a, ops[..|ops| - 1]), ops[|ops| - 1])
  }

  /** No operation asks for a distance beyond 32 bits. */
  predicate AllSpan(a: Anim, ops: seq<Op>) {
    Spans(Play(a, ops)) && (ops == [] || AllSpan(a, ops[..|ops| - 1]))
  }

  /** Over every run of starts, retargets and ticks of any lengths, a finished animation is exactly on its
      target. */
  lemma {:induction false} EveryRunLands(a: Anim, ops: seq<Op>)
    requires Landed(a) && AllSpan(a, ops)
    ensures Landed(Play(a, ops))
  {
    hide Tick, Spans;
    if ops != [] {
      var before, op := Play(a, ops[..|ops| - 1]), ops[|ops| - 1];
      EveryRunLands(a, ops[..|ops| - 1]);
      assert AllSpan(a, ops[..|ops| - 1]);
      if op.TickBy? {
        TickKeepsLanded(before, op.dt);
      }
    }
  }

  /** Retargeting a timed animation restarts it where it is. */
  lemma RetargetIsContinuous(a: Anim, target: int)
    requires a.kind == Timed
    ensures AtProgress(Retarget(a, target), 0).current == a.current
  {
    EaseEnds(a.curve);
    MulByZero(target - a.current);
    hide Ease, FxMul;
  }

  // ---------------------------------------------------------------- a whole timed run

  /** A timed animation that has just been started. */
  predicate Fresh(a: Anim) {
    a.used && a.kind == Timed && a.t == 0 && !a.done && a.current == a.start
  }

  lemma StartedIsFresh(a: Anim, start: int, target: int, duration: int, c: Curve)
    requires a.used
    ensures Fresh(StartEase(a, start, target, duration, c)) && StartEase(a, start, target, duration, c).duration > 0
  {}

  function Min(x: int, y: int): int {
    if x <= y then x else y
  }

  /** The animation `a` at progress `t`. */
  function AtProgress(a: Anim, t: int): Anim {
    a.(t := t, done := t >= ONE, current := a.start + FxMul(Ease(a.curve, t), a.target - a.start))
  }

  lemma AtZero(a: Anim)
    requires Fresh(a)
    ensures AtProgress(a, 0) == a
  {
    EaseEnds(a.curve);
    MulByZero(a.target - a.start);
    hide Ease, FxMul;
  }

  /** One step of a leg of the animation. */
  lemma StepAdvances(a: Anim, t: int, dt: int)
    requires a.used && a.kind == Timed && t < ONE
    ensures Tick(AtProgress(a, t), dt) == AtProgress(a, Min(ONE, t + FxDiv(dt, a.duration)))
  {
    hide Ease, FxMul, FxDiv;
  }

  /** Without looping: after n equal ticks the progress is n steps, capped at ONE, for every n. */
  lemma {:induction false} TimedRunIs(a: Anim, dt: int, n: nat)
    requires Fresh(a) && !a.loop && FxDiv(dt, a.duration) >= 0
    ensures n * FxDiv(dt, a.duration) >= 0
    ensures Run(a, dt, n) == AtProgress(a, Min(ONE, n * FxDiv(dt, a.duration)))
  {
    var step := FxDiv(dt, a.duration);
    hide FxDiv, FxMul, Ease;
    if n == 0 {
      AtZero(a);
    } else {
      TimedRunIs(a, dt, n - 1);
      var done := (n - 1) * step;
      assert n * step == done + step;
      if done < ONE {
        StepAdvances(a, done, dt);
      }
    }
  }

  /** The progress of one tick, when the quotient fits in 32 bits. */
  lemma StepSize(dt: int, duration: int)
    requires dt >= 0 && duration > 0 && Fits(dt * ONE / duration)
    ensures FxDiv(dt, duration) == dt * ONE / duration >= 0
    ensures FxDiv(dt, duration) >= 1 <==> dt * ONE >= duration
  {
    QuotientIsPositiveIff(dt * ONE, duration);
  }

  lemma QuotientIsPositiveIff(a: nat, b: nat)
    requires b > 0
    ensures a / b >= 1 <==> a >= b
  {
    DivisionBounds(a, b);
    if a >= b {
      FactorOrder(1, a / b + 1, b);
    } else {
      FactorOrder(a / b, 1, b);
    }
  }

  /**
   * A timed animation driven by equal ticks finishes, on its target, exactly when one tick is at
   * least 1/65536 of its duration; a slower one never moves at all.
   */
  lemma FinishesIff(a: Anim, dt: int)
    requires Fresh(a) && !a.loop && Spans(a) && dt >= 0 && a.duration > 0 && Fits(dt * ONE / a.duration)
    ensures (exists n: nat :: Run(a, dt, n).done) <==> dt * ONE >= a.duration
    ensures dt * ONE >= a.duration ==> Run(a, dt, ONE).done && Run(a, dt, ONE).current == a.target
    ensures dt * ONE < a.duration ==> forall n: nat :: Run(a, dt, n) == a
  {
    StepSize(dt, a.duration);
    hide FxDiv, FxMul, Ease, Run;
    if dt * ONE >= a.duration {
      FastEnoughFinishes(a, dt);
    } else {
      forall n: nat
        ensures Run(a, dt, n) == a
      {
        TooSlowStays(a, dt, n);
      }
    }
  }

  /** The same for an animation as anim_ease leaves it, whatever it was doing before. */
  lemma StartedFinishesIff(a: Anim, start: int, target: int, duration: int, c: Curve, dt: int)
    requires a.used && !a.loop && dt >= 0
    requires var b := StartEase(a, start, target, duration, c); Spans(b) && Fits(dt * ONE / b.duration)
    ensures var b := StartEase(a, start, target, duration, c);
            && ((exists n: nat :: Run(b, dt, n).done) <==> dt * ONE >= b.duration)
            && (dt * ONE >= b.duration ==> Run(b, dt, ONE).done && Run(b, dt, ONE).current == target)
            && (dt * ONE < b.duration ==> forall n: nat :: Run(b, dt, n).current == start)
  {
    StartedIsFresh(a, start, target, duration, c);
    hide Run, FxDiv, FxMul, Ease;
    FinishesIff(StartEase(a, start, target, duration, c), dt);
  }

  lemma FastEnoughFinishes(a: Anim, dt: int)
    requires Fresh(a) && !a.loop && Spans(a) && FxDiv(dt, a.duration) >= 1
    ensures Run(a, dt, ONE).done && Run(a, dt, ONE).current == a.target
  {
    hide FxDiv, FxMul, Ease, Run;
    var step := FxDiv(dt, a.duration);
    TimedRunIs(a, dt, ONE);
    ProductAtLeast(ONE, step);
    FullEaseLands(a.curve, a.start, a.target);
  }

  lemma TooSlowStays(a: Anim, dt: int, n: nat)
    requires Fresh(a) && !a.loop && FxDiv(dt, a.duration) == 0
    ensures Run(a, dt, n) == a
  {
    TimedRunIs(a, dt, n);
    AtZero(a);
    hide FxDiv, FxMul, Ease, Run;
  }

  lemma ProductAtLeast(x: int, y: int)
    requires x > 0 && y >= 1
    ensures x * y >= x
  {}

  // ---------------------------------------------------------------- ping-pong

  /** Ticks in one leg. */
  function LegTicks(step: int): (n: int)
    requires step >= 1
    ensures n >= 1
  {
    LegBounds(step);
    (ONE + step - 1) / step
  }

  lemma LegBounds(step: int)
    requires step >= 1
    ensures var n := (ONE + step - 1) / step; n >= 1 && (n - 1) * step < ONE <= n * step
  {
    var x := ONE + step - 1;
    var n := x / step;
    DivisionBounds(x, step);
    assert (n - 1) * step == n * step - step && (n + 1) * step == n * step + step;
    FactorOrder(0, n, step);
  }

  lemma LegEnds(step: int, k: int)
    requires step >= 1 && 1 <= k <= LegTicks(step)
    ensures k * step >= 1 && (k * step >= ONE <==> k == LegTicks(step))
  {
    LegBounds(step);
    var n := LegTicks(step);
    ProductAtLeast(step, k);
    assert k * step == step * k;
    if k < n {
      MulOrder(k, n - 1, step);
    }
  }

  lemma MulOrder(x: int, y: int, step: int)
    requires x <= y && step >= 1
    ensures x * step <= y * step
  {
    assert (y - x) * step >= 0;
  }

  /** The animation with its ends swapped on odd legs. */
  function Leg(a: Anim, leg: nat): Anim {
    if leg % 2 == 0 then a else a.(start := a.target, target := a.start, current := a.target)
  }

  /** Step k of a leg. */
  function Place(a: Anim, step: int, leg: nat, k: int): Anim {
    AtProgress(Leg(a, leg), Min(ONE, k * step))
  }

  /** A finished leg, then one tick: the other way, one step in. */
  lemma TurnRound(a: Anim, leg: nat, dt: int)
    requires Fresh(a) && a.loop && Spans(a)
    ensures Tick(AtProgress(Leg(a, leg), ONE), dt) == AtProgress(Leg(a, leg + 1), Min(ONE, FxDiv(dt, a.duration)))
  {
    hide Ease, FxMul, FxDiv;
  }

  /**
   * With looping: for every n, the (n + 1)-th tick is step k of leg n / N, where a leg has N ticks,
   * and its ends are swapped on odd legs.
   */
  lemma {:induction false} PingPongIs(a: Anim, dt: int, n: nat)
    requires Fresh(a) && a.loop && Spans(a) && FxDiv(dt, a.duration) >= 1
    ensures var step := FxDiv(dt, a.duration);
            var legs := LegTicks(step);
            Run(a, dt, n + 1) == Place(a, step, LegOf(n, legs), StepOf(n, legs))
  {
    hide *;
    var legs := LegTicks(FxDiv(dt, a.duration));
    if n == 0 {
      FirstTick(a, dt);
      NothingDivided(legs);
    } else {
      PingPongIs(a, dt, n - 1);
      CycleStep(a, dt, n - 1);
      OneMore(a, dt, n);
    }
  }

  /** One tick moves one place on in the cycle. */
  lemma CycleStep(a: Anim, dt: int, n: nat)
    requires Fresh(a) && a.loop && Spans(a) && FxDiv(dt, a.duration) >= 1
    ensures var step := FxDiv(dt, a.duration);
            var legs := LegTicks(step);
            Tick(Place(a, step, LegOf(n, legs), StepOf(n, legs)), dt) == Place(a, step, LegOf(n + 1, legs), StepOf(n + 1, legs))
  {
    hide *;
    var legs := LegTicks(FxDiv(dt, a.duration));
    NextPlace(n, legs);
    NextTick(a, dt, LegOf(n, legs), StepOf(n, legs));
  }

  /** Tick n + 1 of a looping run: which leg it belongs to, and which step of that leg it is. */
  function LegOf(n: nat, legs: nat): nat
    requires legs >= 1
  {
    n / legs
  }

  function StepOf(n: nat, legs: nat): nat
    requires legs >= 1
  {
    n % legs + 1
  }

  lemma OneMore(a: Anim, dt: int, n: nat)
    ensures Run(a, dt, n + 1) == Tick(Run(a, dt, n), dt)
  {
    hide Tick;
  }

  lemma NothingDivided(legs: nat)
    requires legs >= 1
    ensures LegOf(0, legs) == 0 && StepOf(0, legs) == 1
  {
    DivMod(0, 0, legs);
  }

  lemma FirstTick(a: Anim, dt: int)
    requires Fresh(a)
    ensures Run(a, dt, 1) == Place(a, FxDiv(dt, a.duration), 0, 1)
  {
    AtZero(a);
    StepAdvances(a, 0, dt);
    OneMore(a, dt, 0);
    hide FxDiv, FxMul, Ease, Tick;
    assert Run(a, dt, 0) == a;
  }

  /** From step k of a leg to the next place in the cycle. */
  lemma NextTick(a: Anim, dt: int, leg: nat, k: int)
    requires Fresh(a) && a.loop && Spans(a) && FxDiv(dt, a.duration) >= 1
    requires 1 <= k <= LegTicks(FxDiv(dt, a.duration))
    ensures var step := FxDiv(dt, a.duration);
            Tick(Place(a, step, leg, k), dt)
            == if k == LegTicks(step) then Place(a, step, leg + 1, 1) else Place(a, step, leg, k + 1)
  {
    var step := FxDiv(dt, a.duration);
    hide FxDiv, FxMul, Ease, LegTicks, Tick, AtProgress;
    LegEnds(step, k);
    if k == LegTicks(step) {
      TurnRound(a, leg, dt);
    } else {
      StepAdvances(Leg(a, leg), k * step, dt);
      assert k * step + step == (k + 1) * step;
    }
  }

  lemma NextPlace(n: nat, legs: nat)
    requires legs >= 1
    ensures 1 <= StepOf(n, legs) <= legs
    ensures StepOf(n, legs) < legs ==> LegOf(n + 1, legs) == LegOf(n, legs) && StepOf(n + 1, legs) == StepOf(n, legs) + 1
    ensures StepOf(n, legs) == legs ==> LegOf(n + 1, legs) == LegOf(n, legs) + 1 && StepOf(n + 1, legs) == 1
  {
    var q, r := n / legs, n % legs;
    DivModBack(n, legs);
    if r + 1 < legs {
      DivMod(q, r + 1, legs);
    } else {
      assert (q + 1) * legs == q * legs + legs;
      DivMod(q + 1, 0, legs);
    }
  }

  /** The value never jumps at a turn: where one leg ends the next begins. */
  lemma TurnsAreContinuous(a: Anim, leg: nat)
    requires Fresh(a) && Spans(a)
    ensures AtProgress(Leg(a, leg), ONE).current == AtProgress(Leg(a, leg + 1), 0).current
  {
    var b, c := Leg(a, leg), Leg(a, leg + 1);
    FullEaseLands(b.curve, b.start, b.target);
    EaseEnds(c.curve);
    MulByZero(c.target - c.start);
    hide Ease, FxMul;
  }

  // ---------------------------------------------------------------- bindings

  /** The integer that a binding writes, if any. */
  function Written(a: Anim): map<nat, int> {
    match a.bind
    case Unbound => map[]
    case ToI32(ptr, scale, offset, min, max) => map[ptr := Clamp(ToInt(FxMul(a.current, scale) + offset), min, max)]
    case ToU8(ptr, scale, offset, min, max) => map[ptr := Clamp(ToInt(FxMul(a.current, scale) + offset), min, max) % 256]
  }

  /** anim_bind_u8 */
  function BindU8(a: Anim, ptr: nat, scale: int, offset: int, min: int, max: int): Anim {
    a.(bind := ToU8(ptr, if scale == 0 then ONE else scale, offset, if min < 0 then 0 else min, if max > 255 then 255 else max))
  }

  /** The byte that anim_bind_u8's clamped bounds let through for the rounded value `v`. */
  function ByteOf(v: int, min: int, max: int): int {
    Bounded(v, min, max) % 256
  }

  function Bounded(v: int, min: int, max: int): int {
    Clamp(v, if min < 0 then 0 else min, if max > 255 then 255 else max)
  }

  lemma WrittenByte(a: Anim, ptr: nat, scale: int, offset: int, min: int, max: int)
    ensures Written(BindU8(a, ptr, scale, offset, min, max))
         == map[ptr := ByteOf(ToInt(FxMul(a.current, if scale == 0 then ONE else scale) + offset), min, max)]
  {
    hide FxMul, ToInt;
  }

  /** anim_bind_i32 */
  function BindI32(a: Anim, ptr: nat, scale: int, offset: int, min: int, max: int): Anim {
    a.(bind := ToI32(ptr, if scale == 0 then ONE else scale, offset, min, max))
  }

  /** A bound integer stays between its bounds, and there it is a nearest integer to the scaled value plus the
      offset, a scale of zero standing for one. */
  lemma BoundIntIs(a: Anim, ptr: nat, scale: int, offset: int, min: int, max: int)
    requires min <= max
    ensures var w := Written(BindI32(a, ptr, scale, offset, min, max));
            var v := FxMul(a.current, if scale == 0 then ONE else scale) + offset;
            && ptr in w && min <= w[ptr] <= max
            && (0 <= v && min * ONE <= v <= max * ONE ==> Nearest(v, w[ptr]))
  {
    hide FxMul;
    var v := FxMul(a.current, if scale == 0 then ONE else scale) + offset;
    ToIntIsNearestIff(v);
  }

  /** A byte binding never wraps exactly when its bounds meet the byte range; it then keeps every value between
      the bounds exactly when they are in order. */
  lemma ByteStaysInBoundsIff(min: int, max: int)
    ensures (forall v :: ByteOf(v, min, max) == Bounded(v, min, max)) <==> min <= 255 && max >= 0
    ensures (forall v :: min <= ByteOf(v, min, max) <= max) <==> min <= max && min <= 255 && max >= 0
  {
    if min > 255 {
      assert Bounded(0, min, max) == min;
      assert ByteOf(0, min, max) < min;
    } else if max < 0 {
      var v := if min < 0 then 0 else min;
      assert Bounded(v, min, max) == max;
      assert ByteOf(v, min, max) > max;
    } else if min > max {
      assert ByteOf(-1, min, max) == min;
    }
  }

  /** Whatever the animation's value, a byte bound with ordered bounds that meet the byte range stays between
      them; with any other bounds some value escapes. */
  lemma BoundByteStaysIff(a: Anim, ptr: nat, scale: int, offset: int, min: int, max: int)
    ensures ptr in Written(BindU8(a, ptr, scale, offset, min, max))
    ensures min <= max && min <= 255 && max >= 0 ==>
              var w := Written(BindU8(a, ptr, scale, offset, min, max)); min <= w[ptr] <= max
    ensures !(min <= max && min <= 255 && max >= 0) ==> exists v :: !(min <= ByteOf(v, min, max) <= max)
  {
    WrittenByte(a, ptr, scale, offset, min, max);
    ByteStaysInBoundsIff(min, max);
    hide Written, BindU8, FxMul, ToInt, ByteOf;
  }

  /** Bounds of 300 and 400 store 44. */
  lemma HighBoundsWrap()
    ensures ByteOf(0, 300, 400) == 44
  {}

  /** The pool after one tick of every animation. */
  function Ticked(pool: seq<Anim>, dt: int): (r: seq<Anim>)
    ensures |r| == |pool| && forall i :: 0 <= i < |pool| ==> r[i] == Tick(pool[i], dt)
  {
    seq(|pool|, i requires 0 <= i < |pool| => Tick(pool[i], dt))
  }

  /** What the bound cells hold after every running animation has ticked. */
  function Cells(cells: map<nat, int>, pool: seq<Anim>, dt: int): map<nat, int> {
    if pool == [] then cells
    else
      var a := pool[|pool| - 1];
      var before := Cells(cells, pool[..|pool| - 1], dt);
      if Idle(a) then before else before + Written(Tick(a, dt))
  }

  predicate Writes(a: Anim, dt: int, p: nat) {
    !Idle(a) && p in Written(Tick(a, dt))
  }

  /** A cell that no running animation is bound to keeps its value. */
  lemma {:induction false} UnboundCellStays(cells: map<nat, int>, pool: seq<Anim>, dt: int, p: nat)
    requires forall i :: 0 <= i < |pool| ==> !Writes(pool[i], dt, p)
    ensures p in Cells(cells, pool, dt) <==> p in cells
    ensures p in cells ==> Cells(cells, pool, dt)[p] == cells[p]
    decreases |pool|
  {
    hide Written, Tick, Idle;
    if pool != [] {
      assert !Writes(pool[|pool| - 1], dt, p);
      UnboundCellStays(cells, pool[..|pool| - 1], dt, p);
    }
  }

  /** Of the animations bound to one cell, the last in the pool decides. */
  lemma {:induction false} LastWriterDecides(cells: map<nat, int>, pool: seq<Anim>, dt: int, p: nat, i: nat)
    requires i < |pool| && Writes(pool[i], dt, p) && forall j :: i < j < |pool| ==> !Writes(pool[j], dt, p)
    ensures p in Cells(cells, pool, dt) && Cells(cells, pool, dt)[p] == Written(Tick(pool[i], dt))[p]
    decreases |pool|
  {
    hide Written, Tick, Idle;
    if i < |pool| - 1 {
      assert !Writes(pool[|pool| - 1], dt, p);
      LastWriterDecides(cells, pool[..|pool| - 1], dt, p, i);
    }
  }

  const POOL: nat := 64

  const BLANK := Anim(false, Spring, 0, 0, 0, 0, 0, 0, 0, 0, Linear, Unbound, false, false)

  /** The static pool; a handle is an index. */
  class AnimPool {
    const pool: array<Anim>
    var cells: map<nat, int>

    ghost predicate Valid()
      reads this
    {
      pool.Length == POOL
    }

    constructor ()
      ensures Valid() && fresh(pool) && pool[..] == seq(POOL, i => BLANK)
    {
      pool := new Anim[POOL](i => BLANK);
      cells := map[];
    }

    /** anim_new: the first unused slot, blanked; POOL when all are in use. */
    method New() returns (k: nat)
      requires Valid()
      modifies pool
      ensures k <= POOL && forall i :: 0 <= i < k ==> old(pool[..])[i].used
      ensures k < POOL ==> !old(pool[..])[k].used && pool[..] == old(pool[..])[k := BLANK.(used := true)]
      ensures k == POOL ==> pool[..] == old(pool[..])
    {
      k := 0;
      while k < POOL && pool[k].used
        invariant k <= POOL && forall i :: 0 <= i < k ==> pool[i].used
      {
        k := k + 1;
      }
      if k < POOL {
        pool[k] := BLANK.(used := true);
      }
    }

    /** anim_tick_all */
    method TickAll(dt: int)
      requires Valid()
      modifies this, pool
      ensures Valid() && pool[..] == Ticked(old(pool[..]), dt)
      ensures cells == Cells(old(cells), old(pool[..]), dt)
    {
      hide Tick, Written, Idle;
      ghost var was := pool[..];
      for i := 0 to POOL
        invariant forall k :: 0 <= k < i ==> pool[k] == Tick(was[k], dt)
        invariant forall k :: i <= k < POOL ==> pool[k] == was[k]
        invariant cells == Cells(old(cells), was[..i], dt)
      {
        assert was[..i + 1][..i] == was[..i];
        if !Idle(pool[i]) {
          pool[i] := Tick(pool[i], dt);
          cells := cells + Written(pool[i]);
        } else {
          IdleStays(was[i], dt);
        }
      }
      assert was[..POOL] == was;
    }
  }

  lemma IdleStays(a: Anim, dt: int)
    requires Idle(a)
    ensures Tick(a, dt) == a
  {}
}
