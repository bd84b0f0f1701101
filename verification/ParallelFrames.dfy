/** Frames composed by several processors at once (src/compositor/parallel.c:40-214): the barrier's
machine, in which a processor that holds a band performs the band's pixel writes one by one. Whatever the
interleaving, the screen between two calls is the one a single processor would have drawn.
*/
module ParallelFrames {
  import opened Options
  import opened Rects
  import opened DamageList
  import opened Pixels
  import opened Scene
  import opened Bands
  import Barrier

  /** The arguments of one call of parallel_compose. */
  datatype Job = Job(dmg: seq<Rect>, vs: seq<View>, bg: Rgb) {
    function Box(): Rect {
      if dmg == [] then NOTHING else UnionAll(dmg[0], dmg[1..])
    }
  }

  /** The context of the idle barrier. */
  const NO_JOB := Job([], [], Rgb(0, 0, 0))

  type Screen = (int, int) -> Rgb

  /** `at[k]` counts the writes processor `k` has performed of the band it is composing; the boot processor
      is the last one. `jobs`, `base` and `il` are history: the calls so far, the screen when the latest
      began, and its writes. */
  datatype State = State(barrier: Barrier.State, at: seq<nat>, screen: Screen,
                         jobs: seq<Job>, base: Screen, il: seq<Tagged>)

  datatype Step = Compose(job: Job) | IdleBarrier | Turn(k: nat)

  function Current(s: State): Job {
    if s.jobs == [] then NO_JOB else s.jobs[|s.jobs| - 1]
  }

  /** The writes of compose_band for tile `t` of `n`. */
  function Program(j: Job, n: nat, t: nat): seq<Write> {
    if t < n && !j.Box().Empty() then BandWrites(j.dmg, j.vs, j.bg, Band(j.Box(), n, t)) else []
  }

  /** The tile processor `k` is composing. */
  function Tile(b: Barrier.State, k: nat): Option<nat> {
    if k < |b.aps| then (if b.aps[k].pc.Composing? then Some(b.aps[k].pc.t) else None)
    else if k == |b.aps| && b.bsp.BspComposing? then Some(b.bsp.t)
    else None
  }

  function Move(b: Barrier.State, k: nat): Barrier.State {
    Barrier.Next(b, if k < |b.aps| then Barrier.ApStep(k) else Barrier.BspStep)
  }

  function Draw(screen: Screen, w: Write): Screen {
    (x: int, y: int) => if x == w.px && y == w.py then ActOn(w.act, x, y, screen(x, y)) else screen(x, y)
  }

  function Begin(s: State, j: Job, bands: nat): State {
    s.(barrier := Barrier.Next(s.barrier, Barrier.Begin(bands)), jobs := s.jobs + [j], base := s.screen, il := [])
  }

  /** Processor `k` performs the next write of its band, or goes on in the protocol when it has none left. */
  function TurnOf(s: State, k: nat): State
    requires k < |s.at|
  {
    match Tile(s.barrier, k)
    case None => s.(barrier := Move(s.barrier, k))
    case Some(t) =>
      var p := Program(Current(s), s.barrier.bands, t);
      if s.at[k] < |p| then
        var w := p[s.at[k]];
        s.(at := s.at[k := s.at[k] + 1], screen := Draw(s.screen, w), il := s.il + [Tagged(t, w)])
      else s.(barrier := Move(s.barrier, k), at := s.at[k := 0])
  }

  /** A call without damage returns at once; the boot processor and `need` others share the bands. */
  function Next(s: State, step: Step): State {
    match step
    case Compose(j) =>
      if !s.barrier.bsp.Idle? then s
      else if j.Box().Empty() then s.(jobs := s.jobs + [j])
      else Begin(s, j, BandCount(s.barrier.need + 1, j.Box().h))
    case IdleBarrier => if s.barrier.bsp.Idle? then Begin(s, NO_JOB, 0) else s
    case Turn(k) => if k < |s.at| then TurnOf(s, k) else s
  }

  function Run(s: State, steps: seq<Step>): State {
    if steps == [] then s else Next(Run(s, steps[..|steps| - 1]), steps[|steps| - 1])
  }

  // ---------------------------------------------------------------- the reference

  /** One processor composes the whole box as a single band. */
  function OnePass(j: Job, px: int, py: int, c: Rgb): Rgb {
    RunAt(BandWrites(j.dmg, j.vs, j.bg, j.Box()), px, py, c)
  }

  /** One call after another. */
  function Passes(jobs: seq<Job>, px: int, py: int, c: Rgb): Rgb {
    if jobs == [] then c else OnePass(jobs[|jobs| - 1], px, py, Passes(jobs[..|jobs| - 1], px, py, c))
  }

  lemma {:induction false} UnionHolds(u: Rect, rs: seq<Rect>, px: int, py: int)
    ensures u.Has(px, py) || Covered(rs, px, py) ==> UnionAll(u, rs).Has(px, py)
  {
    hide Union;
    if rs != [] {
      UnionHolds(u, rs[..|rs| - 1], px, py);
      CoveredSnoc(rs, px, py);
    }
  }

  lemma BoxHolds(j: Job, px: int, py: int)
    ensures Covered(j.dmg, px, py) ==> j.Box().Has(px, py)
  {
    if j.dmg != [] && Covered(j.dmg, px, py) {
      var i :| 0 <= i < |j.dmg| && j.dmg[i].Has(px, py);
      if i > 0 {
        assert j.dmg[1..][i - 1].Has(px, py);
      }
      UnionHolds(j.dmg[0], j.dmg[1..], px, py);
    }
  }

  /** A pass paints the damage and nothing else. */
  lemma OnePassPaints(j: Job, px: int, py: int, c: Rgb)
    ensures OnePass(j, px, py, c) == if Covered(j.dmg, px, py) then PaintAt(j.vs, j.bg, px, py) else c
  {
    hide PaintAt, RunAt, BandWrites, Covered;
    BoxHolds(j, px, py);
    RunBand(j.dmg, j.vs, j.bg, j.Box(), px, py, c);
  }

  // ---------------------------------------------------------------- the invariant

  predicate Draws(b: Barrier.State, k: nat, t: nat) {
    Tile(b, k) == Some(t)
  }

  ghost predicate Drawn(b: Barrier.State, t: nat) {
    exists k: nat :: Draws(b, k, t)
  }

  /** Of every band, the writes performed are those its holder counts; all of them once it is composed. */
  ghost predicate Progress(b: Barrier.State, at: seq<nat>, j: Job, il: seq<Tagged>) {
    && (forall k: nat, t: nat :: Draws(b, k, t) ==>
          k < |at| && t < b.bands && at[k] <= |Program(j, b.bands, t)| && Own(il, t) == Program(j, b.bands, t)[..at[k]])
    && (forall t: nat :: t < b.bands && !Drawn(b, t) ==>
          Own(il, t) == if b.composed[t] > 0 then Program(j, b.bands, t) else [])
  }

  ghost predicate Counters(s: State) {
    && |s.at| == |s.barrier.aps| + 1
    && forall k: nat :: k < |s.at| && Tile(s.barrier, k).None? ==> s.at[k] == 0
  }

  ghost predicate Split(j: Job, bands: nat) {
    if j.Box().Empty() then bands == 0 else 0 < bands <= j.Box().h
  }

  ghost predicate Tags(il: seq<Tagged>, bands: nat) {
    forall i :: 0 <= i < |il| ==> il[i].band < bands
  }

  ghost predicate Shows(screen: Screen, jobs: seq<Job>, first: Screen) {
    forall px, py :: screen(px, py) == Passes(jobs, px, py, first(px, py))
  }

  ghost predicate Written(screen: Screen, il: seq<Tagged>, base: Screen) {
    forall px, py :: screen(px, py) == RunAt(Untag(il), px, py, base(px, py))
  }

  ghost predicate Drawing(s: State, first: Screen) {
    && s.jobs != [] && Split(Current(s), s.barrier.bands) && Tags(s.il, s.barrier.bands)
    && Shows(s.base, s.jobs[..|s.jobs| - 1], first)
    && Written(s.screen, s.il, s.base)
    && (if Barrier.Quiet(s.barrier) then s.il == [] else Progress(s.barrier, s.at, Current(s), s.il))
  }

  ghost predicate Inv(s: State, first: Screen) {
    && Barrier.Inv(s.barrier) && Counters(s)
    && if s.barrier.bsp.Idle? then Shows(s.screen, s.jobs, first) else Drawing(s, first)
  }

  // ---------------------------------------------------------------- one step of the protocol

  lemma DrawsMeansHeld(b: Barrier.State, k: nat, t: nat)
    requires Barrier.Inv(b) && !Barrier.Quiet(b) && Draws(b, k, t)
    ensures Barrier.Has(b, k, t) && b.composed[t] == 0 && t < b.bands && k <= |b.aps|
  {
    assert Barrier.Has(b, k, t);
    assert Barrier.Held(b, t);
  }

  /** A held tile is being drawn by its holder or by nobody. */
  lemma OneHolder(b: Barrier.State, k: nat, l: nat, t: nat)
    requires Barrier.Inv(b) && !Barrier.Quiet(b) && Barrier.Has(b, k, t) && Draws(b, l, t)
    ensures k == l
  {
    DrawsMeansHeld(b, l, t);
  }

  /** What one protocol step of processor `k` does to the tiles being composed. */
  lemma MoveShape(b: Barrier.State, k: nat)
    requires k <= |b.aps| && !Barrier.Quiet(b)
    ensures var n := Move(b, k);
            && n.bands == b.bands && |n.aps| == |b.aps|
            && (forall l: nat :: l != k ==> Tile(n, l) == Tile(b, l))
            && (Barrier.Quiet(n) ==> n.bsp.Idle? && b.bsp.Wait? && b.done >= b.need)
            && match Tile(b, k) {
                 case Some(t) => Tile(n, k).None? && n.composed == b.composed + multiset{t}
                 case None => n.composed == b.composed
                              && forall t: nat :: Draws(n, k, t) ==> Barrier.Has(b, k, t) && t < b.bands
               }
  {
  }

  /** Processor `k` had no tile to compose; it may have one now. */
  lemma TakeKeepsProgress(b: Barrier.State, n: Barrier.State, k: nat, at: seq<nat>, j: Job, il: seq<Tagged>)
    requires Barrier.Inv(b) && !Barrier.Quiet(b) && Progress(b, at, j, il)
    requires k < |at| && at[k] == 0 && Tile(b, k).None?
    requires n.bands == b.bands && n.composed == b.composed
    requires forall l: nat :: l != k ==> Tile(n, l) == Tile(b, l)
    requires forall t: nat :: Draws(n, k, t) ==> Barrier.Has(b, k, t) && t < b.bands
    ensures Progress(n, at, j, il)
  {
    hide Tile, Program, Own, Barrier.Inv, Barrier.Quiet, Barrier.Has;
    forall l: nat, t: nat | Draws(n, l, t)
      ensures l < |at| && t < n.bands && at[l] <= |Program(j, n.bands, t)| && Own(il, t) == Program(j, n.bands, t)[..at[l]]
    {
      if l == k {
        NotYetDrawn(b, k, t);
      } else {
        assert Draws(b, l, t);
      }
    }
    forall t: nat | t < n.bands && !Drawn(n, t)
      ensures Own(il, t) == if n.composed[t] > 0 then Program(j, n.bands, t) else []
    {
      StillDrawn(b, n, k, t);
    }
  }

  lemma StillDrawn(b: Barrier.State, n: Barrier.State, k: nat, t: nat)
    requires forall l: nat :: l != k ==> Tile(n, l) == Tile(b, l)
    ensures Drawn(b, t) && !Draws(b, k, t) ==> Drawn(n, t)
  {
    if Drawn(b, t) && !Draws(b, k, t) {
      var l: nat :| Draws(b, l, t);
      assert Draws(n, l, t);
    }
  }

  lemma NotYetDrawn(b: Barrier.State, k: nat, t: nat)
    requires Barrier.Inv(b) && !Barrier.Quiet(b) && Tile(b, k).None? && Barrier.Has(b, k, t)
    ensures !Drawn(b, t) && b.composed[t] == 0
  {
    assert Barrier.Held(b, t);
    if l: nat :| Draws(b, l, t) {
      OneHolder(b, k, l, t);
    }
  }

  /** Processor `k` has performed all writes of its tile and lets go of it. */
  lemma FinishKeepsProgress(b: Barrier.State, n: Barrier.State, k: nat, t0: nat, at: seq<nat>, j: Job, il: seq<Tagged>)
    requires Barrier.Inv(b) && !Barrier.Quiet(b) && Progress(b, at, j, il)
    requires k < |at| && Draws(b, k, t0) && at[k] == |Program(j, b.bands, t0)|
    requires n.bands == b.bands && n.composed == b.composed + multiset{t0} && Tile(n, k).None?
    requires forall l: nat :: l != k ==> Tile(n, l) == Tile(b, l)
    ensures Progress(n, at[k := 0], j, il)
  {
    hide Tile, Program, Own, Barrier.Inv, Barrier.Quiet, Barrier.Has;
    forall l: nat, t: nat | Draws(n, l, t)
      ensures l < |at| && t < n.bands && at[k := 0][l] <= |Program(j, n.bands, t)|
              && Own(il, t) == Program(j, n.bands, t)[..at[k := 0][l]]
    {
      assert l != k && Draws(b, l, t);
    }
    forall t: nat | t < n.bands && !Drawn(n, t)
      ensures Own(il, t) == if n.composed[t] > 0 then Program(j, n.bands, t) else []
    {
      if t == t0 {
        assert Own(il, t) == Program(j, b.bands, t)[..at[k]];
      } else {
        StillDrawn(b, n, k, t);
      }
    }
  }

  lemma OwnSnoc(il: seq<Tagged>, g: Tagged, t: nat)
    ensures Own(il + [g], t) == if g.band == t then Own(il, t) + [g.w] else Own(il, t)
  {
    assert (il + [g])[..|il|] == il;
  }

  /** The first `m` writes of program `p` have been performed as band `t`; performing the next. */
  lemma OwnGrows(il: seq<Tagged>, t: nat, p: seq<Write>, m: nat)
    requires m < |p| && Own(il, t) == p[..m]
    ensures Own(il + [Tagged(t, p[m])], t) == p[..m + 1]
  {
    OwnSnoc(il, Tagged(t, p[m]), t);
    assert p[..m] + [p[m]] == p[..m + 1];
  }

  /** Processor `k` performs one write of its tile. */
  lemma WriteKeepsProgress(b: Barrier.State, k: nat, t0: nat, at: seq<nat>, j: Job, il: seq<Tagged>)
    requires Barrier.Inv(b) && !Barrier.Quiet(b) && Progress(b, at, j, il)
    requires k < |at| && Draws(b, k, t0) && at[k] < |Program(j, b.bands, t0)|
    ensures Progress(b, at[k := at[k] + 1], j, il + [Tagged(t0, Program(j, b.bands, t0)[at[k]])])
  {
    var p, m := Program(j, b.bands, t0), at[k];
    var now, more := at[k := m + 1], il + [Tagged(t0, p[m])];
    DrawsMeansHeld(b, k, t0);
    OwnGrows(il, t0, p, m);
    hide Program, Own, Draws, Barrier.Inv, Barrier.Quiet, Barrier.Has;
    forall l: nat, t: nat | Draws(b, l, t)
      ensures l < |now| && t < b.bands && now[l] <= |Program(j, b.bands, t)| && Own(more, t) == Program(j, b.bands, t)[..now[l]]
    {
      if t == t0 {
        OneHolder(b, k, l, t);
      } else {
        OwnSnoc(il, Tagged(t0, p[m]), t);
        SameTile(b, k, l, t0, t);
      }
    }
    forall t: nat | t < b.bands && !Drawn(b, t)
      ensures Own(more, t) == if b.composed[t] > 0 then Program(j, b.bands, t) else []
    {
      OwnSnoc(il, Tagged(t0, p[m]), t);
    }
  }

  lemma SameTile(b: Barrier.State, k: nat, l: nat, t0: nat, t: nat)
    requires Draws(b, k, t0) && Draws(b, l, t)
    ensures k == l ==> t0 == t
  {
  }

  // ---------------------------------------------------------------- the end of a round

  /** When the boot processor may return, every pixel is as one pass over the frame's start leaves it. */
  lemma ReturnIsOnePass(s: State, first: Screen, px: int, py: int)
    requires Inv(s, first) && s.barrier.bsp.Wait? && s.barrier.done >= s.barrier.need
    ensures s.screen(px, py) == OnePass(Current(s), px, py, s.base(px, py))
  {
    hide RunAt, PaintAt, BandWrites, Band, Covered, OnePass;
    var b, j := s.barrier, Current(s);
    assert Written(s.screen, s.il, s.base);
    OnePassPaints(j, px, py, s.base(px, py));
    BoxHolds(j, px, py);
    if b.bands == 0 {
      NothingWritten(s.il, px, py, s.base(px, py));
    } else {
      AllWritten(s, first);
      EveryInterleavingAgrees(s.il, j.dmg, j.vs, j.bg, j.Box(), b.bands, px, py, s.base(px, py));
    }
  }

  lemma NothingWritten(il: seq<Tagged>, px: int, py: int, c: Rgb)
    requires Tags(il, 0)
    ensures RunAt(Untag(il), px, py, c) == c
  {
    assert |il| > 0 ==> il[0].band < 0;
  }

  lemma AllWritten(s: State, first: Screen)
    requires Inv(s, first) && s.barrier.bsp.Wait? && s.barrier.done >= s.barrier.need && s.barrier.bands > 0
    ensures var j := Current(s);
            !j.Box().Empty() && Interleaves(s.il, j.dmg, j.vs, j.bg, j.Box(), s.barrier.bands)
  {
    hide BandWrites, Band, Own;
    var b, j := s.barrier, Current(s);
    Barrier.ReturnMeansDone(b);
    forall t: nat | t < b.bands ensures Own(s.il, t) == BandWrites(j.dmg, j.vs, j.bg, Band(j.Box(), b.bands, t)) {
      NobodyDraws(b, t);
    }
  }

  lemma NobodyDraws(b: Barrier.State, t: nat)
    requires Barrier.Quiescent(b) && !b.bsp.BspComposing?
    ensures !Drawn(b, t)
  {
  }

  // ---------------------------------------------------------------- every step

  lemma DrawOne(screen: Screen, il: seq<Tagged>, base: Screen, g: Tagged)
    requires Written(screen, il, base)
    ensures Written(Draw(screen, g.w), il + [g], base)
  {
    var more := Untag(il + [g]);
    assert more[..|il|] == Untag(il) && more[|il|] == g.w;
  }

  lemma MoveKeepsInv(b: Barrier.State, k: nat)
    requires Barrier.Inv(b)
    ensures Barrier.Inv(Move(b, k))
  {
    Barrier.StepKeepsInv(b, if k < |b.aps| then Barrier.ApStep(k) else Barrier.BspStep);
  }

  lemma WriteTurn(s: State, first: Screen, k: nat, t: nat)
    requires Inv(s, first) && !Barrier.Quiet(s.barrier) && k < |s.at| && Draws(s.barrier, k, t)
    requires s.at[k] < |Program(Current(s), s.barrier.bands, t)|
    ensures Inv(TurnOf(s, k), first)
  {
    hide Barrier.Inv, Program, Own, RunAt, Passes, Split, Progress;
    var b, p := s.barrier, Program(Current(s), s.barrier.bands, t);
    WriteKeepsProgress(b, k, t, s.at, Current(s), s.il);
    DrawsMeansHeld(b, k, t);
    DrawOne(s.screen, s.il, s.base, Tagged(t, p[s.at[k]]));
  }

  lemma FinishTurn(s: State, first: Screen, k: nat, t: nat)
    requires Inv(s, first) && !Barrier.Quiet(s.barrier) && k < |s.at| && Draws(s.barrier, k, t)
    requires s.at[k] >= |Program(Current(s), s.barrier.bands, t)|
    ensures Inv(TurnOf(s, k), first)
  {
    var b, n := s.barrier, Move(s.barrier, k);
    MoveKeepsInv(b, k);
    MoveShape(b, k);
    NotWaiting(b, k);
    hide Barrier.Inv, Program, Own, RunAt, Passes, Split, Shows, Written, Barrier.Quiet, Barrier.Has, Move, Tile;
    FinishKeepsProgress(b, n, k, t, s.at, Current(s), s.il);
    hide Progress;
  }

  lemma NotWaiting(b: Barrier.State, k: nat)
    requires Tile(b, k).Some?
    ensures !Barrier.Quiet(b) ==> !Barrier.Quiet(Move(b, k))
  {
  }

  lemma TakeTurn(s: State, first: Screen, k: nat)
    requires Inv(s, first) && !Barrier.Quiet(s.barrier) && k < |s.at| && Tile(s.barrier, k).None?
    ensures Inv(TurnOf(s, k), first)
  {
    var b, n := s.barrier, Move(s.barrier, k);
    MoveKeepsInv(b, k);
    MoveShape(b, k);
    if Barrier.Quiet(n) {
      ReturnShows(s, first);
      assert !n.bsp.BspComposing?;
      hide Barrier.Inv, Program, Own, RunAt, Passes, Split, Shows, Written, Move, Progress;
    } else {
      hide Barrier.Inv, Program, Own, RunAt, Passes, Split, Shows, Written, Barrier.Quiet, Barrier.Has, Move, Tile;
      TakeKeepsProgress(b, n, k, s.at, Current(s), s.il);
      hide Progress;
    }
  }

  lemma ReturnShows(s: State, first: Screen)
    requires Inv(s, first) && s.barrier.bsp.Wait? && s.barrier.done >= s.barrier.need
    ensures Shows(s.screen, s.jobs, first)
  {
    hide OnePass, Barrier.Inv, Progress, Written;
    forall px, py ensures s.screen(px, py) == Passes(s.jobs, px, py, first(px, py)) {
      ReturnIsOnePass(s, first, px, py);
    }
  }

  lemma QuietTurn(s: State, first: Screen, k: nat)
    requires Inv(s, first) && Barrier.Quiet(s.barrier) && k < |s.at|
    ensures Inv(TurnOf(s, k), first)
  {
    var b, n := s.barrier, Move(s.barrier, k);
    MoveKeepsInv(b, k);
    QuietMove(b, k);
    hide Barrier.Inv, Move, Program, RunAt, Passes, Split, Tags;
    if !Barrier.Quiet(n) {
      FreshProgress(n, s.at, Current(s));
    }
  }

  lemma QuietMove(b: Barrier.State, k: nat)
    requires Barrier.Inv(b) && Barrier.Quiet(b) && k <= |b.aps|
    ensures var n := Move(b, k);
            && n.bands == b.bands && |n.aps| == |b.aps| && Tile(b, k).None?
            && (n.bsp.Idle? <==> b.bsp.Idle?)
            && (forall l: nat :: Tile(n, l).None?)
            && (!Barrier.Quiet(n) ==> n.composed == multiset{})
  {
  }

  lemma FreshProgress(n: Barrier.State, at: seq<nat>, j: Job)
    requires n.composed == multiset{} && forall l: nat :: Tile(n, l).None?
    ensures Progress(n, at, j, [])
  {
  }

  lemma TurnKeepsInv(s: State, first: Screen, k: nat)
    requires Inv(s, first) && k < |s.at|
    ensures Inv(TurnOf(s, k), first)
  {
    hide Inv, TurnOf, Program;
    if Barrier.Quiet(s.barrier) {
      QuietTurn(s, first, k);
    } else {
      match Tile(s.barrier, k)
      case Some(t) =>
        assert Draws(s.barrier, k, t);
        if s.at[k] < |Program(Current(s), s.barrier.bands, t)| {
          WriteTurn(s, first, k, t);
        } else {
          FinishTurn(s, first, k, t);
        }
      case None => TakeTurn(s, first, k);
    }
  }

  lemma BeginKeepsInv(s: State, first: Screen, j: Job, bands: nat)
    requires Inv(s, first) && s.barrier.bsp.Idle? && Split(j, bands)
    ensures Inv(Begin(s, j, bands), first)
  {
    var n := Begin(s, j, bands);
    Barrier.StepKeepsInv(s.barrier, Barrier.Begin(bands));
    assert n.jobs[..|n.jobs| - 1] == s.jobs;
    assert Current(n) == j;
    hide Barrier.Inv, Split, Passes;
    assert Untag([]) == [];
  }

  lemma EmptyPass(s: State, first: Screen, j: Job)
    requires Shows(s.screen, s.jobs, first) && j.Box().Empty()
    ensures Shows(s.screen, s.jobs + [j], first)
  {
    hide OnePass;
    var more := s.jobs + [j];
    assert more[..|more| - 1] == s.jobs;
    forall px, py ensures s.screen(px, py) == Passes(more, px, py, first(px, py)) {
      BoxHolds(j, px, py);
      OnePassPaints(j, px, py, s.screen(px, py));
    }
  }

  lemma StepKeepsInv(s: State, first: Screen, step: Step)
    requires Inv(s, first)
    ensures Inv(Next(s, step), first)
  {
    hide Barrier.Inv, Shows, Drawing, Begin, TurnOf;
    match step
    case Compose(j) =>
      if s.barrier.bsp.Idle? {
        if j.Box().Empty() {
          EmptyPass(s, first, j);
        } else {
          BeginKeepsInv(s, first, j, BandCount(s.barrier.need + 1, j.Box().h));
        }
      }
    case IdleBarrier =>
      if s.barrier.bsp.Idle? {
        BeginKeepsInv(s, first, NO_JOB, 0);
      }
    case Turn(k) =>
      if k < |s.at| {
        TurnKeepsInv(s, first, k);
      }
  }

  // ---------------------------------------------------------------- every run

  /** All workers parked, and the boot processor waits for all there are. */
  ghost predicate Start(s: State) {
    Barrier.Start(s.barrier) && s.jobs == [] && |s.at| == |s.barrier.aps| + 1 && forall k :: 0 <= k < |s.at| ==> s.at[k] == 0
  }

  lemma {:induction false} RunKeepsInv(s: State, steps: seq<Step>)
    requires Start(s)
    ensures Inv(Run(s, steps), s.screen)
  {
    if steps == [] {
      hide Barrier.Inv;
      assert Barrier.Inv(s.barrier) by {
        Barrier.RunKeepsInv(s.barrier, []);
        assert Barrier.Run(s.barrier, []) == s.barrier;
      }
    } else {
      hide Inv, Next;
      var n := |steps| - 1;
      RunKeepsInv(s, steps[..n]);
      StepKeepsInv(Run(s, steps[..n]), s.screen, steps[n]);
    }
  }

  /**
   * Over every run of any number of calls, processors and interleaved pixel writes: whenever the boot
   * processor is between two calls, or may return from one, the screen is the one that a single processor
   * draws by composing each call's box as one band, call after call.
   */
  lemma EveryRunIsSequential(s: State, steps: seq<Step>, px: int, py: int)
    requires Start(s)
    ensures var r := Run(s, steps);
            r.barrier.bsp.Idle? || (r.barrier.bsp.Wait? && r.barrier.done >= r.barrier.need) ==>
              r.screen(px, py) == Passes(r.jobs, px, py, s.screen(px, py))
  {
    RunKeepsInv(s, steps);
    var r := Run(s, steps);
    hide Run, Barrier.Inv, Passes, Drawing;
    if r.barrier.bsp.Wait? && r.barrier.done >= r.barrier.need {
      ReturnShows(r, s.screen);
    }
  }

  /** A call that may return has painted its damage and left every other pixel as it found it. */
  lemma ReturnedCallPaintsDamage(s: State, steps: seq<Step>, px: int, py: int)
    requires Start(s)
    ensures var r := Run(s, steps);
            r.barrier.bsp.Wait? && r.barrier.done >= r.barrier.need ==>
              r.screen(px, py) == if Covered(Current(r).dmg, px, py) then PaintAt(Current(r).vs, Current(r).bg, px, py)
                                  else r.base(px, py)
  {
    RunKeepsInv(s, steps);
    var r := Run(s, steps);
    hide Run, Barrier.Inv, Passes, Drawing, OnePass, PaintAt, Covered;
    if r.barrier.bsp.Wait? && r.barrier.done >= r.barrier.need {
      ReturnIsOnePass(r, s.screen, px, py);
      OnePassPaints(Current(r), px, py, r.base(px, py));
    }
  }
}
