/** The epoch barrier between the boot processor and the application processors
(src/compositor/parallel.c:87-143, 145-214), as interleaved atomic steps.

The boot processor rewrites the shared context, publishes it by bumping `epoch`, takes tile 0, claims
further tiles, and waits until `need` processors have posted. Each application processor spins on the
epoch, claims tiles until they run out, and posts.
*/
module Barrier {

  const WORD := 0x1_0000_0000

  /** Program counter of an application processor. `Check(t)` is about to compare a claimed tile with
      the context's band count. */
  datatype Pc = Spin | Load | Claim | Check(t: nat) | Composing(t: nat) | Post

  datatype Ap = Ap(pc: Pc, seen: nat)

  /** Program counter of the boot processor; from `SetTile` to `Publish` it rewrites the context. */
  datatype Bsp = Idle | SetTile | SetDone | Publish | BspClaim | BspCheck(t: nat) | BspComposing(t: nat) | Wait

  /** `composed` is a history variable: how often each band of the current round has been composed. */
  datatype State = State(aps: seq<Ap>, need: nat, epoch: nat, nextTile: nat, done: nat, bands: nat,
                         bsp: Bsp, composed: multiset<nat>)

  /** Who moves next; `Begin` starts a frame with that many bands (zero for the idle barrier). */
  datatype Step = Begin(bands: nat) | BspStep | ApStep(i: nat)

  function StepBsp(s: State): State {
    match s.bsp
    case Idle => s
    case SetTile => s.(nextTile := 1, bsp := SetDone)
    case SetDone => s.(done := 0, bsp := Publish)
    case Publish => s.(epoch := (s.epoch + 1) % WORD, bsp := BspCheck(0))
    case BspClaim => s.(nextTile := s.nextTile + 1, bsp := BspCheck(s.nextTile))
    case BspCheck(t) => s.(bsp := if t < s.bands then BspComposing(t) else if t == 0 then BspClaim else Wait)
    case BspComposing(t) => s.(composed := s.composed + multiset{t}, bsp := BspClaim)
    case Wait => if s.done >= s.need then s.(bsp := Idle) else s
  }

  function StepAp(s: State, i: nat): State
    requires i < |s.aps|
  {
    var a := s.aps[i];
    match a.pc
    case Spin => if s.epoch != a.seen then s.(aps := s.aps[i := a.(pc := Load)]) else s
    case Load => s.(aps := s.aps[i := Ap(Claim, s.epoch)])
    case Claim => s.(nextTile := s.nextTile + 1, aps := s.aps[i := a.(pc := Check(s.nextTile))])
    case Check(t) => s.(aps := s.aps[i := a.(pc := if t < s.bands then Composing(t) else Post)])
    case Composing(t) => s.(composed := s.composed + multiset{t}, aps := s.aps[i := a.(pc := Claim)])
    case Post => s.(done := s.done + 1, aps := s.aps[i := a.(pc := Spin)])
  }

  function Next(s: State, step: Step): State {
    match step
    case Begin(n) => if s.bsp.Idle? then s.(bands := n, composed := multiset{}, bsp := SetTile) else s
    case BspStep => StepBsp(s)
    case ApStep(i) => if i < |s.aps| then StepAp(s, i) else s
  }

  function Run(s: State, steps: seq<Step>): State {
    if steps == [] then s else Next(Run(s, steps[..|steps| - 1]), steps[|steps| - 1])
  }

  // ---------------------------------------------------------------- sums over the processors

  function Sum(aps: seq<Ap>, w: Ap -> nat): nat {
    if aps == [] then 0 else Sum(aps[..|aps| - 1], w) + w(aps[|aps| - 1])
  }

  lemma {:induction false} SumUpdate(aps: seq<Ap>, i: nat, a: Ap, w: Ap -> nat)
    requires i < |aps|
    ensures Sum(aps[i := a], w) + w(aps[i]) == Sum(aps, w) + w(a)
  {
    var n := |aps| - 1;
    if i < n {
      SumUpdate(aps[..n], i, a, w);
      assert aps[i := a][..n] == aps[..n][i := a];
    } else {
      assert aps[i := a][..n] == aps[..n];
    }
  }

  lemma {:induction false} SumBound(aps: seq<Ap>, w: Ap -> nat)
    requires forall a :: w(a) <= 1
    ensures Sum(aps, w) <= |aps|
    ensures Sum(aps, w) == |aps| ==> forall i :: 0 <= i < |aps| ==> w(aps[i]) == 1
  {
    if aps != [] {
      SumBound(aps[..|aps| - 1], w);
    }
  }

  lemma {:induction false} SumZero(aps: seq<Ap>, w: Ap -> nat)
    requires forall i :: 0 <= i < |aps| ==> w(aps[i]) == 0
    ensures Sum(aps, w) == 0
  {
    if aps != [] {
      SumZero(aps[..|aps| - 1], w);
    }
  }

  // ---------------------------------------------------------------- the invariant

  /** Posted for this epoch: back in the spin loop having seen it. */
  function Posted(epoch: nat): Ap -> nat {
    (a: Ap) => if a.pc.Spin? && a.seen == epoch then 1 else 0
  }

  /** Processor `k` has tile `t` in its hands; the boot processor is number `|s.aps|`. */
  predicate Has(s: State, k: nat, t: nat) {
    if k < |s.aps| then s.aps[k].pc == Check(t) || s.aps[k].pc == Composing(t)
    else k == |s.aps| && (s.bsp == BspCheck(t) || s.bsp == BspComposing(t))
  }

  ghost predicate Held(s: State, t: nat) {
    exists k: nat :: Has(s, k, t)
  }

  /** The boot processor is outside a round or still preparing one. */
  predicate Quiet(s: State) {
    s.bsp.Idle? || s.bsp.SetTile? || s.bsp.SetDone? || s.bsp.Publish?
  }

  predicate Rewriting(s: State) {
    s.bsp.SetTile? || s.bsp.SetDone? || s.bsp.Publish?
  }

  /** Every application processor is parked and has seen the current epoch. */
  ghost predicate Quiescent(s: State) {
    forall i :: 0 <= i < |s.aps| ==> s.aps[i] == Ap(Spin, s.epoch)
  }

  /** A processor during a round: not yet awake, working on this epoch, or posted for it. */
  predicate InRound(a: Ap, epoch: nat) {
    || ((a.pc.Spin? || a.pc.Load?) && a.seen < WORD && (a.seen + 1) % WORD == epoch)
    || (!a.pc.Load? && a.seen == epoch)
  }

  /** Every tile handed out is in exactly one pair of hands until it has been composed exactly once. */
  ghost predicate Tickets(s: State) {
    && (forall k: nat, t: nat :: Has(s, k, t) ==> t < s.nextTile)
    && (forall k: nat, l: nat, t: nat :: Has(s, k, t) && Has(s, l, t) ==> k == l)
    && (forall t: nat :: s.composed[t] == if t < s.bands && t < s.nextTile && !Held(s, t) then 1 else 0)
  }

  /** Only tiles that exist are composed. */
  ghost predicate TilesExist(s: State) {
    && (forall i :: 0 <= i < |s.aps| && s.aps[i].pc.Composing? ==> s.aps[i].pc.t < s.bands)
    && (s.bsp.BspComposing? ==> s.bsp.t < s.bands)
  }

  ghost predicate Inv(s: State) {
    && s.need >= |s.aps| && s.epoch < WORD
    && (Quiet(s) ==> Quiescent(s))
    && (Rewriting(s) ==> s.composed == multiset{})
    && (s.bsp.SetDone? || s.bsp.Publish? ==> s.nextTile == 1)
    && (s.bsp.Publish? ==> s.done == 0)
    && (!Quiet(s) ==>
          && (forall i :: 0 <= i < |s.aps| ==> InRound(s.aps[i], s.epoch))
          && s.done == Sum(s.aps, Posted(s.epoch))
          && s.nextTile >= 1
          && Tickets(s) && TilesExist(s)
          && (s.bsp.Wait? ==> s.nextTile > s.bands))
  }

  lemma QuietStep(s: State)
    requires Inv(s) && Quiet(s)
    ensures Inv(StepBsp(s))
  {
    if s.bsp.Publish? {
      var n := StepBsp(s);
      SumZero(n.aps, Posted(n.epoch));
      assert Has(n, |n.aps|, 0);
    }
  }

  /** Processor `k`, holding nothing, takes the next tile. */
  lemma ClaimKeepsTickets(s: State, n: State, k: nat)
    requires Tickets(s) && forall t: nat :: !Has(s, k, t)
    requires n.nextTile == s.nextTile + 1 && n.bands == s.bands && n.composed == s.composed
    requires forall l: nat, t: nat :: Has(n, l, t) <==> if l == k then t == s.nextTile else Has(s, l, t)
    ensures Tickets(n)
  {
    forall t: nat ensures n.composed[t] == if t < n.bands && t < n.nextTile && !Held(n, t) then 1 else 0 {
      if t == s.nextTile {
        assert Has(n, k, t);
      } else {
        SameHolders(s, n, t);
      }
    }
  }

  lemma SameHolders(s: State, n: State, t: nat)
    requires forall l: nat :: Has(n, l, t) <==> Has(s, l, t)
    ensures Held(n, t) <==> Held(s, t)
  {
    if Held(s, t) {
      var k: nat :| Has(s, k, t);
      assert Has(n, k, t);
    }
  }

  /** Processor `k` lets go of tile `t0`: because it composed it, or because there is no such band. */
  lemma ReleaseKeepsTickets(s: State, n: State, k: nat, t0: nat)
    requires Tickets(s) && Has(s, k, t0)
    requires n.nextTile == s.nextTile && n.bands == s.bands
    requires n.composed == if t0 < s.bands then s.composed + multiset{t0} else s.composed
    requires forall l: nat, t: nat :: Has(n, l, t) <==> l != k && Has(s, l, t)
    ensures Tickets(n)
  {
    assert Held(s, t0) && !Held(n, t0);
    forall t: nat ensures n.composed[t] == if t < n.bands && t < n.nextTile && !Held(n, t) then 1 else 0 {
      if t != t0 {
        assert !Has(s, k, t);
        SameHolders(s, n, t);
      }
    }
  }

  lemma KeepKeepsTickets(s: State, n: State)
    requires Tickets(s) && n.nextTile == s.nextTile && n.bands == s.bands && n.composed == s.composed
    requires forall l: nat, t: nat :: Has(n, l, t) <==> Has(s, l, t)
    ensures Tickets(n)
  {
    forall t: nat ensures Held(n, t) <==> Held(s, t) {
      SameHolders(s, n, t);
    }
  }

  lemma BspTickets(s: State)
    requires Inv(s) && !Quiet(s)
    ensures Tickets(StepBsp(s))
  {
    var n, k := StepBsp(s), |s.aps|;
    match s.bsp
    case BspClaim => ClaimKeepsTickets(s, n, k);
    case BspCheck(t) =>
      if t < s.bands {
        KeepKeepsTickets(s, n);
      } else {
        ReleaseKeepsTickets(s, n, k, t);
      }
    case BspComposing(t) => ReleaseKeepsTickets(s, n, k, t);
    case Wait => KeepKeepsTickets(s, n);
  }

  lemma BspStepKeepsInv(s: State)
    requires Inv(s)
    ensures Inv(StepBsp(s))
  {
    if Quiet(s) {
      QuietStep(s);
    } else {
      BspTickets(s);
      if s.bsp.BspCheck? {
        assert Has(s, |s.aps|, s.bsp.t);
      }
      if s.bsp.Wait? && s.done >= s.need {
        ReturnMeansDone(s);
      }
    }
  }

  /** The boot processor leaves the wait loop only when every band has been composed exactly once,
      every other processor has posted exactly once, and all are parked on the current epoch. */
  lemma ReturnMeansDone(s: State)
    requires Inv(s) && s.bsp.Wait? && s.done >= s.need
    ensures Quiescent(s) && s.done == |s.aps|
    ensures forall t: nat :: s.composed[t] == if t < s.bands then 1 else 0
  {
    SumBound(s.aps, Posted(s.epoch));
    forall i | 0 <= i < |s.aps| ensures s.aps[i] == Ap(Spin, s.epoch) {
      assert Posted(s.epoch)(s.aps[i]) == 1;
    }
    forall t: nat ensures !Held(s, t) {
    }
  }

  lemma ApTickets(s: State, i: nat)
    requires Inv(s) && !Quiet(s) && i < |s.aps|
    ensures Tickets(StepAp(s, i))
  {
    var n := StepAp(s, i);
    match s.aps[i].pc
    case Claim => ClaimKeepsTickets(s, n, i);
    case Check(t) =>
      if t < s.bands {
        KeepKeepsTickets(s, n);
      } else {
        ReleaseKeepsTickets(s, n, i, t);
      }
    case Composing(t) => ReleaseKeepsTickets(s, n, i, t);
    case _ => KeepKeepsTickets(s, n);
  }

  lemma ApDone(s: State, i: nat)
    requires i < |s.aps| && InRound(s.aps[i], s.epoch) && s.epoch < WORD && s.done == Sum(s.aps, Posted(s.epoch))
    ensures var n := StepAp(s, i);
            && n.done == Sum(n.aps, Posted(n.epoch)) && |n.aps| == |s.aps| && InRound(n.aps[i], n.epoch)
            && forall k :: 0 <= k < |s.aps| && k != i ==> n.aps[k] == s.aps[k]
  {
    var n := StepAp(s, i);
    assert s.aps[i := s.aps[i]] == s.aps;
    SumUpdate(s.aps, i, n.aps[i], Posted(s.epoch));
  }

  lemma ApTilesExist(s: State, i: nat)
    requires i < |s.aps| && TilesExist(s)
    ensures TilesExist(StepAp(s, i))
  {
  }

  lemma ApKeepsRest(s: State, i: nat)
    requires i < |s.aps|
    ensures var n := StepAp(s, i);
            && n.need == s.need && n.epoch == s.epoch && n.bands == s.bands && n.bsp == s.bsp && n.nextTile >= s.nextTile
            && (s.aps[i] == Ap(Spin, s.epoch) ==> n == s)
  {
  }

  lemma ApStepKeepsInv(s: State, i: nat)
    requires Inv(s) && i < |s.aps|
    ensures Inv(StepAp(s, i))
  {
    ApKeepsRest(s, i);
    if !Quiet(s) {
      ApTickets(s, i);
      ApDone(s, i);
      ApTilesExist(s, i);
    }
    hide StepAp;
    hide Tickets;
    hide TilesExist;
    hide InRound;
    hide Sum;
  }

  lemma StepKeepsInv(s: State, step: Step)
    requires Inv(s)
    ensures Inv(Next(s, step))
  {
    match step
    case Begin(n) =>
    case BspStep => BspStepKeepsInv(s);
    case ApStep(i) => if i < |s.aps| { ApStepKeepsInv(s, i); }
  }

  // ---------------------------------------------------------------- every interleaving

  /** A quiescent start: all workers parked, and the boot processor waits for all there are. */
  ghost predicate Start(s: State) {
    s.bsp.Idle? && s.epoch < WORD && Quiescent(s) && |s.aps| <= s.need
  }

  /** No band has been composed twice, no processor is past its spin loop while the context is being
      rewritten, and if the boot processor may return, the frame is complete and the system quiescent. */
  ghost predicate Safe(r: State) {
    && (!r.bsp.Idle? ==> forall t: nat :: r.composed[t] <= 1)
    && (Rewriting(r) ==> forall i :: 0 <= i < |r.aps| ==> r.aps[i].pc.Spin?)
    && (r.bsp.Wait? && r.done >= r.need ==>
          && Quiescent(r) && r.done == |r.aps|
          && forall t: nat :: r.composed[t] == if t < r.bands then 1 else 0)
  }

  lemma {:induction false} RunKeepsInv(s: State, steps: seq<Step>)
    requires Start(s)
    ensures Inv(Run(s, steps))
  {
    if steps != [] {
      RunKeepsInv(s, steps[..|steps| - 1]);
      StepKeepsInv(Run(s, steps[..|steps| - 1]), steps[|steps| - 1]);
    }
  }

  /** Safety of the barrier over every interleaving of every number of frames. */
  lemma EveryInterleavingIsSafe(s: State, steps: seq<Step>)
    requires Start(s)
    ensures Safe(Run(s, steps))
  {
    RunKeepsInv(s, steps);
    var r := Run(s, steps);
    hide Run;
    if r.bsp.Wait? && r.done >= r.need {
      ReturnMeansDone(r);
    }
  }

  // ---------------------------------------------------------------- progress

  /** Steps a processor still owes the round. */
  function Owed(epoch: nat, bands: nat): Ap -> nat {
    (a: Ap) =>
      match a.pc
      case Spin => if a.seen == epoch then 0 else 5
      case Load => 4
      case Claim => 3
      case Check(t) => if t < bands then 5 else 2
      case Composing(t) => 4
      case Post => 1
  }

  function Unclaimed(s: State): nat {
    if s.nextTile < s.bands then s.bands - s.nextTile else 0
  }

  function Rank(s: State): nat {
    3 * Unclaimed(s) + Sum(s.aps, Owed(s.epoch, s.bands))
  }

  /** While a worker is missing, some worker can move. */
  lemma WaitMakesProgress(s: State)
    requires Inv(s) && s.bsp.Wait? && s.done < s.need == |s.aps|
    ensures exists i :: 0 <= i < |s.aps| && StepAp(s, i) != s
  {
    if forall i :: 0 <= i < |s.aps| ==> Posted(s.epoch)(s.aps[i]) == 1 {
      AllPosted(s.aps, s.epoch);
    }
    var i :| 0 <= i < |s.aps| && Posted(s.epoch)(s.aps[i]) != 1;
    assert InRound(s.aps[i], s.epoch);
    assert StepAp(s, i).aps[i] != s.aps[i];
  }

  lemma {:induction false} AllPosted(aps: seq<Ap>, epoch: nat)
    requires forall i :: 0 <= i < |aps| ==> Posted(epoch)(aps[i]) == 1
    ensures Sum(aps, Posted(epoch)) == |aps|
  {
    if aps != [] {
      AllPosted(aps[..|aps| - 1], epoch);
    }
  }

  lemma ApMoveLowersRank(s: State, i: nat)
    requires Inv(s) && !Quiet(s) && i < |s.aps| && StepAp(s, i) != s
    ensures Rank(StepAp(s, i)) < Rank(s)
  {
    var n := StepAp(s, i);
    assert InRound(s.aps[i], s.epoch);
    SumUpdate(s.aps, i, n.aps[i], Owed(s.epoch, s.bands));
  }

  /** Steps of workers, each of which changes the state. */
  ghost predicate Busy(s: State, steps: seq<Step>) {
    forall k :: 0 <= k < |steps| ==>
      steps[k].ApStep? && Next(Run(s, steps[..k]), steps[k]) != Run(s, steps[..k])
  }

  lemma BusyInit(s: State, steps: seq<Step>)
    requires Busy(s, steps) && steps != []
    ensures Busy(s, steps[..|steps| - 1])
  {
    hide Run, Next;
    var init := steps[..|steps| - 1];
    forall k | 0 <= k < |init|
      ensures init[k].ApStep? && Next(Run(s, init[..k]), init[k]) != Run(s, init[..k])
    {
      assert init[..k] == steps[..k] && init[k] == steps[k];
    }
  }

  /** The boot processor waits for the workers there are. */
  ghost predicate Waiting(s: State) {
    Inv(s) && s.bsp.Wait? && s.need == |s.aps|
  }

  lemma BusyStep(s: State, step: Step)
    requires Waiting(s) && step.ApStep? && Next(s, step) != s
    ensures Waiting(Next(s, step)) && Rank(Next(s, step)) < Rank(s)
  {
    ApStepKeepsInv(s, step.i);
    ApKeepsRest(s, step.i);
    ApMoveLowersRank(s, step.i);
    hide Inv, Rank;
  }

  lemma {:induction false} BusyRunSpendsRank(s: State, steps: seq<Step>)
    requires Waiting(s) && Busy(s, steps)
    ensures Waiting(Run(s, steps)) && |steps| + Rank(Run(s, steps)) <= Rank(s)
  {
    hide Waiting, Next, Rank;
    if steps != [] {
      var n := |steps| - 1;
      BusyInit(s, steps);
      BusyRunSpendsRank(s, steps[..n]);
      BusyStep(Run(s, steps[..n]), steps[n]);
    }
  }

  /** No worker can change the state any more. */
  ghost predicate Settled(s: State) {
    forall i: nat :: Next(s, ApStep(i)) == s
  }

  /** The workers have settled exactly when the boot processor may return. */
  lemma SettledIff(s: State)
    requires Waiting(s)
    ensures s.done <= s.need
    ensures Settled(s) <==> s.done == s.need
  {
    SumBound(s.aps, Posted(s.epoch));
    if s.done == s.need {
      ReturnMeansDone(s);
      forall i: nat ensures Next(s, ApStep(i)) == s {
        if i < |s.aps| {
          ApKeepsRest(s, i);
        }
      }
    } else {
      WaitMakesProgress(s);
      var i: nat :| i < |s.aps| && StepAp(s, i) != s;
      assert Next(s, ApStep(i)) != s;
    }
  }

  /**
   * However the workers are scheduled, they make at most `Rank(s)` moves while the boot processor waits; a
   * run of that many moves, and every run that cannot be continued, ends with the last post.
   */
  lemma EveryBusyRunEnds(s: State, steps: seq<Step>)
    requires Waiting(s) && Busy(s, steps)
    ensures |steps| <= Rank(s)
    ensures Run(s, steps).done == s.need <==> Settled(Run(s, steps))
    ensures |steps| == Rank(s) ==> Run(s, steps).done == s.need
  {
    hide Run, Next, Rank, Waiting;
    BusyRunSpendsRank(s, steps);
    BusyRunKeepsNeed(s, steps);
    var r := Run(s, steps);
    SettledIff(r);
    if !Settled(r) {
      var i: nat :| Next(r, ApStep(i)) != r;
      BusyStep(r, ApStep(i));
    }
  }

  lemma {:induction false} BusyRunKeepsNeed(s: State, steps: seq<Step>)
    requires Busy(s, steps)
    ensures Run(s, steps).need == s.need
  {
    if steps != [] {
      BusyInit(s, steps);
      BusyRunKeepsNeed(s, steps[..|steps| - 1]);
    }
  }

  lemma BusySnoc(s: State, steps: seq<Step>, step: Step)
    requires Busy(s, steps) && step.ApStep? && Next(Run(s, steps), step) != Run(s, steps)
    ensures Busy(s, steps + [step]) && Run(s, steps + [step]) == Next(Run(s, steps), step)
  {
    hide Next;
    var more := steps + [step];
    assert more[..|steps|] == steps;
    forall k | 0 <= k < |more|
      ensures more[k].ApStep? && Next(Run(s, more[..k]), more[k]) != Run(s, more[..k])
    {
      if k < |steps| {
        assert more[..k] == steps[..k] && more[k] == steps[k];
      }
    }
  }

  /** Every busy run can be continued to the last post, after which the boot processor returns. */
  lemma {:induction false} WaitEnds(s: State, steps: seq<Step>) returns (more: seq<Step>)
    requires Waiting(s) && Busy(s, steps)
    ensures Busy(s, more) && steps <= more
    ensures Run(s, more).done == s.need && Next(Run(s, more), BspStep).bsp.Idle?
    decreases Rank(s) - |steps|
  {
    EveryBusyRunEnds(s, steps);
    BusyRunKeepsNeed(s, steps);
    BusyRunSpendsRank(s, steps);
    if Settled(Run(s, steps)) {
      more := steps;
    } else {
      hide Run, Next, Rank, Waiting;
      var i: nat :| Next(Run(s, steps), ApStep(i)) != Run(s, steps);
      BusySnoc(s, steps, ApStep(i));
      EveryBusyRunEnds(s, steps + [ApStep(i)]);
      more := WaitEnds(s, steps + [ApStep(i)]);
    }
  }

  // ---------------------------------------------------------------- claims

  /** The processor has claimed a tile that does not exist: it is done claiming. */
  function Refused(epoch: nat, bands: nat): Ap -> nat {
    (a: Ap) =>
      match a.pc
      case Check(t) => if t < bands then 0 else 1
      case Post => 1
      case Spin => if a.seen == epoch then 1 else 0
      case _ => 0
  }

  function BspRefused(s: State): nat {
    match s.bsp
    case BspCheck(t) => if t == 0 || t < s.bands then 0 else 1
    case Wait => 1
    case _ => 0
  }

  /** Claims beyond the last band; the boot processor's first tile is not claimed. */
  function Excess(s: State): nat {
    var m := if s.bands == 0 then 1 else s.bands;
    if s.nextTile > m then s.nextTile - m else 0
  }

  /** Every processor goes on claiming until it is refused, and then stops. */
  ghost predicate Counted(s: State) {
    Sum(s.aps, Refused(s.epoch, s.bands)) + BspRefused(s) == Excess(s)
  }

  lemma ApCounts(s: State, i: nat)
    requires i < |s.aps| && InRound(s.aps[i], s.epoch) && s.epoch < WORD && s.nextTile >= 1 && Counted(s)
    ensures Counted(StepAp(s, i))
  {
    hide StepAp, Sum, Refused, Excess, InRound;
    ApKeepsRest(s, i);
    ApRefusal(s, i);
    ApAlone(s, i);
    SumUpdate(s.aps, i, StepAp(s, i).aps[i], Refused(s.epoch, s.bands));
  }

  /** A step of a worker changes its own place only. */
  lemma ApAlone(s: State, i: nat)
    requires i < |s.aps|
    ensures |StepAp(s, i).aps| == |s.aps| && StepAp(s, i).aps == s.aps[i := StepAp(s, i).aps[i]]
  {
    assert s.aps[i := s.aps[i]] == s.aps;
  }

  /** A worker is refused exactly when its claim passes the bands. */
  lemma ApRefusal(s: State, i: nat)
    requires i < |s.aps| && InRound(s.aps[i], s.epoch) && s.epoch < WORD && s.nextTile >= 1
    ensures var n, w := StepAp(s, i), Refused(s.epoch, s.bands);
            |n.aps| == |s.aps| && w(n.aps[i]) + Excess(s) == w(s.aps[i]) + Excess(n)
  {}

  lemma BspCounts(s: State)
    requires Inv(s) && (!Quiet(s) ==> Counted(s)) && !Quiet(StepBsp(s))
    ensures Counted(StepBsp(s))
  {
    var n := StepBsp(s);
    if s.bsp.Publish? {
      SumZero(n.aps, Refused(n.epoch, n.bands));
    }
  }

  lemma StepCounts(s: State, step: Step)
    requires Inv(s) && (!Quiet(s) ==> Counted(s)) && !Quiet(Next(s, step))
    ensures Counted(Next(s, step))
  {
    match step
    case Begin(n) =>
    case BspStep => BspCounts(s);
    case ApStep(i) =>
      if i < |s.aps| {
        ApKeepsRest(s, i);
        ApCounts(s, i);
      }
  }

  lemma {:induction false} RunCounts(s: State, steps: seq<Step>)
    requires Start(s)
    ensures !Quiet(Run(s, steps)) ==> Counted(Run(s, steps))
  {
    if steps != [] {
      var n := |steps| - 1;
      RunCounts(s, steps[..n]);
      RunKeepsInv(s, steps[..n]);
      hide Inv, Counted, Next;
      if !Quiet(Run(s, steps)) {
        StepCounts(Run(s, steps[..n]), steps[n]);
      }
    }
  }

  /**
   * Over every interleaving, every processor claims until it is refused: when the boot processor may return, the
   * tile counter has passed the bands by exactly one claim of each processor, and at no moment of a round by
   * more, so it cannot wrap.
   */
  lemma EveryProcessorClaims(s: State, steps: seq<Step>)
    requires Start(s)
    ensures var r := Run(s, steps);
            var m := if r.bands == 0 then 1 else r.bands;
            && (!Quiet(r) ==> r.nextTile <= m + |r.aps| + 1)
            && (r.bsp.Wait? && r.done >= r.need ==> r.nextTile == m + |r.aps| + 1)
  {
    RunCounts(s, steps);
    RunKeepsInv(s, steps);
    var r := Run(s, steps);
    hide Run;
    SumBound(r.aps, Refused(r.epoch, r.bands));
    if r.bsp.Wait? && r.done >= r.need {
      ReturnMeansDone(r);
      hide Inv;
      AllRefused(r.aps, r.epoch, r.bands);
    }
  }

  lemma {:induction false} AllRefused(aps: seq<Ap>, epoch: nat, bands: nat)
    requires forall i :: 0 <= i < |aps| ==> aps[i] == Ap(Spin, epoch)
    ensures Sum(aps, Refused(epoch, bands)) == |aps|
  {
    if aps != [] {
      AllRefused(aps[..|aps| - 1], epoch, bands);
    }
  }

  // ---------------------------------------------------------------- boot

  /** Two frames have run before the workers start, and a worker starts with `seen_epoch` zero. */
  function Boot(): State {
    State([Ap(Spin, 0)], 1, 2, 2, 0, 1, Idle, multiset{})
  }

  lemma {:induction false} RunSplit(s: State, a: seq<Step>, b: seq<Step>)
    ensures Run(s, a + b) == Run(Run(s, a), b)
  {
    hide Next;
    if b == [] {
      assert a + b == a;
    } else {
      RunSplit(s, a, b[..|b| - 1]);
      assert (a + b)[..|a + b| - 1] == a + b[..|b| - 1];
    }
  }

  lemma Run2(s: State, a: Step, b: Step)
    ensures Run(s, [a, b]) == Next(Next(s, a), b)
  {
    hide Next;
    assert [a, b][..1] == [a] && [a][..0] == [];
    assert Run(s, []) == s;
    assert Run(s, [a]) == Next(s, a);
  }

  lemma Run4(s: State, a: Step, b: Step, c: Step, d: Step)
    ensures Run(s, [a, b, c, d]) == Next(Next(Next(Next(s, a), b), c), d)
  {
    hide Next;
    assert [a, b, c, d] == [a, b] + [c, d];
    RunSplit(s, [a, b], [c, d]);
    Run2(s, a, b);
    Run2(Run(s, [a, b]), c, d);
  }

  const CATCH_UP: seq<Step> := [ApStep(0), ApStep(0), ApStep(0), ApStep(0)]
  const NEXT_FRAME: seq<Step> := [Begin(1), BspStep, BspStep, ApStep(0)]
  const OWN_TILE: seq<Step> := [BspStep, BspStep, BspStep, BspStep]

  lemma CatchUp()
    ensures Run(Boot(), CATCH_UP) == State([Ap(Post, 2)], 1, 2, 3, 0, 1, Idle, multiset{})
  {
    Run4(Boot(), ApStep(0), ApStep(0), ApStep(0), ApStep(0));
  }

  lemma LatePost()
    ensures Run(State([Ap(Post, 2)], 1, 2, 3, 0, 1, Idle, multiset{}), NEXT_FRAME) ==
            State([Ap(Spin, 2)], 1, 2, 1, 1, 1, Publish, multiset{})
  {
    Run4(State([Ap(Post, 2)], 1, 2, 3, 0, 1, Idle, multiset{}), Begin(1), BspStep, BspStep, ApStep(0));
  }

  lemma OwnTile()
    ensures Run(State([Ap(Spin, 2)], 1, 2, 1, 1, 1, Publish, multiset{}), OWN_TILE) ==
            State([Ap(Spin, 2)], 1, 3, 2, 1, 1, BspCheck(1), multiset{0})
  {
    var s := State([Ap(Spin, 2)], 1, 2, 1, 1, 1, Publish, multiset{});
    Run4(s, BspStep, BspStep, BspStep, BspStep);
    hide Run;
    var s1 := Next(s, BspStep);
    assert s1 == s.(epoch := 3, bsp := BspCheck(0));
    var s2 := Next(s1, BspStep);
    assert s2 == s1.(bsp := BspComposing(0));
    var s3 := Next(s2, BspStep);
    assert s3 == s1.(composed := multiset{0}, bsp := BspClaim);
  }

  const FIRST_FRAME: seq<Step> := CATCH_UP + NEXT_FRAME + OWN_TILE

  /** The state in which the boot processor is about to find no more tiles. */
  const LATE := State([Ap(Spin, 2)], 1, 3, 2, 1, 1, BspCheck(1), multiset{0})

  lemma FirstFrame()
    ensures Run(Boot(), FIRST_FRAME) == LATE
  {
    hide Run, Next;
    RunSplit(Boot(), CATCH_UP, NEXT_FRAME);
    RunSplit(Boot(), CATCH_UP + NEXT_FRAME, OWN_TILE);
    CatchUp();
    LatePost();
    OwnTile();
  }

  /** Straight from boot the barrier can fail: after a catch-up round whose late post is counted for the
      next frame, the boot processor may return while the worker has not even seen that frame. */
  lemma BootIsNotQuiescent()
    ensures var r := Next(Run(Boot(), FIRST_FRAME), BspStep);
            r.bsp.Wait? && r.done >= r.need && !Quiescent(r)
  {
    hide Run;
    FirstFrame();
    assert Next(LATE, BspStep).aps[0] == Ap(Spin, 2);
  }

  const RETURN_AND_WAKE: seq<Step> := [BspStep, BspStep, ApStep(0), ApStep(0)]
  const NEXT_CLAIM: seq<Step> := [ApStep(0), Begin(1)]

  lemma ReturnAndWake()
    ensures Run(LATE, RETURN_AND_WAKE) == State([Ap(Claim, 3)], 1, 3, 2, 1, 1, Idle, multiset{0})
  {
    Run4(LATE, BspStep, BspStep, ApStep(0), ApStep(0));
  }

  lemma NextClaim()
    ensures Run(State([Ap(Claim, 3)], 1, 3, 2, 1, 1, Idle, multiset{0}), NEXT_CLAIM)
         == State([Ap(Check(2), 3)], 1, 3, 3, 1, 1, SetTile, multiset{})
  {
    Run2(State([Ap(Claim, 3)], 1, 3, 2, 1, 1, Idle, multiset{0}), ApStep(0), Begin(1));
  }

  /** Continuing the same run from boot, the worker compares its tile with the band count while the boot
      processor is rewriting it for the next frame. */
  lemma BootRace()
    ensures var r := Run(Boot(), FIRST_FRAME + RETURN_AND_WAKE + NEXT_CLAIM);
            Rewriting(r) && r.aps == [Ap(Check(2), 3)] && !Safe(r)
  {
    hide Run, Next;
    RunSplit(Boot(), FIRST_FRAME, RETURN_AND_WAKE);
    RunSplit(Boot(), FIRST_FRAME + RETURN_AND_WAKE, NEXT_CLAIM);
    FirstFrame();
    ReturnAndWake();
    NextClaim();
    var r := Run(Boot(), FIRST_FRAME + RETURN_AND_WAKE + NEXT_CLAIM);
    assert r.aps[0].pc == Check(2);
  }

  // ---------------------------------------------------------------- exactly when it is safe

  /** A worker that is not parked on the current epoch can be caught outside its spin loop by the next
      frame. */
  lemma UnparkedIsUnsafe(s: State, i: nat) returns (steps: seq<Step>)
    requires s.bsp.Idle? && i < |s.aps| && s.aps[i] != Ap(Spin, s.epoch)
    ensures !Safe(Run(s, steps))
  {
    if s.aps[i].pc.Spin? {
      steps := [ApStep(i), Begin(1)];
      Run2(s, ApStep(i), Begin(1));
    } else {
      steps := [Begin(1)];
      assert steps[..0] == [];
      assert Run(s, []) == s;
    }
    var r := Run(s, steps);
    assert Rewriting(r) && i < |r.aps| && !r.aps[i].pc.Spin?;
  }

  /** The boot processor has published a frame with one band; `k` workers have posted, the others sleep. */
  function Partly(s: State, k: nat): State
    requires k <= |s.aps|
  {
    var e := (s.epoch + 1) % WORD;
    State(seq(|s.aps|, i requires 0 <= i < |s.aps| => if i < k then Ap(Spin, e) else s.aps[i]),
          s.need, e, 1 + k, k, 1, BspCheck(0), multiset{})
  }

  const START_FRAME: seq<Step> := [Begin(1), BspStep, BspStep, BspStep]

  lemma FrameStarts(s: State)
    requires s.bsp.Idle?
    ensures Run(s, START_FRAME) == Partly(s, 0)
  {
    Run4(s, Begin(1), BspStep, BspStep, BspStep);
    hide Run;
    var s1 := Next(s, Begin(1));
    assert s1 == s.(bands := 1, composed := multiset{}, bsp := SetTile);
    var s2 := Next(s1, BspStep);
    assert s2 == s1.(nextTile := 1, bsp := SetDone);
    var s3 := Next(s2, BspStep);
    assert s3 == s2.(done := 0, bsp := Publish);
    assert Partly(s, 0).aps == s.aps;
  }

  function RoundOf(i: nat): seq<Step> {
    [ApStep(i), ApStep(i), ApStep(i), ApStep(i)] + [ApStep(i)]
  }

  lemma Run1(s: State, a: Step)
    ensures Run(s, [a]) == Next(s, a)
  {
    assert [a][..0] == [];
    assert Run(s, []) == s;
  }

  /** Worker `k` wakes, claims a tile that does not exist, and posts. */
  lemma OneRound(s: State, k: nat)
    requires s.epoch < WORD && Quiescent(s) && k < |s.aps|
    ensures Run(Partly(s, k), RoundOf(k)) == Partly(s, k + 1)
  {
    var p, a := Partly(s, k), ApStep(k);
    var e := p.epoch;
    assert p.aps[k] == Ap(Spin, s.epoch) && s.epoch != e;
    RunSplit(p, [a, a, a, a], [a]);
    Run4(p, a, a, a, a);
    Run1(Run(p, [a, a, a, a]), a);
    assert Run(p, RoundOf(k)).aps == p.aps[k := Ap(Spin, e)] by {
      RoundMoves(p, k);
    }
    RoundMoves(p, k);
    assert p.aps[k := Ap(Spin, e)] == Partly(s, k + 1).aps;
  }

  lemma RoundMoves(p: State, k: nat)
    requires k < |p.aps| && p.aps[k].pc.Spin? && p.aps[k].seen != p.epoch && p.nextTile >= p.bands
    ensures Next(Next(Next(Next(Next(p, ApStep(k)), ApStep(k)), ApStep(k)), ApStep(k)), ApStep(k))
         == p.(nextTile := p.nextTile + 1, done := p.done + 1, aps := p.aps[k := Ap(Spin, p.epoch)])
  {
    var p1 := Next(p, ApStep(k));
    assert p1 == p.(aps := p.aps[k := Ap(Load, p.aps[k].seen)]);
    var p2 := Next(p1, ApStep(k));
    assert p2 == p.(aps := p.aps[k := Ap(Claim, p.epoch)]);
    var p3 := Next(p2, ApStep(k));
    assert p3 == p.(nextTile := p.nextTile + 1, aps := p.aps[k := Ap(Check(p.nextTile), p.epoch)]);
    var p4 := Next(p3, ApStep(k));
    assert p4 == p.(nextTile := p.nextTile + 1, aps := p.aps[k := Ap(Post, p.epoch)]);
  }

  lemma {:induction false} SomeRounds(s: State, k: nat) returns (steps: seq<Step>)
    requires s.bsp.Idle? && s.epoch < WORD && Quiescent(s) && k <= |s.aps|
    ensures Run(s, steps) == Partly(s, k)
    decreases k
  {
    hide Run, Partly, RoundOf, Next, Quiescent;
    if k == 0 {
      steps := START_FRAME;
      FrameStarts(s);
    } else {
      var before := SomeRounds(s, k - 1);
      steps := before + RoundOf(k - 1);
      RunSplit(s, before, RoundOf(k - 1));
      OneRound(s, k - 1);
    }
  }

  /** The boot processor composes its band, finds no other and waits. */
  lemma OwnTileThenWait(p: State)
    requires p.bsp == BspCheck(0) && p.bands == 1 && p.nextTile >= 1
    ensures var r := Run(p, OWN_TILE);
            r.aps == p.aps && r.epoch == p.epoch && r.bsp.Wait? && r.done == p.done && r.need == p.need
  {
    Run4(p, BspStep, BspStep, BspStep, BspStep);
    hide Run;
    var p1 := Next(p, BspStep);
    assert p1 == p.(bsp := BspComposing(0));
    var p2 := Next(p1, BspStep);
    assert p2 == p.(composed := p.composed + multiset{0}, bsp := BspClaim);
    var p3 := Next(p2, BspStep);
    assert p3.bsp == BspCheck(p.nextTile);
  }

  /** If the boot processor waits for fewer workers than there are, it can return while one still sleeps. */
  lemma TooFewAwaitedIsUnsafe(s: State) returns (steps: seq<Step>)
    requires s.bsp.Idle? && s.epoch < WORD && Quiescent(s) && s.need < |s.aps|
    ensures !Safe(Run(s, steps))
  {
    hide Run, Next;
    var before := SomeRounds(s, s.need);
    var p := Partly(s, s.need);
    steps := before + OWN_TILE;
    RunSplit(s, before, OWN_TILE);
    OwnTileThenWait(p);
    var r := Run(s, steps);
    assert r.aps[s.need] == Ap(Spin, s.epoch) && s.epoch != r.epoch;
  }

  /**
   * Between frames, the barrier is safe in every interleaving of the future exactly when all workers are
   * parked on the current epoch and the boot processor waits for at least as many as there are.
   */
  lemma SafeForeverIff(s: State)
    requires s.bsp.Idle? && s.epoch < WORD
    ensures (forall steps :: Safe(Run(s, steps))) <==> Quiescent(s) && |s.aps| <= s.need
  {
    hide Run, Safe;
    if Quiescent(s) && |s.aps| <= s.need {
      forall steps
        ensures Safe(Run(s, steps))
      {
        EveryInterleavingIsSafe(s, steps);
      }
    } else if !Quiescent(s) {
      var i :| 0 <= i < |s.aps| && s.aps[i] != Ap(Spin, s.epoch);
      var bad := UnparkedIsUnsafe(s, i);
    } else {
      var bad := TooFewAwaitedIsUnsafe(s);
    }
  }

  // ---------------------------------------------------------------- one processor composing

  /** Bands the boot processor has composed when it is done claiming. */
  function Own(bands: nat): multiset<nat> {
    if bands == 0 then multiset{} else multiset{0}
  }

  /** At most one band per frame: tile 0 is the boot processor's, and no worker ever gets a band. */
  ghost predicate Alone(s: State) {
    && s.bands <= 1 && s.nextTile >= 1
    && (forall i :: 0 <= i < |s.aps| ==> !s.aps[i].pc.Composing? && (s.aps[i].pc.Check? ==> s.aps[i].pc.t >= 1))
    && match s.bsp
       case Idle => true
       case SetTile => s.composed == multiset{}
       case SetDone => s.composed == multiset{}
       case Publish => s.composed == multiset{}
       case BspCheck(t) => s.composed == if t == 0 then multiset{} else Own(s.bands)
       case BspComposing(t) => t == 0 && s.bands == 1 && s.composed == multiset{}
       case BspClaim => s.composed == Own(s.bands)
       case Wait => s.composed == Own(s.bands)
  }

  lemma BspKeepsAlone(s: State)
    requires Alone(s)
    ensures Alone(StepBsp(s))
  {}

  lemma ApKeepsAlone(s: State, i: nat)
    requires Alone(s) && i < |s.aps|
    ensures Alone(StepAp(s, i))
  {
    var n := StepAp(s, i);
    assert forall k :: 0 <= k < |s.aps| && k != i ==> n.aps[k] == s.aps[k];
    assert n.bsp == s.bsp && n.bands == s.bands && n.composed == s.composed && n.nextTile >= s.nextTile;
  }

  lemma StepKeepsAlone(s: State, step: Step)
    requires Alone(s) && (step.Begin? ==> step.bands <= 1)
    ensures Alone(Next(s, step))
  {
    match step
    case Begin(n) =>
    case BspStep => BspKeepsAlone(s);
    case ApStep(i) => if i < |s.aps| { ApKeepsAlone(s, i); }
  }

  lemma {:induction false} RunKeepsAlone(s: State, steps: seq<Step>)
    requires Alone(s) && forall k :: 0 <= k < |steps| && steps[k].Begin? ==> steps[k].bands <= 1
    ensures Alone(Run(s, steps))
  {
    hide Alone, Next;
    if steps != [] {
      var n := |steps| - 1;
      RunKeepsAlone(s, steps[..n]);
      StepKeepsAlone(Run(s, steps[..n]), steps[n]);
    }
  }

  /** With at most one band per frame, as when one processor is asked to compose, every band is composed
      exactly once by the boot processor in every interleaving, however many workers it waits for and
      wherever they are. */
  lemma OneBandIsAlwaysComposedOnce(s: State, steps: seq<Step>)
    requires Alone(s) && forall k :: 0 <= k < |steps| && steps[k].Begin? ==> steps[k].bands <= 1
    ensures var r := Run(s, steps);
            && (forall i :: 0 <= i < |r.aps| ==> !r.aps[i].pc.Composing?)
            && (r.bsp.Wait? ==> forall t: nat :: r.composed[t] == if t < r.bands then 1 else 0)
  {
    hide Run;
    RunKeepsAlone(s, steps);
  }
}
