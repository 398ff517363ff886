/**
  The token bucket: one refilling goroutine and any number of waiters that
  share a counter through loads and compare-and-swaps, in any interleaving.
 */
module Throttle {

  type Id = nat

  /** Where the refiller is; `incr` tokens are computed but not yet in the bucket. */
  datatype Refiller =
    | Idle
    | Adding(incr: nat)
    | Swapping(incr: nat, seen: int)
    | Signaling

  /** Where a call of Wait for `n` tokens is. */
  datatype Waiter =
    | Trying(n: int)
    | Taking(n: int, seen: int)
    | Short(n: int)
    | Joined(n: int)
    | Retaking(n: int, seen: int)
    | Blocked(n: int)
    | Returned(granted: bool)

  /**
    `waiting` is the list of registered channels and `signaled` the channels
    that hold a signal. `spent` counts the tokens granted, `owed` the rates of
    all ticks so far and `lost` the tenths given up when the limit was lifted.
   */
  datatype State = State(
    rate: int, bucket: int, carry: int, refiller: Refiller,
    waiters: map<Id, Waiter>, waiting: set<Id>, signaled: set<Id>,
    spent: nat, owed: nat, lost: nat, ticks: nat)

  datatype Step =
    | Tick
    | RefillLoad
    | RefillSwap
    | RefillSignal
    | SetRate(r: int)
    | Call(id: Id, n: int)
    | Load(id: Id)
    | Swap(id: Id)
    | Join(id: Id)
    | Reload(id: Id)
    | Reswap(id: Id)
    | Wake(id: Id)
    | Cancel(id: Id)

  function Init(rate: int): State {
    State(rate, 0, 0, Idle, map[], {}, {}, 0, 0, 0, 0)
  }

  /** Each registered waiter gets its signal and leaves the list. */
  function SignalAll(s: State): State {
    s.(signaled := s.signaled + s.waiting, waiting := {})
  }

  function Leave(s: State, id: Id, w: Waiter): State {
    s.(waiters := s.waiters[id := w], waiting := s.waiting - {id})
  }

  /** At the tick the fraction carried over is added before dividing by the ten ticks of a second. */
  function DoTick(s: State): State {
    if s.rate <= 0 then s
    else
      var total := s.rate + s.carry;
      var incr := total / 10;
      s.(carry := total % 10, owed := s.owed + s.rate, ticks := s.ticks + 1,
         refiller := if incr <= 0 then Idle else Adding(incr))
  }

  function DoRefillSwap(s: State): State
    requires s.refiller.Swapping?
  {
    if s.bucket == s.refiller.seen then s.(bucket := s.refiller.seen + s.refiller.incr, refiller := Signaling)
    else s.(refiller := Adding(s.refiller.incr))
  }

  function DoSetRate(s: State, r: int): State {
    var t := s.(rate := r);
    if s.rate > 0 && r == 0 then SignalAll(t.(carry := 0, lost := s.lost + if s.carry > 0 then s.carry else 0)) else t
  }

  /** Without a limit, or for nothing, a call returns at once. */
  function DoCall(s: State, id: Id, n: int): State {
    s.(waiters := s.waiters[id := if s.rate <= 0 || n <= 0 then Returned(false) else Trying(n)])
  }

  function DoLoad(s: State, id: Id): State
    requires id in s.waiters && s.waiters[id].Trying?
  {
    var n := s.waiters[id].n;
    s.(waiters := s.waiters[id := if s.bucket >= n then Taking(n, s.bucket) else Short(n)])
  }

  /** With too few tokens the waiter registers a new channel and will look once more. */
  function DoJoin(s: State, id: Id): State
    requires id in s.waiters && s.waiters[id].Short?
  {
    s.(waiters := s.waiters[id := Joined(s.waiters[id].n)], waiting := s.waiting + {id}, signaled := s.signaled - {id})
  }

  function Grant(s: State, id: Id, n: nat): State {
    Leave(s.(bucket := s.bucket - n, spent := s.spent + n), id, Returned(true))
  }

  function DoSwap(s: State, id: Id): State
    requires id in s.waiters && s.waiters[id].Taking? && s.waiters[id].n > 0
  {
    var w := s.waiters[id];
    if s.bucket == w.seen then Grant(s, id, w.n) else s.(waiters := s.waiters[id := Trying(w.n)])
  }

  function DoReload(s: State, id: Id): State
    requires id in s.waiters && s.waiters[id].Joined?
  {
    var n := s.waiters[id].n;
    s.(waiters := s.waiters[id := if s.bucket >= n then Retaking(n, s.bucket) else Blocked(n)])
  }

  function DoReswap(s: State, id: Id): State
    requires id in s.waiters && s.waiters[id].Retaking? && s.waiters[id].n > 0
  {
    var w := s.waiters[id];
    if s.bucket == w.seen then Grant(s, id, w.n) else s.(waiters := s.waiters[id := Blocked(w.n)])
  }

  ghost predicate Enabled(s: State, step: Step) {
    match step
    case Tick => s.refiller.Idle?
    case RefillLoad => s.refiller.Adding?
    case RefillSwap => s.refiller.Swapping?
    case RefillSignal => s.refiller.Signaling?
    case SetRate(_) => true
    case Call(id, _) => id !in s.waiters
    case Load(id) => id in s.waiters && s.waiters[id].Trying?
    case Swap(id) => id in s.waiters && s.waiters[id].Taking?
    case Join(id) => id in s.waiters && s.waiters[id].Short?
    case Reload(id) => id in s.waiters && s.waiters[id].Joined?
    case Reswap(id) => id in s.waiters && s.waiters[id].Retaking?
    case Wake(id) => id in s.waiters && s.waiters[id].Blocked? && id in s.signaled
    case Cancel(id) => id in s.waiters && (s.waiters[id].Blocked? || s.waiters[id].Trying?)
  }

  ghost function Next(s: State, step: Step): State
    requires Inv(s) && Enabled(s, step)
  {
    match step
    case Tick => DoTick(s)
    case RefillLoad => s.(refiller := Swapping(s.refiller.incr, s.bucket))
    case RefillSwap => DoRefillSwap(s)
    case RefillSignal => SignalAll(s).(refiller := Idle)
    case SetRate(r) => DoSetRate(s, r)
    case Call(id, n) => DoCall(s, id, n)
    case Load(id) => DoLoad(s, id)
    case Swap(id) => DoSwap(s, id)
    case Join(id) => DoJoin(s, id)
    case Reload(id) => DoReload(s, id)
    case Reswap(id) => DoReswap(s, id)
    case Wake(id) => s.(waiters := s.waiters[id := Trying(s.waiters[id].n)], signaled := s.signaled - {id})
    case Cancel(id) => Leave(s, id, Returned(false))
  }

  // ----- What every interleaving keeps -----

  /** Tokens computed by the refiller and not yet in the bucket. */
  function Pending(s: State): nat {
    if s.refiller.Adding? || s.refiller.Swapping? then s.refiller.incr else 0
  }

  ghost predicate Balanced(s: State) {
    10 * (s.bucket + s.spent + Pending(s)) + s.carry + s.lost == s.owed
  }

  /** A compare-and-swap only succeeds on the value it has checked, and nobody sleeps without being registered. */
  ghost predicate WaiterInv(s: State, id: Id)
    requires id in s.waiters
  {
    match s.waiters[id]
    case Trying(n) => n > 0
    case Taking(n, seen) => 0 < n <= seen
    case Short(n) => n > 0
    case Joined(n) => n > 0 && (id in s.waiting || id in s.signaled)
    case Retaking(n, seen) => 0 < n <= seen && (id in s.waiting || id in s.signaled)
    case Blocked(n) => n > 0 && (id in s.waiting || id in s.signaled)
    case Returned(_) => true
  }

  ghost predicate Inv(s: State) {
    && Balanced(s)
    && s.bucket >= 0 && 0 <= s.carry < 10
    && (forall id :: id in s.waiters ==> WaiterInv(s, id))
  }

  lemma TickKeeps(s: State)
    requires Inv(s) && s.refiller.Idle?
    ensures Inv(DoTick(s))
  {
    if s.rate > 0 {
      var total := s.rate + s.carry;
      assert total == 10 * (total / 10) + total % 10;
      var t := DoTick(s);
      assert forall id :: id in s.waiters ==> WaiterInv(t, id) == WaiterInv(s, id);
    }
  }

  lemma StepKeeps(s: State, step: Step)
    requires Inv(s) && Enabled(s, step)
    ensures Inv(Next(s, step))
  {
    if step.Tick? {
      TickKeeps(s);
    } else {
      hide Balanced;
      BalanceKeeps(s, step);
      WaitersKeep(s, step);
    }
  }

  lemma BalanceKeeps(s: State, step: Step)
    requires Inv(s) && Enabled(s, step) && !step.Tick?
    ensures var t := Next(s, step); Balanced(t) && t.bucket >= 0 && 0 <= t.carry < 10
  {
    match step {
      case Swap(id) => assert WaiterInv(s, id);
      case Reswap(id) => assert WaiterInv(s, id);
      case _ =>
    }
  }

  lemma WaitersKeep(s: State, step: Step)
    requires Inv(s) && Enabled(s, step) && !step.Tick?
    ensures forall x :: x in Next(s, step).waiters ==> WaiterInv(Next(s, step), x)
  {
    var t := Next(s, step);
    forall x | x in t.waiters
      ensures WaiterInv(t, x)
    {
      if x in s.waiters {
        assert WaiterInv(s, x);
      }
    }
  }

  ghost predicate Run(s: State, steps: seq<Step>)
    requires Inv(s)
    decreases |steps|
  {
    steps == [] || (Enabled(s, steps[0]) && (StepKeeps(s, steps[0]); Run(Next(s, steps[0]), steps[1..])))
  }

  ghost function After(s: State, steps: seq<Step>): State
    requires Inv(s) && Run(s, steps)
    decreases |steps|
  {
    if steps == [] then s else StepKeeps(s, steps[0]); After(Next(s, steps[0]), steps[1..])
  }

  lemma {:induction false} RunKeeps(s: State, steps: seq<Step>)
    requires Inv(s) && Run(s, steps)
    ensures Inv(After(s, steps))
    decreases |steps|
  {
    hide Inv, Next, Enabled;
    if steps != [] {
      StepKeeps(s, steps[0]);
      RunKeeps(Next(s, steps[0]), steps[1..]);
    }
  }

  // ----- Tokens over whole runs -----

  ghost predicate KeepsRate(steps: seq<Step>) {
    forall i :: 0 <= i < |steps| ==> !steps[i].SetRate?
  }

  lemma StepRate(s: State, step: Step)
    requires Inv(s) && Enabled(s, step) && !step.SetRate? && s.rate > 0
    ensures var t := Next(s, step);
            && t.rate == s.rate && t.lost == s.lost && t.ticks >= s.ticks
            && t.owed - s.owed == s.rate * (t.ticks - s.ticks)
  {
  }

  lemma {:induction false} RunRate(s: State, steps: seq<Step>)
    requires Inv(s) && Run(s, steps) && KeepsRate(steps) && s.rate > 0
    ensures var t := After(s, steps);
            && t.rate == s.rate && t.lost == s.lost && t.ticks >= s.ticks
            && t.owed - s.owed == s.rate * (t.ticks - s.ticks)
    decreases |steps|
  {
    hide Inv, Next, Enabled;
    if steps != [] {
      StepKeeps(s, steps[0]);
      StepRate(s, steps[0]);
      var m := Next(s, steps[0]);
      RunRate(m, steps[1..]);
      var t := After(m, steps[1..]);
      Distributes(s.rate, t.ticks - m.ticks, m.ticks - s.ticks);
    }
  }

  lemma Distributes(r: int, a: int, b: int)
    ensures r * (a + b) == r * a + r * b
  {
  }

  /**
    From the start and at any rates: ten times the tokens granted, in the
    bucket or on their way, plus the tenths carried or given up, is the sum of
    the rates over all ticks. So no more is ever granted than the rates allow.
   */
  lemma Conservation(rate: int, steps: seq<Step>)
    requires Run(Init(rate), steps)
    ensures var t := After(Init(rate), steps);
            && 10 * (t.bucket + t.spent + Pending(t)) + t.carry + t.lost == t.owed
            && t.bucket >= 0 && 10 * t.spent <= t.owed
  {
    RunKeeps(Init(rate), steps);
  }

  /** At one positive rate nothing is given up and ten times the tokens granted never exceed rate times ticks. */
  lemma GrantedBound(rate: int, steps: seq<Step>)
    requires rate > 0 && Run(Init(rate), steps) && KeepsRate(steps)
    ensures var t := After(Init(rate), steps);
            && 10 * (t.bucket + t.spent + Pending(t)) + t.carry == rate * t.ticks
            && 10 * t.spent <= rate * t.ticks
  {
    Conservation(rate, steps);
    RunRate(Init(rate), steps);
  }

  /** Between two moments at which the refiller is idle, ten ticks at one rate add exactly that rate. */
  lemma TenTicksAddRate(s: State, steps: seq<Step>)
    requires Inv(s) && Run(s, steps) && KeepsRate(steps) && s.rate > 0
    requires Pending(s) == 0 && Pending(After(s, steps)) == 0
    requires After(s, steps).ticks == s.ticks + 10
    ensures var t := After(s, steps);
            t.bucket + t.spent == s.bucket + s.spent + s.rate && t.carry == s.carry
  {
    RunKeeps(s, steps);
    RunRate(s, steps);
  }

  // ----- Signals -----

  /** Every waiter that sleeps when the refiller signals can run again. */
  lemma SignalWakes(s: State, id: Id)
    requires Inv(s) && s.refiller.Signaling? && id in s.waiters && s.waiters[id].Blocked?
    ensures var t := Next(s, RefillSignal); Inv(t) && Enabled(t, Wake(id))
  {
    StepKeeps(s, RefillSignal);
    assert WaiterInv(s, id);
  }

  /** Lifting the limit lets every sleeper look again; whether it then gets its tokens is another matter. */
  lemma LiftingWakes(s: State, id: Id)
    requires Inv(s) && s.rate > 0 && id in s.waiters && s.waiters[id].Blocked?
    ensures var t := Next(s, SetRate(0)); Inv(t) && Enabled(t, Wake(id))
  {
    StepKeeps(s, SetRate(0));
    assert WaiterInv(s, id);
  }
}
