/** Who is let through and who keeps waiting: lifting the limit, and races for tokens. */
module ThrottleWaiting {
  import opened Throttle

  ghost predicate Live(s: State, id: Id) {
    id in s.waiters && !s.waiters[id].Returned?
  }

  // ----- Composing runs -----

  lemma RunCons(s: State, step: Step, steps: seq<Step>)
    requires Inv(s) && Enabled(s, step) && Inv(Next(s, step)) && Run(Next(s, step), steps)
    ensures Run(s, [step] + steps) && After(s, [step] + steps) == After(Next(s, step), steps)
  {
    assert ([step] + steps)[1..] == steps;
  }

  lemma {:induction false} RunConcat(s: State, a: seq<Step>, b: seq<Step>)
    requires Inv(s) && Run(s, a) && Inv(After(s, a)) && Run(After(s, a), b)
    ensures Run(s, a + b) && After(s, a + b) == After(After(s, a), b)
    decreases |a|
  {
    hide Inv, Next, Enabled;
    if a == [] {
      assert a + b == b;
    } else {
      StepKeeps(s, a[0]);
      RunConcat(Next(s, a[0]), a[1..], b);
      assert a + b == [a[0]] + (a[1..] + b);
      RunCons(s, a[0], a[1..] + b);
    }
  }

  // ----- Lifting the limit -----

  ghost predicate NoPositiveRate(steps: seq<Step>) {
    forall i :: 0 <= i < |steps| ==> steps[i].SetRate? ==> steps[i].r <= 0
  }

  /** The waiter wants more than there is or will be without a positive rate. */
  ghost predicate Stranded(s: State, id: Id, n: int) {
    Live(s, id) && s.waiters[id].n == n && s.rate <= 0 && s.bucket + Pending(s) < n
  }

  lemma StrandedStep(s: State, step: Step, id: Id, n: int)
    requires Inv(s) && Enabled(s, step) && Stranded(s, id, n)
    requires step.SetRate? ==> step.r <= 0
    ensures if step == Cancel(id) then Next(s, step).waiters[id] == Returned(false) else Stranded(Next(s, step), id, n)
  {
    assert WaiterInv(s, id);
    match step {
      case Swap(other) => assert WaiterInv(s, other);
      case Reswap(other) => assert WaiterInv(s, other);
      case _ =>
    }
  }

  lemma ReturnedStays(s: State, step: Step, id: Id)
    requires Inv(s) && Enabled(s, step) && id in s.waiters && s.waiters[id].Returned?
    ensures id in Next(s, step).waiters && Next(s, step).waiters[id] == s.waiters[id]
  {
  }

  lemma {:induction false} ReturnedForever(s: State, steps: seq<Step>, id: Id)
    requires Inv(s) && Run(s, steps) && id in s.waiters && s.waiters[id].Returned?
    ensures id in After(s, steps).waiters && After(s, steps).waiters[id] == s.waiters[id]
    decreases |steps|
  {
    hide Inv, Next, Enabled;
    if steps != [] {
      StepKeeps(s, steps[0]);
      ReturnedStays(s, steps[0], id);
      ReturnedForever(Next(s, steps[0]), steps[1..], id);
    }
  }

  /** A stranded waiter stays where it is through every run, unless it is cancelled. */
  lemma {:induction false} StrandedForever(s: State, steps: seq<Step>, id: Id, n: int)
    requires Inv(s) && Run(s, steps) && NoPositiveRate(steps) && Stranded(s, id, n)
    ensures if Cancel(id) in steps then id in After(s, steps).waiters && After(s, steps).waiters[id] == Returned(false)
            else Stranded(After(s, steps), id, n)
    decreases |steps|
  {
    hide Inv, Next, Enabled, Stranded;
    if steps != [] {
      assert steps == [steps[0]] + steps[1..];
      StepKeeps(s, steps[0]);
      StrandedStep(s, steps[0], id, n);
      var m := Next(s, steps[0]);
      if steps[0] == Cancel(id) {
        CancelKnown(s, id);
        ReturnedForever(m, steps[1..], id);
      } else {
        StrandedForever(m, steps[1..], id, n);
      }
    }
  }

  lemma CancelKnown(s: State, id: Id)
    requires Inv(s) && Enabled(s, Cancel(id))
    ensures id in Next(s, Cancel(id)).waiters
  {
  }

  lemma LiftStrands(s: State, id: Id)
    requires Inv(s) && s.rate > 0 && Live(s, id)
    ensures var t := Next(s, SetRate(0));
            && Inv(t) && Live(t, id) && t.waiters == s.waiters && t.bucket == s.bucket && Pending(t) == Pending(s)
            && t.rate == 0 && t.refiller == s.refiller
            && (s.waiters[id].n > s.bucket + Pending(s) ==> Stranded(t, id, s.waiters[id].n))
            && (s.waiters[id].Joined? || s.waiters[id].Retaking? || s.waiters[id].Blocked? ==> id in t.signaled)
  {
    StepKeeps(s, SetRate(0));
    assert WaiterInv(s, id);
  }

  /**
    A waiter that wants more than the tokens there are, and those the refiller
    has already computed, when the limit is lifted is woken and goes on waiting:
    no run without a positive rate ever lets it through.
   */
  lemma LiftedStillWaits(s: State, steps: seq<Step>, id: Id)
    requires Inv(s) && s.rate > 0 && Live(s, id) && s.waiters[id].n > s.bucket + Pending(s)
    requires Inv(Next(s, SetRate(0))) && Run(Next(s, SetRate(0)), steps) && NoPositiveRate(steps) && Cancel(id) !in steps
    ensures var t := After(Next(s, SetRate(0)), steps); Live(t, id) && t.bucket < t.waiters[id].n
  {
    LiftStrands(s, id);
    StrandedForever(Next(s, SetRate(0)), steps, id, s.waiters[id].n);
    RunKeeps(Next(s, SetRate(0)), steps);
  }

  /** One waiter for one token, asleep beside an empty bucket: such a state is reached and lifting the limit strands it. */
  lemma LiftStrandsSomeone(rate: int)
    requires rate > 0
    ensures var steps := [Call(0, 1), Load(0), Join(0), Reload(0)];
            && Run(Init(rate), steps)
            && var s := After(Init(rate), steps);
            && s.rate > 0 && s.waiters[0] == Blocked(1) && s.bucket + Pending(s) < 1
  {
    var s0 := Init(rate);
    var s1 := Next(s0, Call(0, 1));
    StepKeeps(s0, Call(0, 1));
    var s2 := Next(s1, Load(0));
    StepKeeps(s1, Load(0));
    var s3 := Next(s2, Join(0));
    StepKeeps(s2, Join(0));
    var s4 := Next(s3, Reload(0));
    StepKeeps(s3, Reload(0));
    hide Inv, Next, Enabled;
    assert Run(s4, []) && After(s4, []) == s4;
    RunCons(s3, Reload(0), []);
    assert [Reload(0)] + [] == [Reload(0)];
    RunCons(s2, Join(0), [Reload(0)]);
    assert [Join(0)] + [Reload(0)] == [Join(0), Reload(0)];
    RunCons(s1, Load(0), [Join(0), Reload(0)]);
    assert [Load(0)] + [Join(0), Reload(0)] == [Load(0), Join(0), Reload(0)];
    RunCons(s0, Call(0, 1), [Load(0), Join(0), Reload(0)]);
    assert [Call(0, 1)] + [Load(0), Join(0), Reload(0)] == [Call(0, 1), Load(0), Join(0), Reload(0)];
  }

  // ----- Letting a waiter through -----

  /** The refiller puts what it has computed into the bucket. */
  lemma RefillFinishes(s: State) returns (steps: seq<Step>)
    requires Inv(s)
    ensures Run(s, steps) && NoPositiveRate(steps)
    ensures var t := After(s, steps);
            && Inv(t) && t.waiters == s.waiters && t.signaled == s.signaled
            && t.bucket == s.bucket + Pending(s) && Pending(t) == 0
    decreases if s.refiller.Swapping? then (if s.bucket == s.refiller.seen then 1 else 3) else if s.refiller.Adding? then 2 else 0
  {
    if s.refiller.Adding? {
      var m := Next(s, RefillLoad);
      StepKeeps(s, RefillLoad);
      var rest := RefillFinishes(m);
      RunCons(s, RefillLoad, rest);
      steps := [RefillLoad] + rest;
    } else if s.refiller.Swapping? {
      var m := Next(s, RefillSwap);
      StepKeeps(s, RefillSwap);
      var rest := RefillFinishes(m);
      RunCons(s, RefillSwap, rest);
      steps := [RefillSwap] + rest;
    } else {
      steps := [];
    }
  }

  ghost predicate Ready(s: State, id: Id, n: int) {
    && Live(s, id) && s.waiters[id].n == n && s.bucket >= n
    && (s.waiters[id].Joined? || s.waiters[id].Retaking? || s.waiters[id].Blocked? ==> id in s.signaled)
  }

  function Rank(s: State, id: Id): nat
    requires id in s.waiters
  {
    match s.waiters[id]
    case Taking(_, seen) => if seen == s.bucket then 1 else 3
    case Trying(_) => 2
    case Blocked(_) => 4
    case Retaking(_, seen) => if seen == s.bucket then 1 else 5
    case Joined(_) => 6
    case Short(_) => 7
    case Returned(_) => 0
  }

  /** What a waiter does next when nobody interferes. */
  function OwnStep(w: Waiter, id: Id): Step {
    match w
    case Trying(_) => Load(id)
    case Taking(_, _) => Swap(id)
    case Short(_) => Join(id)
    case Joined(_) => Reload(id)
    case Retaking(_, _) => Reswap(id)
    case Blocked(_) => Wake(id)
    case Returned(_) => Tick
  }

  lemma OwnStepHelps(s: State, id: Id, n: int)
    requires Inv(s) && Ready(s, id, n)
    ensures var step := OwnStep(s.waiters[id], id);
            && Enabled(s, step) && !step.SetRate?
            && var t := Next(s, step);
            && id in t.waiters && Rank(t, id) < Rank(s, id)
            && (t.waiters[id] == Returned(true) || ReadyOrJoined(t, id, n))
  {
    assert WaiterInv(s, id);
  }

  /** Ready, or registered with enough tokens still in the bucket. */
  ghost predicate ReadyOrJoined(s: State, id: Id, n: int) {
    Ready(s, id, n)
    || (id in s.waiters && s.bucket >= n && (s.waiters[id] == Joined(n) || s.waiters[id] == Retaking(n, s.bucket)))
  }

  lemma JoinedStepHelps(s: State, id: Id, n: int)
    requires Inv(s) && ReadyOrJoined(s, id, n)
    ensures var step := OwnStep(s.waiters[id], id);
            && Enabled(s, step) && !step.SetRate?
            && var t := Next(s, step);
            && id in t.waiters && Rank(t, id) < Rank(s, id)
            && (t.waiters[id] == Returned(true) || ReadyOrJoined(t, id, n))
  {
    assert WaiterInv(s, id);
    if Ready(s, id, n) {
      OwnStepHelps(s, id, n);
    }
  }

  lemma {:induction false} TakesTokens(s: State, id: Id, n: int) returns (steps: seq<Step>)
    requires Inv(s) && ReadyOrJoined(s, id, n)
    ensures Run(s, steps) && NoPositiveRate(steps)
    ensures id in After(s, steps).waiters && After(s, steps).waiters[id] == Returned(true)
    decreases Rank(s, id)
  {
    hide Inv, Next, Enabled;
    var step := OwnStep(s.waiters[id], id);
    JoinedStepHelps(s, id, n);
    StepKeeps(s, step);
    var t := Next(s, step);
    var rest: seq<Step> := [];
    if t.waiters[id] != Returned(true) {
      rest := TakesTokens(t, id, n);
    }
    RunCons(s, step, rest);
    steps := [step] + rest;
  }

  /** Some run without a positive rate lets the waiter through. */
  ghost predicate CanBeGranted(s: State, id: Id)
    requires Inv(s)
  {
    exists steps :: Run(s, steps) && NoPositiveRate(steps) && Granted(After(s, steps), id)
  }

  ghost predicate Granted(s: State, id: Id) {
    id in s.waiters && s.waiters[id] == Returned(true)
  }

  /**
    After the limit is lifted, and without a positive rate later, a waiter can
    be let through exactly when it wants no more than the tokens in the bucket
    and those the refiller has already computed.
   */
  lemma LiftReleasesExactly(s: State, id: Id)
    requires Inv(s) && s.rate > 0 && Live(s, id)
    ensures var t := Next(s, SetRate(0));
            Inv(t) && (CanBeGranted(t, id) <==> s.waiters[id].n <= s.bucket + Pending(s))
  {
    hide Inv, Next;
    LiftStrands(s, id);
    var n, t := s.waiters[id].n, Next(s, SetRate(0));
    if n <= s.bucket + Pending(s) {
      var first := RefillFinishes(t);
      var m := After(t, first);
      assert Ready(m, id, n);
      var second := TakesTokens(m, id, n);
      RunConcat(t, first, second);
      assert Granted(After(t, first + second), id);
    } else if steps :| Run(t, steps) && NoPositiveRate(steps) && Granted(After(t, steps), id) {
      StrandedForever(t, steps, id, n);
      assert false;
    }
  }

  // ----- Races for tokens -----

  /** A waiter sleeps without a signal, none is coming, and there are enough tokens for it. */
  ghost predicate Missed(s: State, id: Id) {
    && id in s.waiters && s.waiters[id].Blocked? && id !in s.signaled
    && s.bucket >= s.waiters[id].n && !s.refiller.Signaling?
  }

  /** Another waiter was faster, yet left enough, and no signal is on its way. */
  ghost predicate LosesRace(s: State, step: Step, id: Id) {
    && step == Reswap(id) && id in s.waiters && s.waiters[id].Retaking?
    && s.bucket != s.waiters[id].seen && s.bucket >= s.waiters[id].n
    && id !in s.signaled && !s.refiller.Signaling?
  }

  /** New tokens arrive, the limit is lifted, or the waiter is cancelled. */
  predicate Rouses(s: State, step: Step, id: Id) {
    || (step.RefillSwap? && s.refiller.Swapping? && s.bucket == s.refiller.seen)
    || (step == SetRate(0) && s.rate > 0)
    || step == Cancel(id)
  }

  lemma MissedStep(s: State, step: Step, id: Id)
    requires Inv(s) && Enabled(s, step)
    ensures var t := Next(s, step);
            && (Missed(t, id) && !Missed(s, id) ==> LosesRace(s, step, id))
            && (LosesRace(s, step, id) ==> Missed(t, id))
            && (Missed(s, id) && Missed(t, id) ==> !Rouses(s, step, id))
            && (Missed(s, id) && !Rouses(s, step, id) ==> Asleep(s, t, id))
  {
    hide Inv, Next, Enabled, LosesRace, Rouses, Asleep;
    MissedOnset(s, step, id);
    if Missed(s, id) {
      MissedHolds(s, step, id);
    }
  }

  lemma MissedHolds(s: State, step: Step, id: Id)
    requires Inv(s) && Enabled(s, step) && Missed(s, id)
    ensures var t := Next(s, step);
            && (Missed(t, id) ==> !Rouses(s, step, id))
            && (!Rouses(s, step, id) ==> Asleep(s, t, id))
  {
    assert WaiterInv(s, id);
    match step {
      case Swap(other) => assert WaiterInv(s, other);
      case Reswap(other) => assert WaiterInv(s, other);
      case _ =>
    }
  }

  lemma MissedOnset(s: State, step: Step, id: Id)
    requires Inv(s) && Enabled(s, step)
    ensures var t := Next(s, step);
            && (Missed(t, id) && !Missed(s, id) ==> LosesRace(s, step, id))
            && (LosesRace(s, step, id) ==> Missed(t, id))
  {
    if id in s.waiters {
      assert WaiterInv(s, id);
    }
    match step {
      case Swap(other) => assert WaiterInv(s, other);
      case Reswap(other) => assert WaiterInv(s, other);
      case _ =>
    }
  }

  /** Nothing has changed for the waiter but the tokens that others were granted. */
  ghost predicate Asleep(s: State, t: State, id: Id) {
    && id in s.waiters && id in t.waiters && t.waiters[id] == s.waiters[id]
    && id !in t.signaled && !t.refiller.Signaling? && t.spent >= s.spent
    && t.bucket == s.bucket - (t.spent - s.spent)
  }

  ghost predicate Undisturbed(s: State, steps: seq<Step>, id: Id)
    requires Inv(s) && Run(s, steps)
    decreases |steps|
  {
    steps == [] ||
    (StepKeeps(s, steps[0]); !Rouses(s, steps[0], id) && Undisturbed(Next(s, steps[0]), steps[1..], id))
  }

  lemma AsleepStep(s: State, step: Step, id: Id)
    requires Inv(s) && Enabled(s, step) && !Rouses(s, step, id)
    requires id in s.waiters && s.waiters[id].Blocked? && id !in s.signaled && !s.refiller.Signaling?
    ensures Asleep(s, Next(s, step), id)
  {
    assert WaiterInv(s, id);
    match step {
      case Swap(other) => assert WaiterInv(s, other);
      case Reswap(other) => assert WaiterInv(s, other);
      case _ =>
    }
  }

  lemma {:induction false} AsleepRun(s: State, steps: seq<Step>, id: Id)
    requires Inv(s) && Run(s, steps) && Undisturbed(s, steps, id)
    requires id in s.waiters && s.waiters[id].Blocked? && id !in s.signaled && !s.refiller.Signaling?
    ensures Asleep(s, After(s, steps), id)
    decreases |steps|
  {
    hide Inv, Next, Enabled, Rouses;
    if steps != [] {
      StepKeeps(s, steps[0]);
      AsleepStep(s, steps[0], id);
      AsleepRun(Next(s, steps[0]), steps[1..], id);
    }
  }

  /** At step `k` the waiter loses a race, nothing rouses it afterwards and others leave enough tokens. */
  ghost predicate LastRaceLost(s: State, steps: seq<Step>, id: Id)
    requires Inv(s) && Run(s, steps)
    decreases |steps|
  {
    steps != [] &&
    (StepKeeps(s, steps[0]);
     var m := Next(s, steps[0]);
     || (LosesRace(s, steps[0], id) && Undisturbed(m, steps[1..], id)
         && After(m, steps[1..]).spent - m.spent <= s.bucket - s.waiters[id].n)
     || LastRaceLost(m, steps[1..], id))
  }

  lemma {:induction false} MissedRun(s: State, steps: seq<Step>, id: Id)
    requires Inv(s) && Run(s, steps) && Missed(After(s, steps), id)
    ensures (Missed(s, id) && Undisturbed(s, steps, id)) || LastRaceLost(s, steps, id)
    decreases |steps|
  {
    hide Inv, Next, Enabled, Rouses;
    if steps != [] {
      StepKeeps(s, steps[0]);
      var m := Next(s, steps[0]);
      MissedRun(m, steps[1..], id);
      MissedStep(s, steps[0], id);
      if Missed(m, id) && Undisturbed(m, steps[1..], id) && !Missed(s, id) {
        AsleepRun(m, steps[1..], id);
        RaceKeepsBucket(s, steps[0], id);
      }
    }
  }

  lemma RaceKeepsBucket(s: State, step: Step, id: Id)
    requires Inv(s) && Enabled(s, step) && LosesRace(s, step, id)
    ensures var t := Next(s, step); t.bucket == s.bucket && id in t.waiters && t.waiters[id] == Blocked(s.waiters[id].n)
  {
  }

  lemma {:induction false} RaceMisses(s: State, steps: seq<Step>, id: Id)
    requires Inv(s) && Run(s, steps) && LastRaceLost(s, steps, id)
    ensures Missed(After(s, steps), id)
    decreases |steps|
  {
    hide Inv, Next, Enabled, Rouses;
    StepKeeps(s, steps[0]);
    var m := Next(s, steps[0]);
    if LastRaceLost(m, steps[1..], id) {
      RaceMisses(m, steps[1..], id);
    } else {
      MissedStep(s, steps[0], id);
      RaceKeepsBucket(s, steps[0], id);
      AsleepRun(m, steps[1..], id);
    }
  }

  /**
    In every interleaving a waiter sleeps beside enough tokens, with no signal
    sent or on its way, exactly when it has lost its last race to another that
    left enough, and since then no tokens have arrived, the limit has not been
    lifted and others have not taken too many.
   */
  lemma MissedExactly(rate: int, steps: seq<Step>, id: Id)
    requires Run(Init(rate), steps)
    ensures Missed(After(Init(rate), steps), id) <==> LastRaceLost(Init(rate), steps, id)
  {
    if Missed(After(Init(rate), steps), id) {
      MissedRun(Init(rate), steps, id);
    }
    if LastRaceLost(Init(rate), steps, id) {
      RaceMisses(Init(rate), steps, id);
    }
  }

  /** The run so far and the state it leads to. */
  ghost predicate Reaches(rate: int, steps: seq<Step>, s: State) {
    Run(Init(rate), steps) && After(Init(rate), steps) == s && Inv(s)
  }

  lemma Extend(rate: int, steps: seq<Step>, s: State, step: Step) returns (steps': seq<Step>, t: State)
    requires Reaches(rate, steps, s) && Enabled(s, step)
    ensures steps' == steps + [step] && t == Next(s, step) && Reaches(rate, steps', t)
  {
    assert Inv(Init(rate));
    hide Inv, Next, Enabled;
    StepKeeps(s, step);
    t := Next(s, step);
    assert Run(t, []);
    RunCons(s, step, []);
    assert [step] + [] == [step];
    RunConcat(Init(rate), steps, [step]);
    steps' := steps + [step];
  }

  /**
    Such a waiter exists at every rate that puts more than one token into the
    bucket at once: it registers after the signal for these tokens, finds them,
    and loses the race to a waiter that takes only one.
   */
  lemma RaceLeavesSleeper(rate: int) returns (steps: seq<Step>)
    requires rate >= 20
    ensures Run(Init(rate), steps) && Missed(After(Init(rate), steps), 0)
    ensures After(Init(rate), steps).refiller == Idle && After(Init(rate), steps).rate == rate
  {
    var s := Init(rate);
    steps := [];
    steps, s := Extend(rate, steps, s, Call(0, 1));
    steps, s := Extend(rate, steps, s, Load(0));
    steps, s := Extend(rate, steps, s, Tick);
    steps, s := Extend(rate, steps, s, RefillLoad);
    steps, s := Extend(rate, steps, s, RefillSwap);
    steps, s := Extend(rate, steps, s, RefillSignal);
    steps, s := Extend(rate, steps, s, Join(0));
    steps, s := Extend(rate, steps, s, Reload(0));
    steps, s := Extend(rate, steps, s, Call(1, 1));
    steps, s := Extend(rate, steps, s, Load(1));
    steps, s := Extend(rate, steps, s, Swap(1));
    steps, s := Extend(rate, steps, s, Reswap(0));
  }
}
