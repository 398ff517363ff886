/** What the queue's passes and calls achieve, stated without following their loops. */
module QueueEffects {
  import opened Bytes
  import opened Lists
  import opened QueueSpec
  import opened QueueInvariants

  // ----- Promotion -----

  lemma {:induction false} PassLeaves(q: seq<Gid>, num: nat, groups: map<Gid, Group>, keep: set<Gid>)
    requires Distinct(q) && forall i :: 0 <= i < |q| ==> q[i] in groups
    requires forall i :: 0 <= i < |q| ==> (q[i] in keep <==> q[i] !in Pass(q, num, groups).1)
    ensures Pass(q, num, groups).0 == Sub(q, keep)
    decreases |q|
  {
    if q == [] || num == 0 {
      SubAll(q, keep);
    } else {
      var rest := q[1..];
      var n := if groups[q[0]].paused then num else num - 1;
      PassMembers(rest, n, groups);
      assert forall i :: 0 <= i < |rest| ==> rest[i] == q[i + 1];
      PassLeaves(rest, n, groups, keep);
    }
  }

  lemma {:induction false} PassMembers(q: seq<Gid>, num: nat, groups: map<Gid, Group>)
    ensures forall g :: g in Pass(q, num, groups).1 ==> g in q
    decreases |q|
  {
    if q != [] && num > 0 {
      PassMembers(q[1..], num, groups);
      PassMembers(q[1..], num - 1, groups);
    }
  }

  lemma {:induction false} SubAll(q: seq<Gid>, keep: set<Gid>)
    requires forall i :: 0 <= i < |q| ==> q[i] in keep
    ensures Sub(q, keep) == q
  {
    if q != [] {
      SubAll(q[1..], keep);
    }
  }

  /** The downloads a promotion pass takes: the first unpaused ones, as many as there are free slots. */
  ghost function Taken(s: State): seq<Gid> {
    var free := Sub(s.waiting, Unpaused(s));
    if |s.active| >= Max(1, s.max) then [] else free[..Min(Max(1, s.max) - |s.active|, |free|)]
  }

  /** Promotion takes the first unpaused waiting downloads in order and leaves the rest in order. */
  lemma PromoteTakesFirst(s: State)
    requires Wf(s)
    ensures DoPromote(s).active == s.active + Taken(s)
    ensures DoPromote(s).waiting == Sub(s.waiting, (set g | g in s.waiting) - (set g | g in Taken(s)))
    ensures forall g :: g in s.groups ==>
              g in DoPromote(s).groups
              && DoPromote(s).groups[g] == if g !in Taken(s) then s.groups[g]
                   else s.groups[g].(state := Active, worker := if !s.running then s.groups[g].worker
                                                                else if s.canceled then Halted else Working)
  {
    hide Pass, Sub;
    if |s.active| < Limit(s.max) {
      var num := Limit(s.max) - |s.active|;
      TakenIs(s, num);
      assert DoPromote(s).groups == Launch(s, Taken(s));
      hide Wf, Taken;
    } else {
      SubAll(s.waiting, (set g | g in s.waiting) - (set g: Gid | g in []));
    }
  }

  lemma TakenIs(s: State, num: nat)
    requires Wf(s) && |s.active| < Limit(s.max) && num == Limit(s.max) - |s.active|
    ensures Pass(s.waiting, num, s.groups)
         == (Sub(s.waiting, (set g | g in s.waiting) - (set g | g in Taken(s))), Taken(s))
  {
    hide Pass, Sub;
    PassOf(s, num);
    PassLeaves(s.waiting, num, s.groups, (set g | g in s.waiting) - (set g | g in Taken(s)));
  }

  /** A promotion pass leaves no free slot beside an unpaused download. */
  lemma PromoteFills(s: State)
    requires Wf(s)
    ensures |DoPromote(s).active| >= Max(1, s.max) || Unpaused(DoPromote(s)) == {}
  {
    hide Sub, DoPromote;
    PromoteTakesFirst(s);
    PromoteKeeps(s);
    var r, free := DoPromote(s), Sub(s.waiting, Unpaused(s));
    SubMembers(s.waiting, Unpaused(s));
    SubMembers(s.waiting, (set g | g in s.waiting) - (set g | g in Taken(s)));
    if |r.active| < Limit(s.max) {
      assert Taken(s) == free;
      forall g
        ensures g !in Unpaused(r)
      {
      }
    }
  }

  // ----- The limit -----

  lemma {:induction false} ReapEachShrinks(s: State, gids: seq<Gid>)
    ensures |ReapEach(s, gids).active| <= |s.active| && ReapEach(s, gids).max == s.max
    decreases |gids|
  {
    if gids != [] {
      WithoutShrinks(s.active, gids[0]);
      ReapEachShrinks(ReapOne(s, gids[0]), gids[1..]);
    }
  }

  lemma {:induction false} WithoutShrinks(q: seq<Gid>, g: Gid)
    ensures |Without(q, g)| <= |q|
  {
    if q != [] {
      WithoutShrinks(q[1..], g);
    }
  }

  lemma {:induction false} EndShrinks(s: State, gids: seq<Gid>)
    ensures |EndEachActive(s, gids).active| <= |s.active| && EndEachActive(s, gids).max == s.max
    ensures EndEachWaiting(s, gids).active == s.active && EndEachWaiting(s, gids).max == s.max
    decreases |gids|
  {
    if gids != [] {
      WithoutShrinks(s.active, gids[0]);
      EndShrinks(EndActive(s, gids[0]), gids[1..]);
      EndShrinks(EndWaiting(s, gids[0]), gids[1..]);
    }
  }

  lemma LimitPause(s: State, g: Gid, forced: bool)
    ensures |DoPause(s, g, forced).active| <= |s.active| && DoPause(s, g, forced).max == s.max
  {
    hide Without;
    WithoutShrinks(s.active, g);
  }

  lemma LimitRemove(s: State, g: Gid, forced: bool)
    ensures |DoRemove(s, g, forced).active| <= |s.active| && DoRemove(s, g, forced).max == s.max
  {
    hide Without;
    WithoutShrinks(s.active, g);
  }

  lemma StepWithinLimit(s: State, step: Step)
    requires Wf(s) && |s.active| <= Max(1, s.max) && !step.SetMax?
    ensures |Next(s, step).active| <= Max(1, Next(s, step).max)
  {
    hide Wf, Without, ReapEach, Sub, EndEachActive, EndEachWaiting, Pass, DoPause, DoRemove;
    match step {
      case Pause(g, forced) => LimitPause(s, g, forced);
      case Remove(g, forced) => LimitRemove(s, g, forced);
      case Reap => ReapEachShrinks(s, Sub(s.active, Ended(s)));
      case Promote => PromoteKeeps(s);
      case EndOfRun =>
        EndShrinks(s, s.active);
        EndShrinks(EndEachActive(s, s.active), s.waiting);
      case _ =>
    }
  }

  /** While the limit is not changed, no run ever has more active downloads than it. */
  lemma {:induction false} RunWithinLimit(s: State, steps: seq<Step>)
    requires Wf(s) && Runs(s, steps) && |s.active| <= Max(1, s.max)
    requires forall i :: 0 <= i < |steps| ==> !steps[i].SetMax?
    ensures |After(s, steps).active| <= Max(1, After(s, steps).max)
    decreases |steps|
  {
    hide Wf, Next;
    if steps != [] {
      StepKeeps(s, steps[0]);
      StepWithinLimit(s, steps[0]);
      RunWithinLimit(Next(s, steps[0]), steps[1..]);
    }
  }

  // ----- Reaping -----

  function Reverse(q: seq<Gid>): seq<Gid> {
    if q == [] then [] else Reverse(q[1..]) + [q[0]]
  }

  /**
    The result of a download that is not paused: told to halt it is removed or,
    without its user's request, an error in progress; else its code decides.
   */
  function ResultOf(groups: map<Gid, Group>, g: Gid): seq<Stopped> {
    if g !in groups || groups[g].paused then []
    else
      var rg := groups[g];
      if rg.halt && rg.reason == UserRequest then [Stopped(g, Removed, 31)]
      else if rg.halt then [Stopped(g, Errored, if rg.code == 0 then 255 else rg.code)]
      else if rg.code == 0 then [Stopped(g, Complete, 0)]
      else [Stopped(g, Errored, rg.code)]
  }

  function IfPaused(groups: map<Gid, Group>, g: Gid): seq<Gid> {
    if g in groups && groups[g].paused then [g] else []
  }

  /** The results of those of `gids` that are not paused, in order. */
  function Results(groups: map<Gid, Group>, gids: seq<Gid>): seq<Stopped> {
    if gids == [] then [] else ResultOf(groups, gids[0]) + Results(groups, gids[1..])
  }

  function PausedOf(groups: map<Gid, Group>, gids: seq<Gid>): seq<Gid> {
    if gids == [] then [] else IfPaused(groups, gids[0]) + PausedOf(groups, gids[1..])
  }

  lemma {:induction false} ResultsSame(a: map<Gid, Group>, b: map<Gid, Group>, gids: seq<Gid>)
    requires forall i :: 0 <= i < |gids| ==> gids[i] in a && gids[i] in b && a[gids[i]] == b[gids[i]]
    ensures Results(a, gids) == Results(b, gids) && PausedOf(a, gids) == PausedOf(b, gids)
  {
    if gids != [] {
      ResultsSame(a, b, gids[1..]);
    }
  }

  lemma ReverseHead(h: seq<Gid>, q: seq<Gid>)
    requires |h| <= 1
    ensures Reverse(h + q) == Reverse(q) + h
  {
    if h == [] {
      assert h + q == q;
    } else {
      assert (h + q)[1..] == q;
    }
  }

  lemma ReapOneEffect(s: State, g: Gid)
    requires Wf(s) && g in s.groups && s.groups[g].state == Active
    ensures var r := ReapOne(s, g);
            && r.waiting == IfPaused(s.groups, g) + s.waiting
            && r.stopped == s.stopped + ResultOf(s.groups, g)
            && (forall x :: x in r.active <==> x in s.active && x != g)
  {
    WithoutDistinct(s.active, g);
  }

  ghost predicate Reaped(s: State, r: State, gids: seq<Gid>) {
    && r.waiting == Reverse(PausedOf(s.groups, gids)) + s.waiting
    && r.stopped == s.stopped + Results(s.groups, gids)
    && (forall g :: g in r.active <==> g in s.active && g !in gids)
  }

  lemma ReapedCons(s: State, m: State, r: State, g: Gid, rest: seq<Gid>)
    requires m.waiting == IfPaused(s.groups, g) + s.waiting
    requires m.stopped == s.stopped + ResultOf(s.groups, g)
    requires forall x :: x in m.active <==> x in s.active && x != g
    requires Reaped(m, r, rest)
    requires Results(s.groups, rest) == Results(m.groups, rest) && PausedOf(s.groups, rest) == PausedOf(m.groups, rest)
    ensures Reaped(s, r, [g] + rest)
  {
    hide Reverse, ResultOf, IfPaused;
    var gids := [g] + rest;
    assert gids[1..] == rest;
    assert Results(s.groups, gids) == ResultOf(s.groups, g) + Results(s.groups, rest);
    assert PausedOf(s.groups, gids) == IfPaused(s.groups, g) + PausedOf(s.groups, rest);
    assert |IfPaused(s.groups, g)| <= 1 by { AtMostOne(s.groups, g); }
    ReverseHead(IfPaused(s.groups, g), PausedOf(s.groups, rest));
    assert forall x :: x in gids <==> x == g || x in rest;
  }

  lemma AtMostOne(groups: map<Gid, Group>, g: Gid)
    ensures |IfPaused(groups, g)| <= 1
  {
  }

  lemma {:induction false} ReapEachEffect(s: State, gids: seq<Gid>)
    requires Wf(s) && ActiveList(s, gids)
    ensures Reaped(s, ReapEach(s, gids), gids)
    decreases |gids|
  {
    hide Wf, ReapOne, Reaped, Results, PausedOf, ResultOf, IfPaused, Reverse;
    if gids == [] {
      ReapedNone(s);
    } else {
      var g, rest := gids[0], gids[1..];
      assert gids == [g] + rest;
      ReapOneKeeps(s, g);
      ReapOneEffect(s, g);
      var m := ReapOne(s, g);
      ReapEachEffect(m, rest);
      ResultsSame(s.groups, m.groups, rest);
      ReapedCons(s, m, ReapEach(m, rest), g, rest);
    }
  }

  lemma ReapedNone(s: State)
    ensures Reaped(s, s, [])
  {
  }

  /**
    A reaping pass empties the active queue of ended downloads: the paused or
    restarting ones are at the front of the waiting queue, last ended first,
    and each of the others has one new result, in queue order.
   */
  lemma ReapEffect(s: State)
    requires Wf(s)
    ensures var r, ended := DoReap(s), Sub(s.active, Ended(s));
            && (forall g :: g in r.active <==> g in s.active && g !in Ended(s))
            && r.waiting == Reverse(PausedOf(s.groups, ended)) + s.waiting
            && r.stopped == s.stopped + Results(s.groups, ended)
  {
    hide Wf, ReapEach;
    EndedActive(s);
    SubMembers(s.active, Ended(s));
    ReapEachEffect(s, Sub(s.active, Ended(s)));
  }

  // ----- Pausing -----

  ghost predicate Held(s: State, g: Gid) {
    g in s.groups && s.groups[g].state == Waiting && s.groups[g].paused
  }

  lemma {:induction false} ReapEachOthers(s: State, gids: seq<Gid>, g: Gid)
    requires Held(s, g) && g !in gids
    ensures Held(ReapEach(s, gids), g)
    decreases |gids|
  {
    if gids != [] {
      ReapEachOthers(ReapOne(s, gids[0]), gids[1..], g);
    }
  }

  lemma StepHolds(s: State, step: Step, g: Gid)
    requires Wf(s) && Enabled(s, step) && Held(s, g)
    requires step != Resume(g) && (step.Remove? ==> step.gid != g) && !step.EndOfRun?
    ensures Held(Next(s, step), g)
  {
    hide DoPromote, DoAdd, DoChangePosition, DoShutdown, DoReap, DoPause, DoResume, DoRemove, DoChangeOption, DoFinish, Wf;
    match step {
      case Add(spec, draw) => HeldAdd(s, g, spec, draw);
      case ChangePosition(_, _, _) => HeldSame(s, Next(s, step), g);
      case Shutdown(forced) => HeldShutdown(s, g, forced);
      case Reap => HeldReap(s, g);
      case Promote => HeldPromote(s, g);
      case Pause(h, forced) => HeldPause(s, g, h, forced);
      case Resume(h) => HeldResume(s, g, h);
      case Remove(h, forced) => HeldRemove(s, g, h, forced);
      case ChangeOption(h) => HeldChange(s, g, h);
      case Finish(h, code) => HeldFinish(s, g, h, code);
      case _ =>
    }
  }

  lemma HeldPause(s: State, g: Gid, h: Gid, forced: bool)
    requires Held(s, g)
    ensures Held(DoPause(s, h, forced), g)
  {
    hide Without;
  }

  lemma HeldResume(s: State, g: Gid, h: Gid)
    requires Held(s, g) && h != g
    ensures Held(DoResume(s, h), g)
  {
  }

  lemma HeldRemove(s: State, g: Gid, h: Gid, forced: bool)
    requires Held(s, g) && h != g
    ensures Held(DoRemove(s, h, forced), g)
  {
    hide Without;
  }

  lemma HeldChange(s: State, g: Gid, h: Gid)
    requires Held(s, g)
    ensures Held(DoChangeOption(s, h), g)
  {
    hide Without;
  }

  lemma HeldFinish(s: State, g: Gid, h: Gid, code: int)
    requires Held(s, g)
    ensures Held(DoFinish(s, h, code), g)
  {
  }

  lemma HeldAdd(s: State, g: Gid, spec: AddSpec, draw: Gid)
    requires Wf(s) && Held(s, g) && Usable(s, draw)
    ensures Held(DoAdd(s, spec, draw), g)
  {
    assert g in s.used;
  }

  lemma HeldSame(s: State, r: State, g: Gid)
    requires Held(s, g) && exists h, pos, how :: r == DoChangePosition(s, h, pos, how)
    ensures Held(r, g)
  {
  }

  lemma HeldShutdown(s: State, g: Gid, forced: bool)
    requires Wf(s) && Held(s, g)
    ensures Held(DoShutdown(s, forced), g)
  {
  }

  lemma HeldReap(s: State, g: Gid)
    requires Wf(s) && Held(s, g)
    ensures Held(DoReap(s), g)
  {
    hide ReapEach, Sub;
    SubMembers(s.active, Ended(s));
    ReapEachOthers(s, Sub(s.active, Ended(s)), g);
  }

  lemma HeldPromote(s: State, g: Gid)
    requires Wf(s) && Held(s, g)
    ensures Held(DoPromote(s), g)
  {
    hide Sub, DoPromote;
    SubMembers(s.waiting, Unpaused(s));
    PromoteTakesFirst(s);
  }

  /** Whatever else happens, a paused waiting download stays so until it is resumed or removed or the run ends. */
  lemma {:induction false} PausedStays(s: State, steps: seq<Step>, g: Gid)
    requires Wf(s) && Runs(s, steps) && Held(s, g)
    requires forall i :: 0 <= i < |steps| ==>
               steps[i] != Resume(g) && (steps[i].Remove? ==> steps[i].gid != g) && !steps[i].EndOfRun?
    ensures Held(After(s, steps), g)
    decreases |steps|
  {
    hide Wf, Next, Held;
    if steps != [] {
      StepKeeps(s, steps[0]);
      StepHolds(s, steps[0], g);
      PausedStays(Next(s, steps[0]), steps[1..], g);
    }
  }

  /** Resuming undoes pausing a waiting download. */
  lemma ResumeUndoesPause(s: State, g: Gid, forced: bool)
    requires g in s.groups && s.groups[g].state == Waiting && !s.groups[g].paused
    ensures Held(DoPause(s, g, forced), g)
    ensures DoResume(DoPause(s, g, forced), g) == s
  {
    assert s.groups[g := s.groups[g].(paused := true)][g := s.groups[g]] == s.groups;
  }

  lemma ReapedOnce(s: State, g: Gid)
    requires Wf(s) && g in s.active && s.groups[g].worker == Halted
    ensures g in Sub(s.active, Ended(s)) && ActiveList(s, Sub(s.active, Ended(s)))
  {
    EndedActive(s);
    SubMembers(s.active, Ended(s));
  }

  lemma {:induction false} ReapEachReaches(s: State, gids: seq<Gid>, g: Gid)
    requires Wf(s) && ActiveList(s, gids) && g in gids
    ensures s.groups[g].paused ==> g in ReapEach(s, gids).waiting
    ensures !s.groups[g].paused ==>
              Stopped(g, Outcome(s.groups[g]).0, Outcome(s.groups[g]).1) in ReapEach(s, gids).stopped
    decreases |gids|
  {
    hide Wf, ReapEach;
    ReapEachEffect(s, gids);
    ListReaches(s.groups, gids, g);
    if s.groups[g].paused {
      ReverseMembers(PausedOf(s.groups, gids));
    }
  }

  lemma {:induction false} ListReaches(groups: map<Gid, Group>, gids: seq<Gid>, g: Gid)
    requires g in gids && g in groups
    ensures groups[g].paused ==> g in PausedOf(groups, gids)
    ensures !groups[g].paused ==> Stopped(g, Outcome(groups[g]).0, Outcome(groups[g]).1) in Results(groups, gids)
  {
    assert gids == [gids[0]] + gids[1..];
    if gids[0] != g {
      ListReaches(groups, gids[1..], g);
    }
  }

  lemma {:induction false} ReverseMembers(q: seq<Gid>)
    ensures forall x :: x in q ==> x in Reverse(q)
  {
    if q != [] {
      ReverseMembers(q[1..]);
      assert q == [q[0]] + q[1..];
    }
  }

  lemma ActiveState(s: State, g: Gid)
    requires Wf(s) && g in s.active
    ensures g in s.groups && s.groups[g].state == Active
  {
  }

  /** A pause that comes between the removal and the pass wins: the download waits, paused, and is not stopped. */
  lemma PauseAfterRemoveWins(s: State, g: Gid, forced: bool)
    requires Wf(s) && g in s.active && s.groups[g].worker != NoWorker
    ensures var m := DoPause(DoRemove(s, g, forced), g, forced);
            Wf(DoReap(m)) && g in DoReap(m).waiting && g !in StoppedIds(DoReap(m).stopped)
  {
    hide Wf, ReapEach, Sub;
    var m0 := DoRemove(s, g, forced);
    RemoveKeeps(s, g, forced);
    assert s.groups[g].state == Active by { ActiveState(s, g); }
    var m := DoPause(m0, g, forced);
    PauseKeeps(m0, g, forced);
    ReapedOnce(m, g);
    ReapEachReaches(m, Sub(m.active, Ended(m)), g);
    StepKeeps(m, Reap);
    WaitingNotStopped(DoReap(m), g);
  }

  lemma WaitingNotStopped(s: State, g: Gid)
    requires Wf(s) && g in s.waiting
    ensures g !in StoppedIds(s.stopped)
  {
  }

  // ----- Results are final -----

  lemma {:induction false} ReapEachLog(s: State, gids: seq<Gid>)
    ensures s.stopped <= ReapEach(s, gids).stopped && s.used == ReapEach(s, gids).used
    decreases |gids|
  {
    if gids != [] {
      ReapEachLog(ReapOne(s, gids[0]), gids[1..]);
    }
  }

  lemma {:induction false} EndLog(s: State, gids: seq<Gid>)
    ensures s.stopped <= EndEachActive(s, gids).stopped && s.used == EndEachActive(s, gids).used
    ensures s.stopped <= EndEachWaiting(s, gids).stopped && s.used == EndEachWaiting(s, gids).used
    decreases |gids|
  {
    if gids != [] {
      EndLog(EndActive(s, gids[0]), gids[1..]);
      EndLog(EndWaiting(s, gids[0]), gids[1..]);
    }
  }

  lemma {:induction false} EndOnlyStops(s: State, gids: seq<Gid>)
    ensures var r := EndEachActive(s, gids); r.used == s.used && r.dropped == s.dropped && r.failed == s.failed
    ensures var r := EndEachWaiting(s, gids); r.used == s.used && r.dropped == s.dropped && r.failed == s.failed
    decreases |gids|
  {
    if gids != [] {
      EndOnlyStops(EndActive(s, gids[0]), gids[1..]);
      EndOnlyStops(EndWaiting(s, gids[0]), gids[1..]);
    }
  }

  /** The end of a run gives every download that was still live a result. */
  lemma EndOfRunStopsAll(s: State)
    requires Wf(s)
    ensures var r := DoEndOfRun(s); r.groups == map[] && StoppedIds(r.stopped) == StoppedIds(s.stopped) + s.groups.Keys
  {
    hide EndEachActive, EndEachWaiting;
    EndOfRunKeeps(s);
    EndOnlyStops(s, s.active);
    EndOnlyStops(EndEachActive(s, s.active), s.waiting);
    var r := DoEndOfRun(s);
    assert r.used == StoppedIds(r.stopped) + r.dropped + r.failed;
  }

  lemma StepLog(s: State, step: Step)
    ensures s.stopped <= Next(s, step).stopped && s.used <= Next(s, step).used
  {
    hide ReapEach, Sub, EndEachActive, EndEachWaiting, Without, Pass;
    match step {
      case Reap => ReapEachLog(s, Sub(s.active, Ended(s)));
      case EndOfRun =>
        EndLog(s, s.active);
        EndLog(EndEachActive(s, s.active), s.waiting);
      case _ =>
    }
  }

  /** Results are never taken back, and a GID that has one is never issued, queued or stopped again. */
  lemma {:induction false} ResultsFinal(s: State, steps: seq<Step>)
    requires Wf(s) && Runs(s, steps)
    ensures s.stopped <= After(s, steps).stopped && s.used <= After(s, steps).used
    ensures forall g :: g in StoppedIds(s.stopped) ==> g !in After(s, steps).groups
    decreases |steps|
  {
    hide Next, Wf;
    RunKeeps(s, steps);
    if steps != [] {
      StepKeeps(s, steps[0]);
      StepLog(s, steps[0]);
      ResultsFinal(Next(s, steps[0]), steps[1..]);
    }
    StoppedNotLive(s, After(s, steps));
  }

  lemma StoppedNotLive(s: State, r: State)
    requires Wf(r) && s.stopped <= r.stopped
    ensures forall g :: g in StoppedIds(s.stopped) ==> g !in r.groups
  {
    forall g | g in StoppedIds(s.stopped)
      ensures g !in r.groups
    {
      var i :| 0 <= i < |s.stopped| && s.stopped[i].gid == g;
      assert r.stopped[i].gid == g;
    }
  }

  // ----- Changing position -----

  /** `want` is the place `at`, or the nearest there is in a queue of `n`. */
  predicate NearestPlace(at: int, n: nat, want: int) {
    0 <= want < n && (0 <= at < n ==> want == at) && (at < 0 ==> want == 0) && (at >= n ==> want == n - 1)
  }

  /** The place a caller asks for: counted from the front, from where the download is, or from behind the end. */
  function AskedPlace(q: seq<Gid>, g: Gid, pos: int, how: How): int {
    match how
    case PosSet => pos
    case PosCur => pos + IndexOf(q, g)
    case PosEnd => pos + |q|
  }

  /**
    The other downloads keep their order, and the download lands where the
    caller asked, as far as the queue reaches, exactly when that is not behind
    its old place; otherwise it lands one short.
   */
  lemma PositionExact(s: State, g: Gid, pos: int, how: How, want: int)
    requires Wf(s) && g in s.waiting && NearestPlace(AskedPlace(s.waiting, g, pos, how), |s.waiting|, want)
    ensures var q, q' := s.waiting, DoChangePosition(s, g, pos, how).waiting;
            && Without(q', g) == Without(q, g)
            && |q'| == |q|
            && (q'[want] == g <==> want <= IndexOf(q, g))
            && (want > IndexOf(q, g) ==> q'[want - 1] == g)
  {
    hide Without;
    var q := s.waiting;
    assert want == Wanted(q, g, pos, how);
    MovedKeeps(q, g, Landing(q, g, pos, how));
  }

  lemma StaysPut(q: seq<Gid>, g: Gid)
    requires g in q && IndexOf(q, g) + 1 < |q|
    ensures Landing(q, g, 1, PosCur) == IndexOf(q, g)
    ensures Moved(q, g, IndexOf(q, g)) == q
  {
    hide IndexOf;
  }

  /** Asking for the next place, or for the last one from the one before it, moves nothing. */
  lemma NextPlaceIsNoMove(s: State, g: Gid)
    requires Wf(s) && g in s.waiting && IndexOf(s.waiting, g) + 1 < |s.waiting|
    ensures DoChangePosition(s, g, 1, PosCur) == s
  {
    hide Landing, Moved, IndexOf;
    StaysPut(s.waiting, g);
  }
}
