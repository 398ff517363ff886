/** What becomes of a running download between its removal and the reaping pass that ends it. */
module QueueRemoval {
  import opened Lists
  import opened QueueSpec
  import opened QueueInvariants
  import opened QueueEffects

  // ----- Steps that matter -----

  predicate Removes(step: Step, g: Gid) {
    step.Remove? && step.gid == g
  }

  /** A pause or an option change marks the download to wait again, removed or not. */
  predicate Requeues(step: Step, g: Gid) {
    (step.Pause? || step.ChangeOption?) && step.gid == g
  }

  /** Only the first shutdown and forced ones mark the active downloads. */
  ghost predicate ShutsDown(shutting: bool, steps: seq<Step>, i: nat)
    requires i < |steps|
  {
    steps[i].Shutdown? && (steps[i].forced || (!shutting && forall j :: 0 <= j < i ==> !steps[j].Shutdown?))
  }

  ghost predicate NoLaterRemoval(steps: seq<Step>, i: int, g: Gid) {
    forall j :: i < j < |steps| && 0 <= j ==> !Removes(steps[j], g)
  }

  /** After the last removal in the run, if there is one, something makes the download wait again. */
  ghost predicate RequeuedBy(steps: seq<Step>, g: Gid) {
    exists i :: 0 <= i < |steps| && Requeues(steps[i], g) && NoLaterRemoval(steps, i, g)
  }

  ghost predicate ShutDownBy(shutting: bool, steps: seq<Step>, g: Gid) {
    exists i :: 0 <= i < |steps| && ShutsDown(shutting, steps, i) && NoLaterRemoval(steps, i, g)
  }

  // ----- One step -----

  /** Active, told to halt, its worker ended. */
  ghost predicate Removing(s: State, g: Gid) {
    g in s.groups && s.groups[g].state == Active && s.groups[g].worker == Halted && s.groups[g].halt
  }

  function PausedAfter(step: Step, g: Gid, paused: bool): bool {
    if Requeues(step, g) then true else if Removes(step, g) then false else paused
  }

  function AskedAfter(step: Step, g: Gid, shutting: bool, asked: bool): bool {
    if Removes(step, g) then true else if step.Shutdown? && (step.forced || !shutting) then false else asked
  }

  ghost predicate Marks(s: State, t: State, step: Step, g: Gid)
    requires g in s.groups && g in t.groups
  {
    && t.groups[g].paused == PausedAfter(step, g, s.groups[g].paused)
    && (t.groups[g].reason == UserRequest) == AskedAfter(step, g, s.shuttingDown, s.groups[g].reason == UserRequest)
    && t.shuttingDown == (s.shuttingDown || step.Shutdown?)
  }

  ghost predicate Untouched(s: State, t: State, g: Gid) {
    g in s.groups && g in t.groups && t.groups[g] == s.groups[g] && t.shuttingDown == s.shuttingDown
  }

  lemma RemovingStep(s: State, step: Step, g: Gid)
    requires Wf(s) && Enabled(s, step) && Removing(s, g) && !step.Reap? && !step.EndOfRun?
    ensures Removing(Next(s, step), g) && Marks(s, Next(s, step), step, g)
  {
    hide DoAdd, DoPause, DoResume, DoRemove, DoChangeOption, DoChangePosition, DoFinish, DoShutdown, DoPromote, Wf;
    match step {
      case Add(spec, draw) => RemovingAdd(s, g, spec, draw);
      case Pause(h, forced) => RemovingPause(s, g, h, forced);
      case Resume(h) => RemovingOthers(s, g, h, 0);
      case Remove(h, forced) => RemovingAgain(s, g, h, forced);
      case ChangeOption(h) => RemovingOption(s, g, h);
      case ChangePosition(h, pos, how) => RemovingMove(s, g, h, pos, how);
      case Finish(h, code) => RemovingOthers(s, g, h, code);
      case Shutdown(forced) => RemovingShutdown(s, g, forced);
      case Promote => RemovingPromote(s, g);
      case _ =>
    }
  }

  lemma RemovingPause(s: State, g: Gid, h: Gid, forced: bool)
    requires Removing(s, g)
    ensures var t := DoPause(s, h, forced); g in t.groups && Removing(t, g) && Marks(s, t, Pause(h, forced), g)
  {
    hide Without;
    if h == g {
      PausedOnce(s, g, forced);
    } else {
      PauseOther(s, g, h, forced);
    }
    hide DoPause;
  }

  lemma PausedOnce(s: State, g: Gid, forced: bool)
    requires Removing(s, g)
    ensures var t := DoPause(s, g, forced); g in t.groups && Removing(t, g) && Marks(s, t, Pause(g, forced), g)
  {
    var t := DoPause(s, g, forced);
    if !s.groups[g].paused {
      var rg := s.groups[g];
      var asked := if forced then rg.(paused := true, force := true) else rg.(paused := true, halt := true);
      assert t.groups[g] == asked.(worker := Halted);
      hide DoPause;
    }
  }

  lemma PauseOther(s: State, g: Gid, h: Gid, forced: bool)
    requires Removing(s, g) && h != g
    ensures Untouched(s, DoPause(s, h, forced), g)
  {
  }

  lemma RemovingAgain(s: State, g: Gid, h: Gid, forced: bool)
    requires Removing(s, g)
    ensures var t := DoRemove(s, h, forced); g in t.groups && Removing(t, g) && Marks(s, t, Remove(h, forced), g)
  {
    if h == g {
      RemovedAgain(s, g, forced);
    } else {
      RemoveOther(s, g, h, forced);
    }
    hide DoRemove;
  }

  lemma RemovedAgain(s: State, g: Gid, forced: bool)
    requires Removing(s, g)
    ensures var t := DoRemove(s, g, forced);
            && g in t.groups && t.shuttingDown == s.shuttingDown
            && t.groups[g] == s.groups[g].(halt := true, force := forced, reason := UserRequest, paused := false,
                                           restart := false, worker := Halted)
  {
  }

  lemma RemoveOther(s: State, g: Gid, h: Gid, forced: bool)
    requires Removing(s, g) && h != g
    ensures Untouched(s, DoRemove(s, h, forced), g)
  {
    hide Without;
  }

  lemma RemovingOption(s: State, g: Gid, h: Gid)
    requires Removing(s, g)
    ensures var t := DoChangeOption(s, h); g in t.groups && Removing(t, g) && Marks(s, t, ChangeOption(h), g)
  {
  }

  /** An active download whose worker has ended can be neither resumed nor finished. */
  lemma RemovingOthers(s: State, g: Gid, h: Gid, code: int)
    requires Removing(s, g)
    ensures Untouched(s, DoResume(s, h), g) && Untouched(s, DoFinish(s, h, code), g)
  {
  }

  lemma RemovingAdd(s: State, g: Gid, spec: AddSpec, draw: Gid)
    requires Wf(s) && Removing(s, g) && Usable(s, draw)
    ensures var t := DoAdd(s, spec, draw); g in t.groups && t.groups[g] == s.groups[g] && t.shuttingDown == s.shuttingDown
  {
    assert g in s.used;
  }

  lemma RemovingMove(s: State, g: Gid, h: Gid, pos: int, how: How)
    ensures var t := DoChangePosition(s, h, pos, how); t.groups == s.groups && t.shuttingDown == s.shuttingDown
  {
  }

  lemma RemovingShutdown(s: State, g: Gid, forced: bool)
    requires Wf(s) && Removing(s, g)
    ensures var t := DoShutdown(s, forced);
            g in t.groups && Removing(t, g) && Marks(s, t, Shutdown(forced), g)
  {
    assert g in s.active;
  }

  lemma RemovingPromote(s: State, g: Gid)
    requires Wf(s) && Removing(s, g)
    ensures var t := DoPromote(s); g in t.groups && t.groups[g] == s.groups[g] && t.shuttingDown == s.shuttingDown
  {
    hide Sub, DoPromote;
    PromoteTakesFirst(s);
    SubMembers(s.waiting, Unpaused(s));
    assert g !in s.waiting;
    PromoteKeepsFlag(s);
  }

  lemma PromoteKeepsFlag(s: State)
    ensures DoPromote(s).shuttingDown == s.shuttingDown
  {
  }

  // ----- Runs -----

  ghost predicate Quiet(steps: seq<Step>) {
    forall i :: 0 <= i < |steps| ==> !steps[i].Reap? && !steps[i].EndOfRun?
  }

  lemma LaterCons(step: Step, rest: seq<Step>, i: int, g: Gid)
    requires -1 <= i < |rest|
    ensures NoLaterRemoval([step] + rest, i + 1, g) <==> NoLaterRemoval(rest, i, g)
  {
    var all := [step] + rest;
    assert forall j :: 0 <= j < |rest| ==> all[j + 1] == rest[j];
    if NoLaterRemoval(all, i + 1, g) {
      forall j | i < j < |rest| && 0 <= j
        ensures !Removes(rest[j], g)
      {
        assert !Removes(all[j + 1], g);
      }
    }
  }

  lemma RequeuedFirst(step: Step, rest: seq<Step>, g: Gid)
    ensures RequeuedBy([step] + rest, g) <==> RequeuedBy(rest, g) || (Requeues(step, g) && NoLaterRemoval(rest, -1, g))
  {
    hide NoLaterRemoval, Requeues;
    var all := [step] + rest;
    assert forall j :: 0 <= j < |rest| ==> all[j + 1] == rest[j];
    LaterCons(step, rest, -1, g);
    if i :| 0 <= i < |rest| && Requeues(rest[i], g) && NoLaterRemoval(rest, i, g) {
      LaterCons(step, rest, i, g);
      assert Requeues(all[i + 1], g);
    }
    if i :| 0 < i < |all| && Requeues(all[i], g) && NoLaterRemoval(all, i, g) {
      LaterCons(step, rest, i - 1, g);
      assert Requeues(rest[i - 1], g);
    }
    if Requeues(step, g) && NoLaterRemoval(rest, -1, g) {
      assert Requeues(all[0], g);
    }
  }

  lemma RequeuedCons(step: Step, rest: seq<Step>, g: Gid, paused: bool)
    ensures RequeuedBy([step] + rest, g) || (paused && NoLaterRemoval([step] + rest, -1, g))
       <==> RequeuedBy(rest, g) || (PausedAfter(step, g, paused) && NoLaterRemoval(rest, -1, g))
  {
    hide NoLaterRemoval, RequeuedBy;
    RequeuedFirst(step, rest, g);
    FirstLater(step, rest, g);
  }

  lemma FirstLater(step: Step, rest: seq<Step>, g: Gid)
    ensures NoLaterRemoval([step] + rest, -1, g) <==> !Removes(step, g) && NoLaterRemoval(rest, -1, g)
  {
    var all := [step] + rest;
    assert all[0] == step && forall j :: 0 <= j < |rest| ==> all[j + 1] == rest[j];
    if NoLaterRemoval(all, -1, g) {
      forall j | -1 < j < |rest|
        ensures !Removes(rest[j], g)
      {
        assert !Removes(all[j + 1], g);
      }
    }
  }

  lemma ShutsDownCons(shutting: bool, step: Step, rest: seq<Step>, i: nat)
    requires i < |rest|
    ensures ShutsDown(shutting, [step] + rest, i + 1) <==> ShutsDown(shutting || step.Shutdown?, rest, i)
  {
    var all := [step] + rest;
    assert all[0] == step && forall j :: 0 <= j < |rest| ==> all[j + 1] == rest[j];
    if ShutsDown(shutting, all, i + 1) && !rest[i].forced {
      assert !all[0].Shutdown?;
      forall j | 0 <= j < i
        ensures !rest[j].Shutdown?
      {
        assert !all[j + 1].Shutdown?;
      }
    }
  }

  /** Whether the download was last told to stop by its user. */
  ghost predicate AskedAtEnd(shutting: bool, steps: seq<Step>, g: Gid, asked: bool) {
    !ShutDownBy(shutting, steps, g) && (asked || !NoLaterRemoval(steps, -1, g))
  }

  lemma ShutDownCons(shutting: bool, step: Step, rest: seq<Step>, g: Gid, asked: bool)
    ensures AskedAtEnd(shutting, [step] + rest, g, asked)
       <==> AskedAtEnd(shutting || step.Shutdown?, rest, g, AskedAfter(step, g, shutting, asked))
  {
    hide NoLaterRemoval, ShutsDown;
    var all := [step] + rest;
    var now := shutting || step.Shutdown?;
    assert forall j :: 0 <= j < |rest| ==> all[j + 1] == rest[j];
    LaterCons(step, rest, -1, g);
    FirstLater(step, rest, g);
    assert ShutsDown(shutting, all, 0) <==> step.Shutdown? && (step.forced || !shutting) by { FirstShutsDown(shutting, step, rest); }
    if i :| 0 <= i < |rest| && ShutsDown(now, rest, i) && NoLaterRemoval(rest, i, g) {
      LaterCons(step, rest, i, g);
      ShutsDownCons(shutting, step, rest, i);
      assert ShutsDown(shutting, all, i + 1) && NoLaterRemoval(all, i + 1, g);
    }
    if i :| 0 <= i < |all| && ShutsDown(shutting, all, i) && NoLaterRemoval(all, i, g) {
      if i > 0 {
        LaterCons(step, rest, i - 1, g);
        ShutsDownCons(shutting, step, rest, i - 1);
      }
    }
  }

  lemma FirstShutsDown(shutting: bool, step: Step, rest: seq<Step>)
    ensures ShutsDown(shutting, [step] + rest, 0) <==> step.Shutdown? && (step.forced || !shutting)
  {
  }

  lemma {:induction false} RemovingRun(s: State, steps: seq<Step>, g: Gid)
    requires Wf(s) && Runs(s, steps) && Removing(s, g) && Quiet(steps)
    ensures var t := After(s, steps);
            && Removing(t, g)
            && (t.groups[g].paused <==> RequeuedBy(steps, g) || (s.groups[g].paused && NoLaterRemoval(steps, -1, g)))
            && (t.groups[g].reason == UserRequest <==>
                  AskedAtEnd(s.shuttingDown, steps, g, s.groups[g].reason == UserRequest))
    decreases |steps|
  {
    hide Wf, Next, RequeuedBy, AskedAtEnd, NoLaterRemoval;
    if steps == [] {
      NothingHappens(s.shuttingDown, g, s.groups[g].reason == UserRequest);
    } else {
      var m := Next(s, steps[0]);
      RemovingStep(s, steps[0], g);
      StepKeeps(s, steps[0]);
      RemovingRun(m, steps[1..], g);
      assert steps == [steps[0]] + steps[1..];
      RequeuedCons(steps[0], steps[1..], g, s.groups[g].paused);
      ShutDownCons(s.shuttingDown, steps[0], steps[1..], g, s.groups[g].reason == UserRequest);
    }
  }

  lemma NothingHappens(shutting: bool, g: Gid, asked: bool)
    ensures !RequeuedBy([], g) && NoLaterRemoval([], -1, g) && (AskedAtEnd(shutting, [], g, asked) <==> asked)
  {
  }

  // ----- The end of a run on the way -----

  lemma {:induction false} EndedAsError(s: State, gids: seq<Gid>, g: Gid)
    requires g in gids && g in s.groups && s.groups[g].state == Active
    ensures exists c :: Stopped(g, Errored, c) in EndEachActive(s, gids).stopped
    decreases |gids|
  {
    hide EndEachActive, Without;
    assert gids == [gids[0]] + gids[1..];
    var m := EndActive(s, gids[0]);
    EndUnfold(s, gids);
    if gids[0] == g {
      var c := if s.groups[g].code != SUCCESS then s.groups[g].code else IN_PROGRESS;
      EndLog(m, gids[1..]);
      assert Stopped(g, Errored, c) in m.stopped;
    } else {
      EndedAsError(m, gids[1..], g);
    }
  }

  lemma EndOfRunErrs(s: State, g: Gid)
    requires Wf(s) && Removing(s, g)
    ensures exists c :: Stopped(g, Errored, c) in DoEndOfRun(s).stopped
  {
    hide EndEachActive, EndEachWaiting;
    assert g in s.active;
    EndedAsError(s, s.active, g);
    EndLog(EndEachActive(s, s.active), s.waiting);
  }

  /** A run with an end of run in it leaves the download with an error, whatever else happens. */
  lemma {:induction false} EndInRun(s: State, steps: seq<Step>, g: Gid)
    requires Wf(s) && Runs(s, steps) && Removing(s, g)
    requires (forall i :: 0 <= i < |steps| ==> !steps[i].Reap?) && EndOfRun in steps
    ensures exists c :: Stopped(g, Errored, c) in After(s, steps).stopped
    decreases |steps|
  {
    hide Wf, Next, Removing;
    assert steps == [steps[0]] + steps[1..];
    var m := Next(s, steps[0]);
    StepKeeps(s, steps[0]);
    if steps[0].EndOfRun? {
      EndOfRunErrs(s, g);
      EndIsNext(s);
      ResultsFinal(m, steps[1..]);
    } else {
      RemovingStep(s, steps[0], g);
      EndInRun(m, steps[1..], g);
    }
  }

  lemma EndIsNext(s: State)
    ensures Next(s, EndOfRun) == DoEndOfRun(s)
  {
  }

  // ----- The theorem -----

  lemma OneResult(s: State, g: Gid, a: Status, c: int, b: Status, d: int)
    requires Wf(s) && Stopped(g, a, c) in s.stopped && Stopped(g, b, d) in s.stopped
    ensures a == b && c == d
  {
  }

  lemma NotWaiting(s: State, g: Gid, a: Status, c: int)
    requires Wf(s) && Stopped(g, a, c) in s.stopped
    ensures g !in s.waiting
  {
    var i :| 0 <= i < |s.stopped| && s.stopped[i] == Stopped(g, a, c);
    assert g in StoppedIds(s.stopped);
  }

  /** At a reaping pass the marks of the download decide. */
  lemma ReapDecides(s: State, g: Gid)
    requires Wf(s) && Removing(s, g)
    ensures var r := DoReap(s);
            && Wf(r)
            && (Stopped(g, Removed, REMOVED) in r.stopped <==> !s.groups[g].paused && s.groups[g].reason == UserRequest)
            && (g in r.waiting <==> s.groups[g].paused)
  {
    hide ReapEach, Sub;
    assert g in s.active;
    var rg, r := s.groups[g], DoReap(s);
    StepKeeps(s, Reap);
    ReapedOnce(s, g);
    ReapEachReaches(s, Sub(s.active, Ended(s)), g);
    hide Wf;
    if rg.paused {
      WaitingNotStopped(r, g);
      if Stopped(g, Removed, REMOVED) in r.stopped {
        NotWaiting(r, g, Removed, REMOVED);
      }
    } else {
      var o := Outcome(rg);
      NotWaiting(r, g, o.0, o.1);
      if Stopped(g, Removed, REMOVED) in r.stopped {
        OneResult(r, g, o.0, o.1, Removed, REMOVED);
      }
    }
  }

  /**
    A running download is removed, then any steps happen, then the next reaping
    pass comes. It is stopped as removed exactly when no end of run is among the
    steps and, after its last removal, no pause or option change of it and no
    shutdown that takes effect. It is back in the waiting queue exactly when
    there is such a pause or option change and no end of run.
   */
  lemma RemovalExact(s: State, g: Gid, forced: bool, steps: seq<Step>)
    requires Wf(s) && g in s.active && s.groups[g].worker != NoWorker
    requires Runs(DoRemove(s, g, forced), steps) && forall i :: 0 <= i < |steps| ==> !steps[i].Reap?
    ensures var r := DoReap(After(DoRemove(s, g, forced), steps));
            && Wf(r)
            && (Stopped(g, Removed, REMOVED) in r.stopped <==>
                  EndOfRun !in steps && !RequeuedBy(steps, g) && !ShutDownBy(s.shuttingDown, steps, g))
            && (g in r.waiting <==> EndOfRun !in steps && RequeuedBy(steps, g))
  {
    var m := DoRemove(s, g, forced);
    RemoveKeeps(s, g, forced);
    assert Removing(m, g) && !m.groups[g].paused && m.groups[g].reason == UserRequest && m.shuttingDown == s.shuttingDown by {
      ActiveState(s, g);
    }
    hide Wf, DoRemove, Removing, RequeuedBy, ShutDownBy, DoReap;
    RunKeeps(m, steps);
    var t := After(m, steps);
    if EndOfRun in steps {
      EndInRun(m, steps, g);
      var c :| Stopped(g, Errored, c) in t.stopped;
      ReapKeepsLog(t);
      NotWaiting(DoReap(t), g, Errored, c);
      if Stopped(g, Removed, REMOVED) in DoReap(t).stopped {
        OneResult(DoReap(t), g, Errored, c, Removed, REMOVED);
      }
    } else {
      RemovingRun(m, steps, g);
      ReapDecides(t, g);
    }
  }

  lemma ReapKeepsLog(s: State)
    requires Wf(s)
    ensures s.stopped <= DoReap(s).stopped && Wf(DoReap(s))
  {
    StepLog(s, Reap);
    StepKeeps(s, Reap);
  }

  /** With no second removal among the steps the condition is that none of the disturbing ones is. */
  lemma RemovalFinal(s: State, g: Gid, forced: bool, steps: seq<Step>)
    requires Wf(s) && g in s.active && s.groups[g].worker != NoWorker
    requires Runs(DoRemove(s, g, forced), steps) && forall i :: 0 <= i < |steps| ==> !steps[i].Reap? && !Removes(steps[i], g)
    ensures Stopped(g, Removed, REMOVED) in DoReap(After(DoRemove(s, g, forced), steps)).stopped <==>
              forall i :: 0 <= i < |steps| ==>
                !Requeues(steps[i], g) && !ShutsDown(s.shuttingDown, steps, i) && !steps[i].EndOfRun?
  {
    hide Wf, DoRemove, ShutsDown, DoReap;
    RemovalExact(s, g, forced, steps);
    forall i | 0 <= i < |steps|
      ensures NoLaterRemoval(steps, i, g)
    {
    }
  }
}
