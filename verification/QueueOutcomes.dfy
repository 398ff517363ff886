/** What becomes of a running download: the exact outcome of every history up to the next reaping pass. */
module QueueOutcomes {
  import opened Lists
  import opened QueueSpec
  import opened QueueInvariants
  import opened QueueEffects
  import opened QueueRemoval

  // ----- Histories -----

  /** A step that ends the download's worker, whatever it was for. */
  predicate Stops(step: Step, g: Gid) {
    (step.Finish? || step.Pause? || step.Remove? || step.ChangeOption?) && step.gid == g
  }

  ghost predicate EndsAt(shutting: bool, steps: seq<Step>, i: nat, g: Gid)
    requires i < |steps|
  {
    Stops(steps[i], g) || ShutsDown(shutting, steps, i)
  }

  ghost predicate EndedBy(shutting: bool, steps: seq<Step>, g: Gid) {
    exists i :: 0 <= i < |steps| && EndsAt(shutting, steps, i, g)
  }

  /** The worker ended by itself with this code, before anything else ended it. */
  ghost predicate FinishedFirst(shutting: bool, steps: seq<Step>, g: Gid, code: int) {
    exists i :: 0 <= i < |steps| && steps[i] == Finish(g, code) && NoneEndsBefore(shutting, steps, i, g)
  }

  ghost predicate NoneEndsBefore(shutting: bool, steps: seq<Step>, i: nat, g: Gid)
    requires i <= |steps|
  {
    forall j :: 0 <= j < i ==> !EndsAt(shutting, steps, j, g)
  }

  ghost predicate RemovedBy(steps: seq<Step>, g: Gid) {
    exists i :: 0 <= i < |steps| && Removes(steps[i], g)
  }

  /** After its last removal, if there is one, its options are changed. */
  ghost predicate RestartedBy(steps: seq<Step>, g: Gid) {
    exists i :: 0 <= i < |steps| && Restarts(steps[i], g) && NoLaterRemoval(steps, i, g)
  }

  predicate Restarts(step: Step, g: Gid) {
    step == ChangeOption(g)
  }

  // ----- One step -----

  /** Active in a running engine, with a worker, which a pause has ended. */
  ghost predicate Engaged(s: State, g: Gid) {
    && g in s.groups && s.groups[g].state == Active && s.groups[g].worker != NoWorker && s.running
    && (s.groups[g].paused ==> s.groups[g].worker == Halted)
  }

  predicate EffectiveShutdown(step: Step, shutting: bool) {
    step.Shutdown? && (step.forced || !shutting)
  }

  predicate EndsNow(step: Step, g: Gid, shutting: bool) {
    Stops(step, g) || EffectiveShutdown(step, shutting)
  }

  function RestartAfter(step: Step, g: Gid, restart: bool): bool {
    if Restarts(step, g) then true else if Removes(step, g) then false else restart
  }

  function CodeAfter(step: Step, g: Gid, working: bool, code: int): int {
    if working && step.Finish? && step.gid == g then step.code else code
  }

  ghost predicate Tracks(rg: Group, rg': Group, step: Step, g: Gid, shutting: bool) {
    && rg'.paused == PausedAfter(step, g, rg.paused)
    && rg'.restart == RestartAfter(step, g, rg.restart)
    && (rg'.reason == UserRequest) == AskedAfter(step, g, shutting, rg.reason == UserRequest)
    && (rg'.worker == Halted) == (rg.worker == Halted || EndsNow(step, g, shutting))
    && rg'.code == CodeAfter(step, g, rg.worker == Working, rg.code)
    && (rg.halt || Removes(step, g) || EffectiveShutdown(step, shutting) ==> rg'.halt)
    && (rg'.halt ==> rg.halt || Removes(step, g) || EffectiveShutdown(step, shutting) || Pauses(step, g))
  }

  ghost predicate Advances(s: State, t: State, step: Step, g: Gid)
    requires g in s.groups
  {
    && Engaged(t, g) && t.shuttingDown == (s.shuttingDown || step.Shutdown?)
    && Tracks(s.groups[g], t.groups[g], step, g, s.shuttingDown)
  }

  lemma Unmoved(s: State, t: State, step: Step, g: Gid)
    requires Engaged(s, g) && g in t.groups && t.groups[g] == s.groups[g] && t.running == s.running
    requires t.shuttingDown == s.shuttingDown && !step.Shutdown? && !Stops(step, g)
    ensures Advances(s, t, step, g)
  {
  }

  lemma AdvancePause(s: State, g: Gid, h: Gid, forced: bool)
    requires Engaged(s, g)
    ensures Advances(s, DoPause(s, h, forced), Pause(h, forced), g)
  {
    hide Without;
    var t := DoPause(s, h, forced);
    if h != g {
      Unmoved(s, t, Pause(h, forced), g);
    } else if !s.groups[g].paused {
      var rg := s.groups[g];
      var asked := if forced then rg.(paused := true, force := true) else rg.(paused := true, halt := true);
      assert t.groups[g] == asked.(worker := Halted);
    }
  }

  lemma AdvanceRemove(s: State, g: Gid, h: Gid, forced: bool)
    requires Engaged(s, g)
    ensures Advances(s, DoRemove(s, h, forced), Remove(h, forced), g)
  {
    hide Without;
    var t := DoRemove(s, h, forced);
    if h != g {
      Unmoved(s, t, Remove(h, forced), g);
    } else {
      assert t.groups[g] == s.groups[g].(halt := true, force := forced, reason := UserRequest, paused := false,
                                         restart := false, worker := Halted);
    }
  }

  lemma AdvanceOption(s: State, g: Gid, h: Gid)
    requires Engaged(s, g)
    ensures Advances(s, DoChangeOption(s, h), ChangeOption(h), g)
  {
    if h != g {
      Unmoved(s, DoChangeOption(s, h), ChangeOption(h), g);
    }
  }

  lemma AdvanceFinish(s: State, g: Gid, h: Gid, code: int)
    requires Engaged(s, g)
    ensures Advances(s, DoFinish(s, h, code), Finish(h, code), g)
  {
    if h != g {
      Unmoved(s, DoFinish(s, h, code), Finish(h, code), g);
    }
  }

  lemma AdvanceShutdown(s: State, g: Gid, forced: bool)
    requires Wf(s) && Engaged(s, g)
    ensures Advances(s, DoShutdown(s, forced), Shutdown(forced), g)
  {
    assert g in s.active;
    hide Wf;
    var t, rg := DoShutdown(s, forced), s.groups[g];
    if forced || !s.shuttingDown {
      assert t.groups[g] == rg.(halt := true, reason := ShutdownSignal, force := rg.force || forced, worker := Halted);
    }
  }

  lemma AdvanceOthers(s: State, step: Step, g: Gid)
    requires Wf(s) && Enabled(s, step) && Engaged(s, g)
    requires step.Add? || step.Resume? || step.ChangePosition? || step.Start? || step.SetMax? || step.Promote?
    ensures Advances(s, Next(s, step), step, g)
  {
    match step {
      case Add(spec, draw) => assert g in s.used;
      case Promote => PromotedOthers(s, g);
      case _ =>
    }
    hide Wf, DoPromote;
    Unmoved(s, Next(s, step), step, g);
  }

  lemma PromotedOthers(s: State, g: Gid)
    requires Wf(s) && Engaged(s, g)
    ensures var t := DoPromote(s); g in t.groups && t.groups[g] == s.groups[g] && t.running == s.running
    ensures DoPromote(s).shuttingDown == s.shuttingDown
  {
    assert g !in s.waiting;
    hide Wf, Sub, DoPromote;
    PromoteTakesFirst(s);
    SubMembers(s.waiting, Unpaused(s));
    PromoteKeepsFlag(s);
    PromoteKeepsRunning(s);
  }

  lemma PromoteKeepsRunning(s: State)
    ensures DoPromote(s).running == s.running
  {
  }

  lemma StepAdvances(s: State, step: Step, g: Gid)
    requires Wf(s) && Enabled(s, step) && Engaged(s, g) && !step.Reap? && !step.EndOfRun?
    ensures Advances(s, Next(s, step), step, g)
  {
    hide Wf, Engaged, Tracks, DoPause, DoRemove, DoChangeOption, DoFinish, DoShutdown, Advances;
    match step {
      case Pause(h, forced) => AdvancePause(s, g, h, forced);
      case Remove(h, forced) => AdvanceRemove(s, g, h, forced);
      case ChangeOption(h) => AdvanceOption(s, g, h);
      case Finish(h, code) => AdvanceFinish(s, g, h, code);
      case Shutdown(forced) => AdvanceShutdown(s, g, forced);
      case _ => AdvanceOthers(s, step, g);
    }
  }

  // ----- Runs -----

  lemma EndsCons(shutting: bool, step: Step, rest: seq<Step>, i: nat, g: Gid)
    requires i < |rest|
    ensures EndsAt(shutting, [step] + rest, i + 1, g) <==> EndsAt(shutting || step.Shutdown?, rest, i, g)
  {
    hide ShutsDown;
    ShutsDownCons(shutting, step, rest, i);
    assert ([step] + rest)[i + 1] == rest[i];
  }

  lemma EndsFirst(shutting: bool, step: Step, rest: seq<Step>, g: Gid)
    ensures EndsAt(shutting, [step] + rest, 0, g) <==> EndsNow(step, g, shutting)
  {
    hide ShutsDown;
    FirstShutsDown(shutting, step, rest);
  }

  lemma EndedCons(shutting: bool, step: Step, rest: seq<Step>, g: Gid)
    ensures EndedBy(shutting, [step] + rest, g) <==> EndsNow(step, g, shutting) || EndedBy(shutting || step.Shutdown?, rest, g)
  {
    hide EndsAt, EndsNow;
    var all, now := [step] + rest, shutting || step.Shutdown?;
    EndsFirst(shutting, step, rest, g);
    if i :| 0 <= i < |rest| && EndsAt(now, rest, i, g) {
      EndsCons(shutting, step, rest, i, g);
      assert EndsAt(shutting, all, i + 1, g);
    }
    if i :| 0 < i < |all| && EndsAt(shutting, all, i, g) {
      EndsCons(shutting, step, rest, i - 1, g);
    }
  }

  lemma BeforeCons(shutting: bool, step: Step, rest: seq<Step>, i: nat, g: Gid)
    requires i <= |rest|
    ensures NoneEndsBefore(shutting, [step] + rest, i + 1, g)
       <==> !EndsNow(step, g, shutting) && NoneEndsBefore(shutting || step.Shutdown?, rest, i, g)
  {
    hide EndsAt, EndsNow;
    var all, now := [step] + rest, shutting || step.Shutdown?;
    EndsFirst(shutting, step, rest, g);
    forall j | 0 <= j < |rest|
      ensures EndsAt(shutting, all, j + 1, g) <==> EndsAt(now, rest, j, g)
    {
      EndsCons(shutting, step, rest, j, g);
    }
    if NoneEndsBefore(shutting, all, i + 1, g) {
      forall j | 0 <= j < i
        ensures !EndsAt(now, rest, j, g)
      {
        assert !EndsAt(shutting, all, j + 1, g);
      }
    }
    if !EndsAt(shutting, all, 0, g) && NoneEndsBefore(now, rest, i, g) {
      forall j | 0 <= j < i + 1
        ensures !EndsAt(shutting, all, j, g)
      {
        if j > 0 {
          assert !EndsAt(now, rest, j - 1, g);
        }
      }
    }
  }

  lemma FinishedCons(shutting: bool, step: Step, rest: seq<Step>, g: Gid, code: int)
    ensures FinishedFirst(shutting, [step] + rest, g, code)
       <==> step == Finish(g, code)
            || (!EndsNow(step, g, shutting) && FinishedFirst(shutting || step.Shutdown?, rest, g, code))
  {
    hide NoneEndsBefore, EndsNow;
    var all, now := [step] + rest, shutting || step.Shutdown?;
    assert all[0] == step && NoneEndsBefore(shutting, all, 0, g) by { NothingBefore(shutting, all, g); }
    if i :| 0 <= i < |rest| && rest[i] == Finish(g, code) && NoneEndsBefore(now, rest, i, g) {
      BeforeCons(shutting, step, rest, i, g);
      assert all[i + 1] == Finish(g, code);
    }
    if i :| 0 < i < |all| && all[i] == Finish(g, code) && NoneEndsBefore(shutting, all, i, g) {
      BeforeCons(shutting, step, rest, i - 1, g);
      assert rest[i - 1] == Finish(g, code);
    }
  }

  lemma NothingBefore(shutting: bool, steps: seq<Step>, g: Gid)
    ensures NoneEndsBefore(shutting, steps, 0, g)
  {
  }

  lemma RestartedCons(step: Step, rest: seq<Step>, g: Gid, restart: bool)
    ensures RestartedBy([step] + rest, g) || (restart && NoLaterRemoval([step] + rest, -1, g))
       <==> RestartedBy(rest, g) || (RestartAfter(step, g, restart) && NoLaterRemoval(rest, -1, g))
  {
    hide NoLaterRemoval, RestartedBy;
    RestartedFirst(step, rest, g);
    FirstLater(step, rest, g);
  }

  lemma RestartedFirst(step: Step, rest: seq<Step>, g: Gid)
    ensures RestartedBy([step] + rest, g) <==> RestartedBy(rest, g) || (Restarts(step, g) && NoLaterRemoval(rest, -1, g))
  {
    hide NoLaterRemoval, Restarts;
    var all := [step] + rest;
    assert all[0] == step && forall j :: 0 <= j < |rest| ==> all[j + 1] == rest[j];
    LaterCons(step, rest, -1, g);
    if i :| 0 <= i < |rest| && Restarts(rest[i], g) && NoLaterRemoval(rest, i, g) {
      LaterCons(step, rest, i, g);
      assert Restarts(all[i + 1], g);
    }
    if i :| 0 < i < |all| && Restarts(all[i], g) && NoLaterRemoval(all, i, g) {
      LaterCons(step, rest, i - 1, g);
      assert Restarts(rest[i - 1], g);
    }
    if Restarts(step, g) && NoLaterRemoval(rest, -1, g) {
      assert Restarts(all[0], g);
    }
  }

  /** Something in the history tells the download to halt. */
  ghost predicate ToldToHalt(shutting: bool, steps: seq<Step>, g: Gid) {
    RemovedBy(steps, g) || SomeShutdown(shutting, steps)
  }

  ghost predicate SomeShutdown(shutting: bool, steps: seq<Step>) {
    exists i :: 0 <= i < |steps| && ShutsDown(shutting, steps, i)
  }

  predicate Pauses(step: Step, g: Gid) {
    step.Pause? && step.gid == g
  }

  ghost predicate PausedBy(steps: seq<Step>, g: Gid) {
    exists i :: 0 <= i < |steps| && Pauses(steps[i], g)
  }

  lemma RemovedCons(step: Step, rest: seq<Step>, g: Gid)
    ensures RemovedBy([step] + rest, g) <==> Removes(step, g) || RemovedBy(rest, g)
  {
    hide Removes;
    var all := [step] + rest;
    assert all[0] == step && forall j :: 0 <= j < |rest| ==> all[j + 1] == rest[j];
    if i :| 0 <= i < |rest| && Removes(rest[i], g) {
      assert Removes(all[i + 1], g);
    }
    if i :| 0 < i < |all| && Removes(all[i], g) {
      assert Removes(rest[i - 1], g);
    }
    assert Removes(step, g) == Removes(all[0], g);
  }

  lemma PausedCons(step: Step, rest: seq<Step>, g: Gid)
    ensures PausedBy([step] + rest, g) <==> Pauses(step, g) || PausedBy(rest, g)
  {
    hide Pauses;
    var all := [step] + rest;
    assert all[0] == step && forall j :: 0 <= j < |rest| ==> all[j + 1] == rest[j];
    if i :| 0 <= i < |rest| && Pauses(rest[i], g) {
      assert Pauses(all[i + 1], g);
    }
    if i :| 0 < i < |all| && Pauses(all[i], g) {
      assert Pauses(rest[i - 1], g);
    }
    assert Pauses(step, g) == Pauses(all[0], g);
  }

  lemma SomeShutdownCons(shutting: bool, step: Step, rest: seq<Step>)
    ensures SomeShutdown(shutting, [step] + rest)
       <==> EffectiveShutdown(step, shutting) || SomeShutdown(shutting || step.Shutdown?, rest)
  {
    hide ShutsDown;
    var all, now := [step] + rest, shutting || step.Shutdown?;
    FirstShutsDown(shutting, step, rest);
    if i :| 0 <= i < |rest| && ShutsDown(now, rest, i) {
      ShutsDownCons(shutting, step, rest, i);
      assert ShutsDown(shutting, all, i + 1);
    }
    if i :| 0 < i < |all| && ShutsDown(shutting, all, i) {
      ShutsDownCons(shutting, step, rest, i - 1);
    }
  }

  ghost predicate CodeIs(shutting: bool, steps: seq<Step>, g: Gid, before: int, code: int) {
    && (forall c :: FinishedFirst(shutting, steps, g, c) ==> code == c)
    && ((forall c :: !FinishedFirst(shutting, steps, g, c)) ==> code == before)
  }

  /** The marks of the download after a history, from those before it. */
  ghost predicate Ran(rg: Group, rg': Group, shutting: bool, steps: seq<Step>, g: Gid) {
    && (rg'.paused <==> RequeuedBy(steps, g) || (rg.paused && NoLaterRemoval(steps, -1, g)))
    && (rg'.restart <==> RestartedBy(steps, g) || (rg.restart && NoLaterRemoval(steps, -1, g)))
    && (rg'.reason == UserRequest <==> AskedAtEnd(shutting, steps, g, rg.reason == UserRequest))
    && (rg'.worker == Halted <==> rg.worker == Halted || EndedBy(shutting, steps, g))
    && (if rg.worker == Halted then rg'.code == rg.code else CodeIs(shutting, steps, g, rg.code, rg'.code))
    && (rg.halt || ToldToHalt(shutting, steps, g) ==> rg'.halt)
    && (rg'.halt ==> rg.halt || ToldToHalt(shutting, steps, g) || PausedBy(steps, g))
  }

  lemma RanNone(rg: Group, shutting: bool, g: Gid)
    ensures Ran(rg, rg, shutting, [], g)
  {
    NothingHappens(shutting, g, rg.reason == UserRequest);
  }

  lemma CodeCons(rg: Group, m: Group, code: int, shutting: bool, step: Step, rest: seq<Step>, g: Gid)
    requires rg.worker == Working && Tracks(rg, m, step, g, shutting)
    requires if m.worker == Halted then code == m.code else CodeIs(shutting || step.Shutdown?, rest, g, m.code, code)
    ensures CodeIs(shutting, [step] + rest, g, rg.code, code)
  {
    hide FinishedFirst;
    forall c
      ensures FinishedFirst(shutting, [step] + rest, g, c)
         <==> step == Finish(g, c) || (!EndsNow(step, g, shutting) && FinishedFirst(shutting || step.Shutdown?, rest, g, c))
    {
      FinishedCons(shutting, step, rest, g, c);
    }
    if step.Finish? && step.gid == g {
      assert FinishedFirst(shutting, [step] + rest, g, step.code);
    } else if !EndsNow(step, g, shutting) {
      var now := shutting || step.Shutdown?;
      if c :| FinishedFirst(now, rest, g, c) {
        assert FinishedFirst(shutting, [step] + rest, g, c);
      }
    }
  }

  lemma RanCons(rg: Group, m: Group, rg': Group, shutting: bool, step: Step, rest: seq<Step>, g: Gid)
    requires rg.worker != NoWorker && m.worker != NoWorker
    requires Tracks(rg, m, step, g, shutting) && Ran(m, rg', shutting || step.Shutdown?, rest, g)
    ensures Ran(rg, rg', shutting, [step] + rest, g)
  {
    hide RequeuedBy, RestartedBy, AskedAtEnd, EndedBy, NoLaterRemoval, RemovedBy, SomeShutdown, PausedBy, CodeIs;
    RequeuedCons(step, rest, g, rg.paused);
    RestartedCons(step, rest, g, rg.restart);
    ShutDownCons(shutting, step, rest, g, rg.reason == UserRequest);
    EndedCons(shutting, step, rest, g);
    RemovedCons(step, rest, g);
    SomeShutdownCons(shutting, step, rest);
    PausedCons(step, rest, g);
    if rg.worker == Working {
      CodeCons(rg, m, rg'.code, shutting, step, rest, g);
    }
  }

  lemma {:induction false} RunAdvances(s: State, steps: seq<Step>, g: Gid)
    requires Wf(s) && Runs(s, steps) && Engaged(s, g) && Quiet(steps)
    ensures var t := After(s, steps); Engaged(t, g) && Ran(s.groups[g], t.groups[g], s.shuttingDown, steps, g)
    decreases |steps|
  {
    hide Wf, Next, Ran, Tracks;
    if steps == [] {
      RanNone(s.groups[g], s.shuttingDown, g);
    } else {
      var m := Next(s, steps[0]);
      StepAdvances(s, steps[0], g);
      StepKeeps(s, steps[0]);
      RunAdvances(m, steps[1..], g);
      assert steps == [steps[0]] + steps[1..];
      RanCons(s.groups[g], m.groups[g], After(s, steps).groups[g], s.shuttingDown, steps[0], steps[1..], g);
    }
  }

  // ----- At the reaping pass -----

  lemma {:induction false} ReapEachGroup(s: State, gids: seq<Gid>, g: Gid)
    requires Wf(s) && ActiveList(s, gids) && g in s.groups
    ensures var r := ReapEach(s, gids);
            && (g !in gids ==> g in r.groups && r.groups[g] == s.groups[g])
            && (g in gids && s.groups[g].paused ==>
                  g in r.groups && r.groups[g].state == Waiting && r.groups[g].paused == !s.groups[g].restart
                  && !r.groups[g].restart && !r.groups[g].halt && r.groups[g].reason == NoReason)
    decreases |gids|
  {
    hide Wf;
    if gids != [] {
      var h, rest := gids[0], gids[1..];
      assert gids == [h] + rest;
      ReapOneKeeps(s, h);
      var m := ReapOne(s, h);
      if h == g {
        if s.groups[g].paused {
          ReapedKept(m, rest, g);
        }
      } else {
        ReapEachGroup(m, rest, g);
      }
    }
  }

  /** What is not in the list is not touched. */
  lemma {:induction false} ReapedKept(s: State, gids: seq<Gid>, g: Gid)
    requires g in s.groups && g !in gids
    ensures var r := ReapEach(s, gids); g in r.groups && r.groups[g] == s.groups[g]
    decreases |gids|
  {
    if gids != [] {
      ReapedKept(ReapOne(s, gids[0]), gids[1..], g);
    }
  }

  /** The result of an ended download that is not to wait again. */
  lemma ReapedResult(s: State, g: Gid)
    requires Wf(s) && Engaged(s, g) && s.groups[g].worker == Halted && !s.groups[g].paused
    ensures var r, rg := DoReap(s), s.groups[g];
            && Wf(r)
            && (rg.halt && rg.reason == UserRequest ==> Stopped(g, Removed, 31) in r.stopped)
            && (rg.halt && rg.reason != UserRequest ==> Stopped(g, Errored, if rg.code != 0 then rg.code else 255) in r.stopped)
            && (!rg.halt ==> Stopped(g, if rg.code == 0 then Complete else Errored, rg.code) in r.stopped)
  {
    hide ReapEach, Sub;
    assert g in s.active;
    StepKeeps(s, Reap);
    ReapedOnce(s, g);
    ReapEachReaches(s, Sub(s.active, Ended(s)), g);
  }

  lemma ReapedWaits(s: State, g: Gid)
    requires Wf(s) && Engaged(s, g) && s.groups[g].paused
    ensures var r := DoReap(s);
            Wf(r) && g in r.waiting && g in r.groups && r.groups[g].paused == !s.groups[g].restart
  {
    hide ReapEach, Sub;
    assert g in s.active;
    StepKeeps(s, Reap);
    ReapedOnce(s, g);
    ReapEachReaches(s, Sub(s.active, Ended(s)), g);
    ReapEachGroup(s, Sub(s.active, Ended(s)), g);
  }

  lemma NotReaped(s: State, g: Gid)
    requires Wf(s) && Engaged(s, g) && s.groups[g].worker == Working
    ensures var r := DoReap(s); Wf(r) && g in r.active && g in r.groups && r.groups[g] == s.groups[g]
  {
    hide ReapEach, Sub;
    assert g in s.active;
    StepKeeps(s, Reap);
    EndedActive(s);
    SubMembers(s.active, Ended(s));
    ReapEachGroup(s, Sub(s.active, Ended(s)), g);
  }

  // ----- The theorem -----

  /** A worker that nobody has told anything yet. */
  ghost predicate Fresh(s: State, g: Gid) {
    && Engaged(s, g) && s.groups[g].worker == Working && !s.groups[g].paused && !s.groups[g].restart && !s.groups[g].halt
    && s.groups[g].reason != UserRequest
  }

  /** Not told anything: then only a shutdown or the worker itself can have ended it. */
  lemma LeftAlone(shutting: bool, steps: seq<Step>, g: Gid)
    requires !RequeuedBy(steps, g) && !RemovedBy(steps, g)
    ensures !PausedBy(steps, g) && (SomeShutdown(shutting, steps) <==> ShutDownBy(shutting, steps, g))
    ensures EndedBy(shutting, steps, g) && !ShutDownBy(shutting, steps, g) ==> exists c :: FinishedFirst(shutting, steps, g, c)
  {
    hide ShutsDown;
    forall i | 0 <= i < |steps|
      ensures NoLaterRemoval(steps, i, g) && !Requeues(steps[i], g) && !Removes(steps[i], g)
    {
    }
    if i :| 0 <= i < |steps| && ShutsDown(shutting, steps, i) {
      assert NoLaterRemoval(steps, i, g);
    }
    if EndedBy(shutting, steps, g) && !ShutDownBy(shutting, steps, g) {
      var i :| 0 <= i < |steps| && EndsAt(shutting, steps, i, g);
      var k := FirstEnd(shutting, steps, g, i);
      assert NoLaterRemoval(steps, k, g) && !ShutsDown(shutting, steps, k);
      assert steps[k].Finish? && steps[k] == Finish(g, steps[k].code);
      assert FinishedFirst(shutting, steps, g, steps[k].code);
    }
  }

  lemma {:induction false} FirstEnd(shutting: bool, steps: seq<Step>, g: Gid, i: nat) returns (k: nat)
    requires i < |steps| && EndsAt(shutting, steps, i, g)
    ensures k <= i && EndsAt(shutting, steps, k, g) && NoneEndsBefore(shutting, steps, k, g)
  {
    hide EndsAt;
    if j :| 0 <= j < i && EndsAt(shutting, steps, j, g) {
      k := FirstEnd(shutting, steps, g, j);
    } else {
      k := i;
    }
  }

  lemma RemovedMeans(shutting: bool, steps: seq<Step>, g: Gid)
    ensures RemovedBy(steps, g) <==> !NoLaterRemoval(steps, -1, g)
    ensures AskedAtEnd(shutting, steps, g, false) <==> RemovedBy(steps, g) && !ShutDownBy(shutting, steps, g)
    ensures RequeuedBy(steps, g) || RemovedBy(steps, g) || ShutDownBy(shutting, steps, g) ==> EndedBy(shutting, steps, g)
  {
    hide ShutsDown;
    if i :| 0 <= i < |steps| && Requeues(steps[i], g) && NoLaterRemoval(steps, i, g) {
      assert EndsAt(shutting, steps, i, g);
    }
    if i :| 0 <= i < |steps| && Removes(steps[i], g) {
      assert EndsAt(shutting, steps, i, g);
    }
    if i :| 0 <= i < |steps| && ShutsDown(shutting, steps, i) && NoLaterRemoval(steps, i, g) {
      assert EndsAt(shutting, steps, i, g);
    }
  }

  lemma StillFresh(s: State, t: State, steps: seq<Step>, g: Gid)
    requires Fresh(s, g) && Wf(t) && Engaged(t, g) && Ran(s.groups[g], t.groups[g], s.shuttingDown, steps, g)
    requires !EndedBy(s.shuttingDown, steps, g)
    ensures var r := DoReap(t); Wf(r) && g in r.active && Fresh(r, g)
  {
    forall i | 0 <= i < |steps|
      ensures !Stops(steps[i], g) && !ShutsDown(s.shuttingDown, steps, i)
    {
      assert !EndsAt(s.shuttingDown, steps, i, g);
    }
    RemovedMeans(s.shuttingDown, steps, g);
    hide ShutsDown, Wf, DoReap, AskedAtEnd, FinishedFirst, NoLaterRemoval;
    assert !RequeuedBy(steps, g) && !RestartedBy(steps, g) && !RemovedBy(steps, g) && !PausedBy(steps, g);
    NotReaped(t, g);
    ReapKeepsRunning(t);
  }

  lemma {:induction false} ReapEachRunning(s: State, gids: seq<Gid>)
    ensures ReapEach(s, gids).running == s.running
    decreases |gids|
  {
    if gids != [] {
      ReapEachRunning(ReapOne(s, gids[0]), gids[1..]);
    }
  }

  lemma ReapKeepsRunning(s: State)
    ensures DoReap(s).running == s.running
  {
    ReapEachRunning(s, Sub(s.active, Ended(s)));
  }

  /**
    A running download, any steps, then the next reaping pass. Nothing ended it:
    it runs on. It was paused or its options were changed, and not removed
    since: it waits, and a change of options lets it run again. It was removed,
    and no shutdown came since: it is logged as removed. It was told to halt by
    a shutdown: it is logged as an error, with its own code if it has one. Else
    it ended by itself: it is logged as complete exactly for code 0, and as an
    error with its code otherwise.
   */
  lemma OutcomeExact(s: State, g: Gid, steps: seq<Step>)
    requires Wf(s) && Fresh(s, g) && Runs(s, steps) && Quiet(steps)
    ensures var r, shut := DoReap(After(s, steps)), s.shuttingDown;
            && Wf(r)
            && (if !EndedBy(shut, steps, g) then g in r.active && Fresh(r, g)
                else if RequeuedBy(steps, g) then g in r.waiting && g in r.groups && r.groups[g].paused == !RestartedBy(steps, g)
                else if RemovedBy(steps, g) && !ShutDownBy(shut, steps, g) then Stopped(g, Removed, 31) in r.stopped
                else if ShutDownBy(shut, steps, g) then
                  exists c :: CodeIs(shut, steps, g, s.groups[g].code, c)
                              && Stopped(g, Errored, if c != 0 then c else 255) in r.stopped
                else
                  exists c :: FinishedFirst(shut, steps, g, c)
                              && Stopped(g, if c == 0 then Complete else Errored, c) in r.stopped)
  {
    var t := After(s, steps);
    RunAdvances(s, steps, g);
    RunKeeps(s, steps);
    RemovedMeans(s.shuttingDown, steps, g);
    hide Wf, DoReap, RequeuedBy, RemovedBy, ShutDownBy, EndedBy, FinishedFirst, RestartedBy, AskedAtEnd, NoLaterRemoval;
    hide SomeShutdown, PausedBy, After;
    if !EndedBy(s.shuttingDown, steps, g) {
      StillFresh(s, t, steps, g);
    } else if RequeuedBy(steps, g) {
      ReapedWaits(t, g);
    } else {
      ReapedResult(t, g);
      if RemovedBy(steps, g) {
        assert t.groups[g].halt;
        assert CodeIs(s.shuttingDown, steps, g, s.groups[g].code, t.groups[g].code);
      } else {
        LeftAlone(s.shuttingDown, steps, g);
        assert CodeIs(s.shuttingDown, steps, g, s.groups[g].code, t.groups[g].code);
        if !ShutDownBy(s.shuttingDown, steps, g) {
          var c :| FinishedFirst(s.shuttingDown, steps, g, c);
          assert t.groups[g].code == c;
        }
      }
    }
  }
}
