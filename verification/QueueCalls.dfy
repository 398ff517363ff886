/** What calls and passes do to downloads that are not running: additions, waiting downloads, promotion, the end of a run. */
module QueueCalls {
  import opened Bytes
  import opened Lists
  import opened QueueSpec
  import opened QueueInvariants
  import opened QueueEffects
  import opened QueueRemoval
  import opened QueueOutcomes

  // ----- Additions -----

  /** Where an addition lands: where it was asked to, if there is such a place, else at the end. */
  ghost predicate LandsAt(q: seq<Gid>, position: Option<int>, k: nat) {
    if position.Some? && 0 <= position.value <= |q| then k == position.value else k == |q|
  }

  /** A new waiting download, which nobody has told anything. */
  predicate NewlyWaiting(rg: Group, paused: bool) {
    && rg.state == Waiting && rg.paused == paused && rg.worker == NoWorker && rg.code == 0
    && !rg.restart && !rg.halt && !rg.force && rg.reason == NoReason
  }

  /** The download is queued and nothing else changes. */
  ghost predicate Queues(s: State, spec: AddSpec, g: Gid, r: State) {
    && g !in s.groups && g in r.groups && NewlyWaiting(r.groups[g], spec.pause && s.keepRunning)
    && r.groups - {g} == s.groups && r.used == s.used + {g}
    && Without(r.waiting, g) == s.waiting
    && (exists k :: 0 <= k < |r.waiting| && r.waiting[k] == g && LandsAt(s.waiting, spec.position, k))
    && r == s.(groups := r.groups, waiting := r.waiting, used := r.used)
  }

  /** The GID is the requested one, if it is not zero and was never issued; without a request, the drawn one. */
  ghost predicate Gets(s: State, spec: AddSpec, draw: Gid, g: Gid) {
    match spec.wanted
    case None => g == draw
    case Some(w) => g == w && w != 0 && w !in s.used
  }

  /** An addition without input, while shutting down or with an unusable GID changes nothing. */
  ghost predicate CanAdd(s: State, spec: AddSpec) {
    spec.hasInput && !s.shuttingDown && (spec.wanted.Some? ==> spec.wanted.value != 0 && spec.wanted.value !in s.used)
  }

  lemma WithoutInserted(q: seq<Gid>, pos: nat, g: Gid)
    requires pos <= |q| && g !in q
    ensures Without(InsertAt(q, pos, g), g) == q && InsertAt(q, pos, g)[pos] == g
  {
    var r := InsertAt(q, pos, g);
    assert forall j :: 0 <= j < pos ==> r[j] == q[j];
    WithoutFirst(r, g, pos);
    assert r[..pos] + r[pos + 1..] == q;
  }

  lemma NeverIssued(s: State, g: Gid)
    requires Wf(s) && g !in s.used
    ensures g !in s.groups && g !in s.waiting
  {
  }

  lemma IssuedIs(s: State, spec: AddSpec, draw: Gid)
    requires Wf(s) && Usable(s, draw)
    ensures IssuedGid(s, spec, draw).Some? <==> (spec.wanted.Some? ==> spec.wanted.value != 0 && spec.wanted.value !in s.used)
    ensures IssuedGid(s, spec, draw).Some? ==>
              Gets(s, spec, draw, IssuedGid(s, spec, draw).value) && IssuedGid(s, spec, draw).value !in s.used
  {
    if spec.wanted.Some? && spec.wanted.value in s.groups {
      assert spec.wanted.value in s.used;
    }
  }

  lemma QueuesIt(s: State, spec: AddSpec, draw: Gid, g: Gid)
    requires spec.hasInput && !s.shuttingDown && spec.optionsFit && IssuedGid(s, spec, draw) == Some(g)
    requires g !in s.groups && g !in s.waiting
    ensures Queues(s, spec, g, DoAdd(s, spec, draw))
  {
    var r, k := DoAdd(s, spec, draw), AddPosition(s, spec.position);
    assert r.waiting == InsertAt(s.waiting, k, g) && LandsAt(s.waiting, spec.position, k);
    assert r == s.(groups := r.groups, waiting := r.waiting, used := r.used) && NewlyWaiting(r.groups[g], spec.pause && s.keepRunning);
    assert r.groups - {g} == s.groups && r.used == s.used + {g};
    hide Without, InsertAt, DoAdd, IssuedGid, LandsAt;
    WithoutInserted(s.waiting, k, g);
    assert r.waiting[k] == g;
  }

  lemma AddExact(s: State, spec: AddSpec, draw: Gid)
    requires Wf(s) && Usable(s, draw)
    ensures var r := DoAdd(s, spec, draw);
            if !CanAdd(s, spec) then r == s
            else exists g :: Gets(s, spec, draw, g)
                   && if spec.optionsFit then Queues(s, spec, g, r)
                      else r == s.(used := s.used + {g}, failed := s.failed + {g})
  {
    hide Wf, Gets, Queues, IssuedGid;
    IssuedIs(s, spec, draw);
    if CanAdd(s, spec) {
      var g := IssuedGid(s, spec, draw).value;
      NeverIssued(s, g);
      if spec.optionsFit {
        QueuesIt(s, spec, draw, g);
      }
      hide DoAdd;
    }
  }

  // ----- Waiting downloads -----

  /** Only the group of `g` changes, to `rg`. */
  ghost predicate OnlyGroup(s: State, g: Gid, rg: Group, r: State) {
    r == s.(groups := s.groups[g := rg])
  }

  lemma SameGroup(groups: map<Gid, Group>, g: Gid)
    requires g in groups
    ensures groups[g := groups[g]] == groups
  {
  }

  lemma WaitingState(s: State, g: Gid)
    requires Wf(s) && g in s.waiting
    ensures g in s.groups && s.groups[g].state == Waiting
  {
  }

  /** Pausing and resuming a waiting download change its pause mark. */
  lemma PauseWaiting(s: State, g: Gid, forced: bool)
    requires g in s.groups && s.groups[g].state == Waiting
    ensures OnlyGroup(s, g, s.groups[g].(paused := true), DoPause(s, g, forced))
    ensures OnlyGroup(s, g, s.groups[g].(paused := false), DoResume(s, g))
  {
    var rg := s.groups[g];
    SameGroup(s.groups, g);
    if rg.paused {
      assert rg.(paused := true) == rg;
    } else {
      assert rg.(paused := false) == rg;
    }
  }

  /** Removing a waiting download leaves no result. */
  lemma RemoveWaiting(s: State, g: Gid, forced: bool)
    requires g in s.groups && s.groups[g].state == Waiting
    ensures DoRemove(s, g, forced) == s.(waiting := Without(s.waiting, g), groups := s.groups - {g}, dropped := s.dropped + {g})
  {
    hide Without;
  }

  lemma WaitingExact(s: State, g: Gid, forced: bool)
    requires Wf(s) && g in s.waiting
    ensures g in s.groups
    ensures OnlyGroup(s, g, s.groups[g].(paused := true), DoPause(s, g, forced))
    ensures OnlyGroup(s, g, s.groups[g].(paused := false), DoResume(s, g))
    ensures DoRemove(s, g, forced) == s.(waiting := Without(s.waiting, g), groups := s.groups - {g}, dropped := s.dropped + {g})
    ensures DoChangeOption(s, g) == s
  {
    hide Wf, OnlyGroup, DoPause, DoResume, DoRemove, Without;
    WaitingState(s, g);
    PauseWaiting(s, g, forced);
    RemoveWaiting(s, g, forced);
  }

  lemma OthersKept(groups: map<Gid, Group>, g: Gid, rg: Group)
    ensures groups[g := rg] - {g} == groups - {g}
  {
  }

  /** An active download that was never started: a pause puts it in front of the waiting queue, a removal ends it. */
  lemma UnstartedExact(s: State, g: Gid, forced: bool)
    requires Wf(s) && g in s.active && s.groups[g].worker == NoWorker
    ensures var r := DoPause(s, g, forced);
            if s.groups[g].paused then r == s
            else && r.active == Without(s.active, g) && r.waiting == [g] + s.waiting && r.stopped == s.stopped
                 && g in r.groups && Held(r, g) && !r.groups[g].halt && r.groups - {g} == s.groups - {g}
    ensures var r := DoRemove(s, g, forced);
            && r.active == Without(s.active, g) && r.groups == s.groups - {g} && r.waiting == s.waiting
            && r.stopped == s.stopped + [Stopped(g, Removed, 31)]
    ensures DoResume(s, g) == s
    ensures OnlyGroup(s, g, s.groups[g].(restart := true, paused := true), DoChangeOption(s, g))
  {
    ActiveState(s, g);
    hide Wf, Without;
    OthersKept(s.groups, g, s.groups[g].(paused := true, state := Waiting, halt := false, force := false));
  }

  /** Calls about a GID that is not live change nothing. */
  lemma UnknownExact(s: State, g: Gid, forced: bool, pos: int, how: How, code: int)
    requires g !in s.groups
    ensures DoPause(s, g, forced) == DoResume(s, g) == DoRemove(s, g, forced) == s
    ensures DoChangeOption(s, g) == DoChangePosition(s, g, pos, how) == DoFinish(s, g, code) == s
  {
  }

  // ----- Shutdown -----

  /** The first shutdown, and every forced one, cancels a running engine; waiting downloads stay as they are. */
  lemma ShutdownExact(s: State, forced: bool)
    requires Wf(s) && Tidy(s)
    ensures var r := DoShutdown(s, forced);
            if s.shuttingDown && !forced then r == s
            else && r.shuttingDown && (r.canceled <==> s.canceled || s.running)
                 && r.active == s.active && r.waiting == s.waiting && r.stopped == s.stopped && r.groups.Keys == s.groups.Keys
                 && (forall g :: g in s.waiting ==> r.groups[g] == s.groups[g])
                 && (forall g :: g in s.active ==> r.groups[g].halt && r.groups[g].reason == ShutdownSignal)
                 && (s.running ==> forall g :: g in s.groups ==> r.groups[g].worker != Working)
  {
    assert forall g :: g in s.waiting ==> g in s.groups && TidyGroup(s.groups[g], s.running);
  }

  // ----- Everything else about a download -----

  /** What holds of every download at any time. */
  predicate TidyGroup(rg: Group, running: bool) {
    && (rg.worker == Working ==> rg.state == Active && running)
    && (rg.state == Waiting ==> !rg.halt && rg.reason != UserRequest)
    && (rg.state == Active && rg.worker == NoWorker ==> rg.reason != UserRequest)
    && (rg.restart ==> rg.paused && rg.state == Active)
  }

  ghost predicate Tidy(s: State) {
    forall g :: g in s.groups ==> TidyGroup(s.groups[g], s.running)
  }

  lemma TidyOne(s: State, g: Gid, rg: Group, r: State)
    requires Tidy(s) && r.groups == s.groups[g := rg] && r.running == s.running && TidyGroup(rg, s.running)
    ensures Tidy(r)
  {
    hide TidyGroup;
  }

  lemma TidyLess(s: State, r: State)
    requires Tidy(s) && r.running == s.running && forall g :: g in r.groups ==> g in s.groups && r.groups[g] == s.groups[g]
    ensures Tidy(r)
  {
  }

  lemma TidyPause(s: State, g: Gid, forced: bool)
    requires Tidy(s)
    ensures Tidy(DoPause(s, g, forced))
  {
    hide Without, Tidy;
    var r := DoPause(s, g, forced);
    if g in s.groups && r != s {
      assert TidyGroup(s.groups[g], s.running) by { TidyAt(s, g); }
      TidyOne(s, g, r.groups[g], r);
    }
  }

  lemma TidyAt(s: State, g: Gid)
    requires Tidy(s) && g in s.groups
    ensures TidyGroup(s.groups[g], s.running)
  {
  }

  lemma TidyRemove(s: State, g: Gid, forced: bool)
    requires Wf(s) && Tidy(s)
    ensures Tidy(DoRemove(s, g, forced))
  {
    assert g in s.groups ==> s.groups[g].state == Active || s.groups[g].state == Waiting;
    hide Without, Wf, Tidy;
    var r := DoRemove(s, g, forced);
    if g in s.groups {
      TidyAt(s, g);
      if g in r.groups {
        TidyOne(s, g, r.groups[g], r);
      } else {
        TidyLess(s, r);
      }
    }
  }

  lemma TidyMarks(s: State, g: Gid, code: int)
    requires Tidy(s)
    ensures Tidy(DoResume(s, g)) && Tidy(DoChangeOption(s, g)) && Tidy(DoFinish(s, g, code))
  {
    hide Tidy;
    if g in s.groups {
      TidyAt(s, g);
      var a, b, c := DoResume(s, g), DoChangeOption(s, g), DoFinish(s, g, code);
      if a != s {
        TidyOne(s, g, a.groups[g], a);
      }
      if b != s {
        TidyOne(s, g, b.groups[g], b);
      }
      if c != s {
        TidyOne(s, g, c.groups[g], c);
      }
    }
  }

  lemma TidyShutdown(s: State, forced: bool)
    requires Wf(s) && Tidy(s)
    ensures Tidy(DoShutdown(s, forced))
  {
    var r := DoShutdown(s, forced);
    if r != s {
      forall g | g in r.groups
        ensures TidyGroup(r.groups[g], r.running)
      {
        assert TidyGroup(s.groups[g], s.running);
      }
    }
  }

  lemma TidyPromote(s: State)
    requires Wf(s) && Tidy(s)
    ensures Tidy(DoPromote(s))
  {
    var r := DoPromote(s);
    PromoteTakesFirst(s);
    PromoteKeepsRunning(s);
    PromoteKeepsKeys(s);
    hide DoPromote, Wf, Taken;
    forall g | g in r.groups
      ensures TidyGroup(r.groups[g], r.running)
    {
      TidyAt(s, g);
      if g in Taken(s) {
        TakenWaits(s, g);
      }
    }
  }

  lemma PromoteKeepsKeys(s: State)
    ensures DoPromote(s).groups.Keys == s.groups.Keys
  {
  }

  lemma TakenWaits(s: State, g: Gid)
    requires Wf(s) && g in Taken(s)
    ensures g in s.waiting && g in s.groups && s.groups[g].state == Waiting && !s.groups[g].paused
  {
    hide Sub;
    SubMembers(s.waiting, Unpaused(s));
  }

  lemma {:induction false} TidyReapEach(s: State, gids: seq<Gid>)
    requires Tidy(s) && forall i :: 0 <= i < |gids| && gids[i] in s.groups ==> s.groups[gids[i]].worker == Halted
    ensures Tidy(ReapEach(s, gids))
    decreases |gids|
  {
    hide Tidy, Outcome, Without;
    if gids != [] {
      var g := gids[0];
      var m := ReapOne(s, g);
      if g in s.groups {
        TidyAt(s, g);
        if g in m.groups {
          TidyOne(s, g, m.groups[g], m);
        } else {
          TidyLess(s, m);
        }
      }
      TidyReapEach(m, gids[1..]);
    }
  }

  lemma StepTidy(s: State, step: Step)
    requires Wf(s) && Tidy(s) && Enabled(s, step)
    ensures Tidy(Next(s, step))
  {
    match step {
      case Pause(g, forced) => TidyPause(s, g, forced);
      case Remove(g, forced) => TidyRemove(s, g, forced);
      case Resume(g) => TidyMarks(s, g, 0);
      case ChangeOption(g) => TidyMarks(s, g, 0);
      case Finish(g, code) => TidyMarks(s, g, code);
      case Shutdown(forced) => TidyShutdown(s, forced);
      case Promote => TidyPromote(s);
      case Reap =>
        SubMembers(s.active, Ended(s));
        TidyReapEach(s, Sub(s.active, Ended(s)));
      case EndOfRun =>
        EndOfRunStopsAll(s);
        EndOfRunTidy(s);
      case Add(spec, draw) => TidyAdd(s, spec, draw);
      case _ =>
        hide TidyGroup;
        StartTidy(s, step);
    }
    hide *;
  }

  lemma StartTidy(s: State, step: Step)
    requires Tidy(s) && (step.Start? || step.SetMax? || step.ChangePosition?)
    ensures Tidy(Next(s, step))
  {
    forall g | g in s.groups
      ensures TidyGroup(s.groups[g], Next(s, step).running)
    {
      assert TidyGroup(s.groups[g], s.running);
    }
  }

  lemma EndOfRunTidy(s: State)
    requires DoEndOfRun(s).groups == map[]
    ensures Tidy(DoEndOfRun(s))
  {
  }

  lemma TidyAdd(s: State, spec: AddSpec, draw: Gid)
    requires Tidy(s)
    ensures Tidy(DoAdd(s, spec, draw))
  {
    var r := DoAdd(s, spec, draw);
    hide Tidy, InsertAt, IssuedGid;
    var issued := IssuedGid(s, spec, draw);
    if spec.hasInput && !s.shuttingDown && issued.Some? {
      if spec.optionsFit {
        TidyOne(s, issued.value, r.groups[issued.value], r);
      } else {
        TidyLess(s, r);
      }
    }
  }

  /** Every run from the start leaves every download tidy. */
  lemma {:induction false} RunTidy(s: State, steps: seq<Step>)
    requires Wf(s) && Tidy(s) && Runs(s, steps)
    ensures Tidy(After(s, steps))
    decreases |steps|
  {
    hide Wf, Tidy, Next;
    if steps != [] {
      StepKeeps(s, steps[0]);
      StepTidy(s, steps[0]);
      RunTidy(Next(s, steps[0]), steps[1..]);
    }
  }

  /**
    What a promotion pass takes out of the waiting queue of a running engine
    starts fresh, or ended at once if the engine has been cancelled; before the
    engine runs it has no worker. Nothing else about any download changes.
   */
  lemma PromoteStarts(s: State, g: Gid)
    requires Wf(s) && Tidy(s) && g in s.groups
    ensures var r := DoPromote(s);
            && g in r.groups && r.running == s.running
            && (g !in Taken(s) ==> r.groups[g] == s.groups[g])
            && (g in Taken(s) && s.running && !s.canceled ==> Fresh(r, g))
            && (g in Taken(s) && s.running && s.canceled ==> Engaged(r, g) && r.groups[g].worker == Halted)
            && (g in Taken(s) ==> r.groups[g].code == s.groups[g].code && r.groups[g].state == Active && g in r.active)
            && (g in Taken(s) && !s.running ==> r.groups[g].worker == s.groups[g].worker)
  {
    hide DoPromote, Wf, Taken;
    PromoteTakesFirst(s);
    PromoteKeepsRunning(s);
    TidyAt(s, g);
    if g in Taken(s) {
      TakenWaits(s, g);
    }
  }

  // ----- The end of a run -----

  /** The code of a download that did not end by itself with an error. */
  function CodeOr(code: int, other: int): int {
    if code != 0 then code else other
  }

  lemma {:induction false} EndActiveEach(s: State, gids: seq<Gid>, g: Gid)
    requires g in s.groups && s.groups[g].state == Active
    ensures var r := EndEachActive(s, gids);
            if g in gids then Stopped(g, Errored, CodeOr(s.groups[g].code, 255)) in r.stopped
            else g in r.groups && r.groups[g] == s.groups[g]
    decreases |gids|
  {
    hide EndEachActive, Without;
    if gids == [] {
      EndNothing(s);
    } else {
      assert gids == [gids[0]] + gids[1..];
      var m := EndActive(s, gids[0]);
      EndUnfold(s, gids);
      if gids[0] == g {
        EndLog(m, gids[1..]);
        assert Stopped(g, Errored, CodeOr(s.groups[g].code, 255)) in m.stopped;
      } else {
        EndActiveEach(m, gids[1..], g);
      }
    }
  }

  lemma EndNothing(s: State)
    ensures EndEachActive(s, []) == s && EndEachWaiting(s, []) == s
  {
  }

  lemma {:induction false} EndWaitingEach(s: State, gids: seq<Gid>, g: Gid)
    requires g in s.groups && g in gids
    ensures Stopped(g, if s.groups[g].paused then Errored else Removed, 31) in EndEachWaiting(s, gids).stopped
    decreases |gids|
  {
    hide EndEachWaiting, Without;
    assert gids == [gids[0]] + gids[1..];
    var m := EndWaiting(s, gids[0]);
    EndUnfold(s, gids);
    if gids[0] == g {
      EndLog(m, gids[1..]);
      assert Stopped(g, if s.groups[g].paused then Errored else Removed, 31) in m.stopped;
    } else {
      EndWaitingEach(m, gids[1..], g);
    }
  }

  lemma {:induction false} EndActiveSkips(s: State, gids: seq<Gid>, g: Gid)
    requires g in s.groups && g !in gids
    ensures var r := EndEachActive(s, gids); g in r.groups && r.groups[g] == s.groups[g]
    ensures EndEachActive(s, gids).waiting == s.waiting
    decreases |gids|
  {
    hide Without;
    if gids != [] {
      EndActiveSkips(EndActive(s, gids[0]), gids[1..], g);
    }
  }

  /** At the end of a run active downloads are errors, paused ones too, and the others that wait count as removed. */
  lemma EndOfRunExact(s: State, g: Gid)
    requires Wf(s) && g in s.groups
    ensures var r := DoEndOfRun(s);
            && (g in s.active ==> Stopped(g, Errored, CodeOr(s.groups[g].code, 255)) in r.stopped)
            && (g in s.waiting ==> Stopped(g, if s.groups[g].paused then Errored else Removed, 31) in r.stopped)
  {
    assert g in s.active <==> s.groups[g].state == Active;
    assert g in s.waiting <==> s.groups[g].state == Waiting;
    hide Wf, EndEachActive, EndEachWaiting;
    var m := EndEachActive(s, s.active);
    if g in s.active {
      EndActiveEach(s, s.active, g);
      EndLog(m, s.waiting);
    }
    if g in s.waiting {
      EndActiveSkips(s, s.active, g);
      EndWaitingEach(m, s.waiting, g);
    }
  }

  /** A running download, any steps, then the end of the run: an error, with the code of its own end if it had one. */
  lemma OutcomeAtEndOfRun(s: State, g: Gid, steps: seq<Step>)
    requires Wf(s) && Fresh(s, g) && Runs(s, steps) && Quiet(steps)
    ensures exists c :: CodeIs(s.shuttingDown, steps, g, s.groups[g].code, c)
                        && Stopped(g, Errored, CodeOr(c, 255)) in DoEndOfRun(After(s, steps)).stopped
  {
    var t := After(s, steps);
    RunAdvances(s, steps, g);
    RunKeeps(s, steps);
    assert g in t.active;
    hide Wf, Next, FinishedFirst, DoEndOfRun;
    EndOfRunExact(t, g);
    assert CodeIs(s.shuttingDown, steps, g, s.groups[g].code, t.groups[g].code);
  }
}
