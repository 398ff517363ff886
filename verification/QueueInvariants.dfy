/** What every run of the download queue keeps, and what its passes do. */
module QueueInvariants {
  import opened Bytes
  import opened Lists
  import opened QueueSpec

  ghost function StoppedIds(log: seq<Stopped>): set<Gid> {
    set i | 0 <= i < |log| :: log[i].gid
  }

  ghost predicate DistinctLog(log: seq<Stopped>) {
    forall i, j :: 0 <= i < j < |log| ==> log[i].gid != log[j].gid
  }

  /** The queues hold exactly the live groups, each in the queue of its state, once. */
  ghost predicate Queued(s: State) {
    && Distinct(s.active) && Distinct(s.waiting)
    && (forall g :: g in s.active <==> g in s.groups && s.groups[g].state == Active)
    && (forall g :: g in s.waiting <==> g in s.groups && s.groups[g].state == Waiting)
    && (forall g :: g in s.groups ==> s.groups[g].state == Active || s.groups[g].state == Waiting)
  }

  /** Every GID ever issued is live, stopped, dropped or failed, and only one of these. */
  ghost predicate Accounted(s: State) {
    && DistinctLog(s.stopped)
    && s.used == s.groups.Keys + StoppedIds(s.stopped) + s.dropped + s.failed
    && s.groups.Keys !! StoppedIds(s.stopped) !! s.dropped !! s.failed
    && 0 !in s.used
  }

  ghost predicate Wf(s: State) {
    Queued(s) && Accounted(s)
  }

  // ----- Queues -----

  lemma {:induction false} SubMembers(q: seq<Gid>, keep: set<Gid>)
    ensures forall x :: x in Sub(q, keep) <==> x in q && x in keep
    ensures Distinct(q) ==> Distinct(Sub(q, keep))
  {
    if q != [] {
      assert q == [q[0]] + q[1..];
      SubMembers(q[1..], keep);
    }
  }

  lemma InsertDistinct(q: seq<Gid>, pos: nat, g: Gid)
    requires pos <= |q| && Distinct(q) && g !in q
    ensures Distinct(InsertAt(q, pos, g))
    ensures forall x :: x in InsertAt(q, pos, g) <==> x in q || x == g
  {
    var r := InsertAt(q, pos, g);
    forall x
      ensures x in r <==> x in q || x == g
    {
      assert q == q[..pos] + q[pos..];
    }
  }

  lemma {:induction false} InsertWithout(q: seq<Gid>, pos: nat, g: Gid)
    requires pos <= |q| && g !in q
    ensures Without(InsertAt(q, pos, g), g) == q
  {
    var r := InsertAt(q, pos, g);
    assert r[pos] == g;
    assert IndexOf(r, g) == pos by {
      assert forall j :: 0 <= j < pos ==> r[j] == q[j];
    }
    WithoutIndex(r, g);
    assert r[..pos] + r[pos + 1..] == q;
  }

  // ----- Small changes -----

  lemma LogAppend(log: seq<Stopped>, r: Stopped)
    ensures StoppedIds(log + [r]) == StoppedIds(log) + {r.gid}
    ensures DistinctLog(log) && r.gid !in StoppedIds(log) ==> DistinctLog(log + [r])
  {
    var log' := log + [r];
    forall x
      ensures x in StoppedIds(log') <==> x in StoppedIds(log) || x == r.gid
    {
      if x in StoppedIds(log) {
        var i :| 0 <= i < |log| && log[i].gid == x;
        assert log'[i].gid == x;
      }
      if x == r.gid {
        assert log'[|log|].gid == x;
      }
    }
  }

  /** A group changes without changing queue. */
  lemma TouchKeeps(s: State, g: Gid, rg: Group)
    requires Wf(s) && g in s.groups && rg.state == s.groups[g].state
    ensures Wf(s.(groups := s.groups[g := rg]))
  {
    assert s.groups[g := rg].Keys == s.groups.Keys;
  }

  lemma SameAccounts(s: State, r: State)
    requires Accounted(s) && r.groups.Keys == s.groups.Keys && r.stopped == s.stopped
    requires r.used == s.used && r.dropped == s.dropped && r.failed == s.failed
    ensures Accounted(r)
  {
  }

  /** An active group goes to the front of the waiting queue. */
  lemma BackKeeps(s: State, g: Gid, rg: Group)
    requires Wf(s) && g in s.groups && s.groups[g].state == Active && rg.state == Waiting
    ensures Wf(s.(active := Without(s.active, g), waiting := [g] + s.waiting, groups := s.groups[g := rg]))
  {
    hide Accounted, Without;
    WithoutDistinct(s.active, g);
    var w := [g] + s.waiting;
    DistinctConcat([g], s.waiting);
    assert forall x :: x in w <==> x == g || x in s.waiting;
    SameAccounts(s, s.(active := Without(s.active, g), waiting := w, groups := s.groups[g := rg]));
  }

  /** One live GID moves to the log. */
  lemma StoppedAccounts(s: State, r: State, entry: Stopped)
    requires Accounted(s) && entry.gid in s.groups
    requires r.groups.Keys == s.groups.Keys - {entry.gid} && r.stopped == s.stopped + [entry]
    requires r.used == s.used && r.dropped == s.dropped && r.failed == s.failed
    ensures Accounted(r)
  {
    LogAppend(s.stopped, entry);
  }

  lemma StopActiveKeeps(s: State, g: Gid, state: Status, code: int)
    requires Wf(s) && g in s.groups && s.groups[g].state == Active
    ensures Wf(StopActive(s, g, state, code))
  {
    hide Accounted, Without;
    WithoutDistinct(s.active, g);
    StoppedAccounts(s, StopActive(s, g, state, code), Stopped(g, state, code));
  }

  lemma EndUnfold(s: State, gids: seq<Gid>)
    requires gids != []
    ensures EndEachActive(s, gids) == EndEachActive(EndActive(s, gids[0]), gids[1..])
    ensures EndEachWaiting(s, gids) == EndEachWaiting(EndWaiting(s, gids[0]), gids[1..])
  {
  }

  lemma EndWaitingKeeps(s: State, g: Gid)
    requires Wf(s) && (g in s.groups ==> s.groups[g].state == Waiting)
    ensures Wf(EndWaiting(s, g))
  {
    if g in s.groups {
      hide Accounted, Without;
      var r := EndWaiting(s, g);
      WithoutDistinct(s.waiting, g);
      StoppedAccounts(s, r, Stopped(g, if s.groups[g].paused then Errored else Removed, REMOVED));
    }
  }

  lemma DropKeeps(s: State, g: Gid)
    requires Wf(s) && g in s.groups && s.groups[g].state == Waiting
    ensures Wf(s.(waiting := Without(s.waiting, g), groups := s.groups - {g}, dropped := s.dropped + {g}))
  {
    WithoutDistinct(s.waiting, g);
    assert (s.groups - {g}).Keys == s.groups.Keys - {g};
  }

  // ----- Every step keeps the invariant -----

  lemma AddKeeps(s: State, spec: AddSpec, draw: Gid)
    requires Wf(s) && Usable(s, draw)
    ensures Wf(DoAdd(s, spec, draw))
  {
    var r := DoAdd(s, spec, draw);
    if spec.hasInput && !s.shuttingDown && IssuedGid(s, spec, draw).Some? {
      var g := IssuedGid(s, spec, draw).value;
      assert g !in s.used && g != 0;
      if spec.optionsFit {
        var pos := AddPosition(s, spec.position);
        assert g !in s.waiting && g !in s.active;
        InsertDistinct(s.waiting, pos, g);
        assert r.groups.Keys == s.groups.Keys + {g};
      }
    }
  }

  lemma PauseKeeps(s: State, g: Gid, forced: bool)
    requires Wf(s)
    ensures Wf(DoPause(s, g, forced))
  {
    hide Wf, Without;
    if g in s.groups && !s.groups[g].paused {
      var rg := s.groups[g];
      if rg.state == Active {
        if rg.worker == NoWorker {
          BackKeeps(s, g, rg.(paused := true, state := Waiting, halt := false, force := false));
        } else {
          var asked := if forced then rg.(paused := true, force := true) else rg.(paused := true, halt := true);
          TouchKeeps(s, g, asked.(worker := Halted));
        }
      } else if rg.state == Waiting {
        TouchKeeps(s, g, rg.(paused := true));
      }
    }
  }

  lemma RemoveKeeps(s: State, g: Gid, forced: bool)
    requires Wf(s)
    ensures Wf(DoRemove(s, g, forced))
  {
    hide Wf, Without;
    if g in s.groups {
      var rg := s.groups[g].(halt := true, force := forced, reason := UserRequest);
      if rg.state == Active {
        if rg.worker == NoWorker {
          StopActiveKeeps(s, g, Removed, REMOVED);
        } else {
          TouchKeeps(s, g, rg.(paused := false, restart := false, worker := Halted));
        }
      } else if rg.state == Waiting {
        DropKeeps(s, g);
      } else {
        TouchKeeps(s, g, rg);
      }
    }
  }

  lemma MovedKeeps(q: seq<Gid>, g: Gid, dest: nat)
    requires g in q && dest < |q| && Distinct(q)
    ensures Distinct(Moved(q, g, dest)) && Moved(q, g, dest)[dest] == g
    ensures Without(Moved(q, g, dest), g) == Without(q, g)
    ensures forall x :: x in Moved(q, g, dest) <==> x in q
  {
    hide Without;
    var k := IndexOf(q, g);
    WithoutIndex(q, g);
    WithoutDistinct(q, g);
    var rest := q[..k] + q[k + 1..];
    InsertDistinct(rest, dest, g);
    InsertWithout(rest, dest, g);
  }

  lemma PositionKeeps(s: State, g: Gid, pos: int, how: How)
    requires Wf(s)
    ensures Wf(DoChangePosition(s, g, pos, how))
  {
    if g in s.groups && s.groups[g].state == Waiting && g in s.waiting {
      MovedKeeps(s.waiting, g, Landing(s.waiting, g, pos, how));
    }
  }

  lemma ShutdownKeeps(s: State, forced: bool)
    requires Wf(s)
    ensures Wf(DoShutdown(s, forced))
  {
    assert MarkShutdown(s, forced).Keys == s.groups.Keys;
  }

  lemma ReapOneKeeps(s: State, g: Gid)
    requires Wf(s) && (g in s.groups ==> s.groups[g].state == Active)
    ensures Wf(ReapOne(s, g))
    ensures forall x :: x != g && x in s.groups ==> x in ReapOne(s, g).groups && ReapOne(s, g).groups[x] == s.groups[x]
  {
    hide Wf, Without;
    if g in s.groups {
      var rg := s.groups[g];
      if rg.paused {
        BackKeeps(s, g, rg.(state := Waiting, paused := !rg.restart, restart := false,
                            force := false, halt := false, reason := NoReason));
      } else {
        StopActiveKeeps(s, g, Outcome(rg).0, Outcome(rg).1);
      }
    }
  }

  /** Distinct GIDs, each of them active. */
  ghost predicate ActiveList(s: State, gids: seq<Gid>) {
    Distinct(gids) && forall i :: 0 <= i < |gids| ==> gids[i] in s.groups && s.groups[gids[i]].state == Active
  }

  lemma {:induction false} ReapEachKeeps(s: State, gids: seq<Gid>)
    requires Wf(s) && ActiveList(s, gids)
    ensures Wf(ReapEach(s, gids))
    decreases |gids|
  {
    hide Wf, ReapOne;
    if gids != [] {
      ReapOneKeeps(s, gids[0]);
      ReapEachKeeps(ReapOne(s, gids[0]), gids[1..]);
    }
  }

  lemma EndedActive(s: State)
    requires Wf(s)
    ensures ActiveList(s, Sub(s.active, Ended(s)))
  {
    SubMembers(s.active, Ended(s));
  }

  // ----- Promotion -----

  ghost function Unpaused(s: State): set<Gid> {
    set g | g in s.waiting && g in s.groups && !s.groups[g].paused
  }

  lemma {:induction false} PassSplits(q: seq<Gid>, num: nat, groups: map<Gid, Group>, free: set<Gid>)
    requires Distinct(q) && forall i :: 0 <= i < |q| ==> q[i] in groups && (q[i] in free <==> !groups[q[i]].paused)
    ensures var p := Pass(q, num, groups); p.1 == Sub(q, free)[..Min(num, |Sub(q, free)|)]
    ensures var p := Pass(q, num, groups); forall g :: g in q <==> g in p.0 || g in p.1
    ensures var p := Pass(q, num, groups); Distinct(p.0) && Distinct(p.1) && forall g :: !(g in p.0 && g in p.1)
    decreases |q|
  {
    if q != [] && num > 0 {
      assert q == [q[0]] + q[1..];
      var rest := q[1..];
      if groups[q[0]].paused {
        PassSplits(rest, num, groups, free);
        DistinctConcat([q[0]], Pass(rest, num, groups).0);
      } else {
        PassSplits(rest, num - 1, groups, free);
        DistinctConcat([q[0]], Pass(rest, num - 1, groups).1);
        var n := Min(num - 1, |Sub(rest, free)|);
        assert Sub(q, free)[..n + 1] == [q[0]] + Sub(rest, free)[..n];
      }
    }
  }

  lemma PassOf(s: State, num: nat)
    requires Wf(s)
    ensures var p, free := Pass(s.waiting, num, s.groups), Sub(s.waiting, Unpaused(s));
            && p.1 == free[..Min(num, |free|)]
            && Distinct(p.0) && Distinct(p.1)
            && (forall g :: g in s.waiting <==> g in p.0 || g in p.1)
            && (forall g :: !(g in p.0 && g in p.1))
  {
    PassSplits(s.waiting, num, s.groups, Unpaused(s));
  }

  lemma PromoteKeeps(s: State)
    requires Wf(s)
    ensures Wf(DoPromote(s))
    ensures |DoPromote(s).active| <= Max(|s.active|, Limit(s.max))
  {
    hide Pass, Sub, Queued;
    if |s.active| < Limit(s.max) {
      var num := Limit(s.max) - |s.active|;
      PassOf(s, num);
      var p := Pass(s.waiting, num, s.groups);
      assert Launch(s, p.1).Keys == s.groups.Keys;
      PromotedQueues(s, p.0, p.1);
    }
  }

  lemma PromotedQueues(s: State, left: seq<Gid>, taken: seq<Gid>)
    requires Wf(s) && Distinct(left) && Distinct(taken)
    requires forall g :: g in s.waiting <==> g in left || g in taken
    requires forall g :: !(g in left && g in taken)
    ensures Queued(s.(active := s.active + taken, waiting := left, groups := Launch(s, taken)))
  {
    var a := s.active + taken;
    assert forall g :: g in a <==> g in s.active || g in taken;
    assert forall g :: g in taken ==> g in s.waiting && g !in s.active;
    DistinctConcat(s.active, taken);
    forall g
      ensures g in a <==> g in s.groups && Launch(s, taken)[g].state == Active
    {
    }
  }

  // ----- End of run -----

  lemma EndActiveKeeps(s: State, g: Gid)
    requires Wf(s)
    ensures Wf(EndActive(s, g))
    ensures EndActive(s, g).waiting == s.waiting
    ensures EndActive(s, g).active == if g in s.active then Without(s.active, g) else s.active
  {
    if g in s.groups && s.groups[g].state == Active {
      StopActiveKeeps(s, g, Errored, if s.groups[g].code != SUCCESS then s.groups[g].code else IN_PROGRESS);
    }
  }

  lemma {:induction false} EndEachActiveKeeps(s: State, gids: seq<Gid>)
    requires Wf(s) && gids == s.active
    ensures var r := EndEachActive(s, gids); Wf(r) && r.active == [] && r.waiting == s.waiting
    decreases |gids|
  {
    if gids != [] {
      EndActiveKeeps(s, gids[0]);
      EndEachActiveKeeps(EndActive(s, gids[0]), gids[1..]);
    }
  }

  lemma {:induction false} EndEachWaitingKeeps(s: State, gids: seq<Gid>)
    requires Wf(s) && gids == s.waiting
    ensures var r := EndEachWaiting(s, gids); Wf(r) && r.waiting == [] && r.active == s.active
    decreases |gids|
  {
    if gids != [] {
      EndWaitingKeeps(s, gids[0]);
      EndEachWaitingKeeps(EndWaiting(s, gids[0]), gids[1..]);
    }
  }

  /** At the end of a run nothing is live: every download ever issued has a result or was dropped. */
  lemma EndOfRunKeeps(s: State)
    requires Wf(s)
    ensures var r := DoEndOfRun(s); Wf(r) && r.active == [] && r.waiting == [] && r.groups == map[]
  {
    hide EndEachActive, EndEachWaiting;
    EndEachActiveKeeps(s, s.active);
    var m := EndEachActive(s, s.active);
    EndEachWaitingKeeps(m, m.waiting);
  }

  // ----- Runs -----

  lemma StepKeeps(s: State, step: Step)
    requires Wf(s) && Enabled(s, step)
    ensures Wf(Next(s, step))
  {
    hide Wf, DoAdd, DoPause, DoRemove, DoChangePosition, DoShutdown, DoPromote, DoEndOfRun, ReapEach, Sub;
    match step
    case Start => SameKeeps(s, Next(s, step));
    case SetMax(_) => SameKeeps(s, Next(s, step));
    case Add(spec, draw) => AddKeeps(s, spec, draw);
    case Pause(g, forced) => PauseKeeps(s, g, forced);
    case Resume(g) =>
      if DoResume(s, g) != s {
        TouchKeeps(s, g, s.groups[g].(paused := false));
      }
    case Remove(g, forced) => RemoveKeeps(s, g, forced);
    case ChangeOption(g) =>
      if DoChangeOption(s, g) != s {
        TouchKeeps(s, g, s.groups[g].(restart := true, paused := true, worker := Cancel(s.groups[g].worker)));
      }
    case ChangePosition(g, pos, how) => PositionKeeps(s, g, pos, how);
    case Finish(g, code) =>
      if DoFinish(s, g, code) != s {
        TouchKeeps(s, g, s.groups[g].(code := code, worker := Halted));
      }
    case Shutdown(forced) => ShutdownKeeps(s, forced);
    case Reap =>
      EndedActive(s);
      ReapEachKeeps(s, Sub(s.active, Ended(s)));
    case Promote => PromoteKeeps(s);
    case EndOfRun => EndOfRunKeeps(s);
  }

  lemma SameKeeps(s: State, r: State)
    requires Wf(s) && r == s.(max := r.max, running := r.running)
    ensures Wf(r)
  {
  }

  lemma {:induction false} RunKeeps(s: State, steps: seq<Step>)
    requires Wf(s) && Runs(s, steps)
    ensures Wf(After(s, steps))
    decreases |steps|
  {
    hide Wf, Next;
    if steps != [] {
      StepKeeps(s, steps[0]);
      RunKeeps(Next(s, steps[0]), steps[1..]);
    }
  }

  /** Over every run from the start: queues duplicate-free and disjoint, and every GID accounted for once. */
  lemma RunSafe(max: int, keepRunning: bool, steps: seq<Step>)
    requires Runs(Init(max, keepRunning), steps)
    ensures var r := After(Init(max, keepRunning), steps);
            Wf(r) && Distinct(r.active + r.waiting)
  {
    RunKeeps(Init(max, keepRunning), steps);
    var r := After(Init(max, keepRunning), steps);
    DistinctConcat(r.active, r.waiting);
  }
}
