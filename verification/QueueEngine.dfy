/** The engine's queues as they are kept: two slices and a table of groups, changed in place. */
module QueueEngine {
  import opened Bytes
  import opened Lists
  import opened QueueSpec
  import opened QueueInvariants

  /** The first of the random numbers drawn that can be issued. */
  function FirstUsable(used: set<Gid>, draws: seq<Gid>): (g: Gid)
    requires exists i :: 0 <= i < |draws| && draws[i] != 0 && draws[i] !in used
    ensures g != 0 && g !in used && g in draws
  {
    if draws[0] != 0 && draws[0] !in used then draws[0] else FirstUsable(used, draws[1..])
  }

  method MoveWithin(q: seq<Gid>, g: Gid, k: nat, pos: int, how: How) returns (r: seq<Gid>, dest: nat)
    requires g in q && k == IndexOf(q, g)
    ensures dest == Landing(q, g, pos, how)
    ensures r == Moved(q, g, dest) && dest < |r| && r[dest] == g
  {
    hide IndexOf;
    var n := |q|;
    var to := match how case PosSet => pos case PosCur => k + pos case PosEnd => n + pos;
    if to < 0 {
      to := 0;
    }
    if to >= n {
      to := n - 1;
    }
    var rest := q[..k] + q[k + 1..];
    if to > k {
      to := to - 1;
    }
    dest := to;
    r := rest[..dest] + [g] + rest[dest..];
  }

  /** A pass over `q` has taken `taken`, put `pending` aside and is left with `rest`. */
  ghost predicate Taking(q: seq<Gid>, num: nat, groups: map<Gid, Group>, taken: seq<Gid>, pending: seq<Gid>, rest: seq<Gid>) {
    && |taken| <= num
    && var p, r := Pass(q, num, groups), Pass(rest, num - |taken|, groups);
       p.0 == pending + r.0 && p.1 == taken + r.1
  }

  lemma TakingNext(q: seq<Gid>, num: nat, groups: map<Gid, Group>, taken: seq<Gid>, pending: seq<Gid>, rest: seq<Gid>)
    requires Taking(q, num, groups, taken, pending, rest) && |taken| < num && rest != []
    ensures rest[0] !in groups ==> Taking(q, num, groups, taken, pending, rest[1..])
    ensures rest[0] in groups && groups[rest[0]].paused ==>
              Taking(q, num, groups, taken, pending + [rest[0]], rest[1..])
    ensures rest[0] in groups && !groups[rest[0]].paused ==>
              Taking(q, num, groups, taken + [rest[0]], pending, rest[1..])
  {
    hide Pass;
    PassUnfold(rest, num - |taken|, groups);
  }

  lemma TakingDone(q: seq<Gid>, num: nat, groups: map<Gid, Group>, taken: seq<Gid>, pending: seq<Gid>, rest: seq<Gid>)
    requires Taking(q, num, groups, taken, pending, rest) && (|taken| == num || rest == [])
    ensures Pass(q, num, groups) == (pending + rest, taken)
  {
    assert taken + [] == taken;
  }

  lemma TakingStart(q: seq<Gid>, num: nat, groups: map<Gid, Group>)
    ensures Taking(q, num, groups, [], [], q)
  {
  }

  ghost function MarkActive(groups: map<Gid, Group>, taken: seq<Gid>): map<Gid, Group> {
    map g | g in groups :: if g in taken then groups[g].(state := Active) else groups[g]
  }

  ghost function LaunchSome(s: State, taken: seq<Gid>, done: seq<Gid>): map<Gid, Group> {
    map g | g in s.groups ::
      if g in done then Launched(s, s.groups[g])
      else if g in taken then s.groups[g].(state := Active) else s.groups[g]
  }

  lemma MarkNext(groups: map<Gid, Group>, taken: seq<Gid>, g: Gid)
    requires g in groups
    ensures MarkActive(groups, taken + [g]) == MarkActive(groups, taken)[g := groups[g].(state := Active)]
  {
    var a, b := MarkActive(groups, taken + [g]), MarkActive(groups, taken)[g := groups[g].(state := Active)];
    assert a.Keys == b.Keys;
    assert forall x :: x in taken + [g] <==> x in taken || x == g;
  }

  lemma LaunchNext(s: State, taken: seq<Gid>, done: seq<Gid>, g: Gid)
    requires g in s.groups && g in taken
    ensures LaunchSome(s, taken, done + [g]) == LaunchSome(s, taken, done)[g := Launched(s, s.groups[g])]
  {
    var a, b := LaunchSome(s, taken, done + [g]), LaunchSome(s, taken, done)[g := Launched(s, s.groups[g])];
    assert a.Keys == b.Keys;
    assert forall x :: x in done + [g] <==> x in done || x == g;
  }

  class Engine {
    var active: seq<Gid>
    var waiting: seq<Gid>
    var groups: map<Gid, Group>
    var used: set<Gid>
    var stopped: seq<Stopped>
    ghost var dropped: set<Gid>
    ghost var failed: set<Gid>
    var max: int
    var keepRunning: bool
    var running: bool
    var shuttingDown: bool
    var canceled: bool

    ghost function View(): State
      reads this
    {
      State(active, waiting, groups, used, stopped, dropped, failed, max, keepRunning, running, shuttingDown, canceled)
    }

    ghost predicate Valid()
      reads this
    {
      Wf(View())
    }

    constructor (max: int, keepRunning: bool)
      ensures Valid() && View() == Init(max, keepRunning)
    {
      active, waiting, groups, used, stopped, dropped, failed := [], [], map[], {}, [], {}, {};
      this.max, this.keepRunning := max, keepRunning;
      running, shuttingDown, canceled := false, false, false;
    }

    method NextGid(draws: seq<Gid>) returns (g: Gid)
      requires exists i :: 0 <= i < |draws| && draws[i] != 0 && draws[i] !in used
      modifies this`used
      ensures g == FirstUsable(old(used), draws) && used == old(used) + {g}
      ensures exists i :: 0 <= i < |draws| && draws[i] == g && forall j :: 0 <= j < i ==> draws[j] == 0 || draws[j] in old(used)
    {
      var i := 0;
      while draws[i] == 0 || draws[i] in used
        invariant 0 <= i < |draws| && used == old(used)
        invariant forall j :: 0 <= j < i ==> draws[j] == 0 || draws[j] in used
        invariant exists k :: i <= k < |draws| && draws[k] != 0 && draws[k] !in used
        invariant exists k :: 0 <= k < |draws[i..]| && draws[i..][k] != 0 && draws[i..][k] !in used
        invariant FirstUsable(used, draws) == FirstUsable(used, draws[i..])
        decreases |draws| - i
      {
        ghost var k :| i <= k < |draws| && draws[k] != 0 && draws[k] !in used;
        assert draws[i + 1..][k - i - 1] == draws[k];
        assert draws[i..][1..] == draws[i + 1..];
        i := i + 1;
      }
      g := draws[i];
      used := used + {g};
    }

    method GidFor(spec: AddSpec, draws: seq<Gid>) returns (r: Option<Gid>)
      requires exists i :: 0 <= i < |draws| && draws[i] != 0 && draws[i] !in used
      modifies this`used
      ensures r == IssuedGid(old(View()), spec, FirstUsable(old(used), draws))
      ensures used == if r.Some? then old(used) + {r.value} else old(used)
    {
      hide FirstUsable;
      if spec.wanted.None? {
        var g := NextGid(draws);
        return Some(g);
      }
      var g := spec.wanted.value;
      if g == 0 || g in groups || g in used {
        return None;
      }
      used := used + {g};
      r := Some(g);
    }

    method Enqueue(g: Gid, position: Option<int>)
      requires g !in waiting
      modifies this`waiting
      ensures waiting == InsertAt(old(waiting), AddPosition(old(View()), position), g)
      ensures Without(waiting, g) == old(waiting) && |waiting| == |old(waiting)| + 1
    {
      hide Without;
      var pos := |waiting|;
      if position.Some? {
        pos := position.value;
        if pos < 0 || pos > |waiting| {
          pos := |waiting|;
        }
      }
      InsertWithout(waiting, pos, g);
      waiting := waiting[..pos] + [g] + waiting[pos..];
    }

    /** The result is the GID, if the download was accepted. */
    method Add(spec: AddSpec, draws: seq<Gid>) returns (r: Option<Gid>)
      requires Valid()
      requires exists i :: 0 <= i < |draws| && draws[i] != 0 && draws[i] !in used
      modifies this
      ensures Valid() && View() == DoAdd(old(View()), spec, FirstUsable(old(used), draws))
      ensures r.None? ==> waiting == old(waiting)
      ensures r.Some? ==> r.value !in old(used) && r.value in used && Without(waiting, r.value) == old(waiting)
    {
      hide Wf, FirstUsable, Without, InsertAt, AddPosition;
      AddKeeps(View(), spec, FirstUsable(used, draws));
      if !spec.hasInput || shuttingDown {
        return None;
      }
      r := GidFor(spec, draws);
      if r.None? {
        return;
      }
      var g := r.value;
      if !spec.optionsFit {
        failed := failed + {g};
        return None;
      }
      NotIssued(old(View()), g);
      groups := groups[g := Group(Waiting, spec.pause && keepRunning, false, false, false, NoReason, NoWorker, SUCCESS)];
      SamePosition(old(View()), View(), spec.position);
      Enqueue(g, spec.position);
    }

    method Pause(g: Gid, forced: bool) returns (ok: bool)
      requires Valid()
      modifies this
      ensures Valid() && View() == DoPause(old(View()), g, forced)
      ensures ok <==> g in old(groups) && !old(groups)[g].paused
    {
      hide Wf, Without;
      PauseKeeps(View(), g, forced);
      LiveState(View(), g);
      if g !in groups || groups[g].paused {
        return false;
      }
      match groups[g].state {
        case Active =>
          PauseActive(g, forced);
        case Waiting =>
          groups := groups[g := groups[g].(paused := true)];
        case _ =>
          return false;
      }
      ok := true;
    }

    /** A download that runs is told to halt; one without a worker goes back to the front of the queue. */
    method PauseActive(g: Gid, forced: bool)
      requires g in groups && !groups[g].paused && groups[g].state == Active
      modifies this`groups, this`active, this`waiting
      ensures View() == DoPause(old(View()), g, forced)
    {
      hide Without;
      var rg := groups[g].(paused := true);
      if forced {
        rg := rg.(force := true);
      } else {
        rg := rg.(halt := true);
      }
      if rg.worker != NoWorker {
        groups := groups[g := rg.(worker := Halted)];
      } else {
        active := MoveFrom(active, g);
        waiting := [g] + waiting;
        groups := groups[g := rg.(state := Waiting, halt := false, force := false)];
      }
    }

    method Resume(g: Gid) returns (ok: bool)
      requires Valid()
      modifies this
      ensures Valid() && View() == DoResume(old(View()), g)
      ensures ok <==> g in old(groups) && old(groups)[g].state == Waiting && old(groups)[g].paused
    {
      hide Wf;
      StepKeeps(View(), Step.Resume(g));
      if g !in groups || groups[g].state != Waiting || !groups[g].paused {
        return false;
      }
      groups := groups[g := groups[g].(paused := false)];
      ok := true;
    }

    method Remove(g: Gid, forced: bool) returns (ok: bool)
      requires Valid()
      modifies this
      ensures Valid() && View() == DoRemove(old(View()), g, forced)
      ensures ok <==> g in old(groups)
    {
      hide Wf, Without;
      RemoveKeeps(View(), g, forced);
      LiveState(View(), g);
      if g !in groups {
        return false;
      }
      var rg := groups[g].(halt := true, force := forced, reason := UserRequest);
      match rg.state {
        case Active =>
          if rg.worker == NoWorker {
            active := MoveFrom(active, g);
            stopped := stopped + [Stopped(g, Removed, REMOVED)];
            groups := groups - {g};
          } else {
            groups := groups[g := rg.(paused := false, restart := false, worker := Halted)];
          }
        case Waiting =>
          waiting := MoveFrom(waiting, g);
          groups := groups - {g};
          dropped := dropped + {g};
        case _ =>
          return false;
      }
      ok := true;
    }

    method ChangeOption(g: Gid) returns (ok: bool)
      requires Valid()
      modifies this
      ensures Valid() && View() == DoChangeOption(old(View()), g)
      ensures ok <==> g in old(groups)
    {
      hide Wf;
      StepKeeps(View(), Step.ChangeOption(g));
      if g !in groups {
        return false;
      }
      var rg := groups[g];
      if rg.state == Active {
        rg := rg.(restart := true, paused := true);
        if rg.worker != NoWorker {
          rg := rg.(worker := Halted);
        }
        groups := groups[g := rg];
      }
      ok := true;
    }

    /** The result is the place the download now has. */
    method ChangePosition(g: Gid, pos: int, how: How) returns (r: Option<nat>)
      requires Valid()
      modifies this
      ensures Valid() && View() == DoChangePosition(old(View()), g, pos, how)
      ensures r.Some? <==> g in old(waiting)
      ensures r.Some? ==> r.value < |waiting| && waiting[r.value] == g
    {
      hide Wf, IndexOf, Moved, Landing;
      PositionKeeps(View(), g, pos, how);
      LiveState(View(), g);
      if g !in groups || groups[g].state != Waiting {
        return None;
      }
      var k := Find(waiting, g);
      if k == |waiting| {
        return None;
      }
      var q, dest := MoveWithin(waiting, g, k, pos, how);
      waiting := q;
      r := Some(dest);
    }

    method RemoveStopped()
      requires Valid()
      modifies this
      ensures Valid() && View() == DoReap(old(View()))
    {
      hide Wf, ReapEach, ReapOne, Sub, Without, Ended;
      ghost var s0 := View();
      EndedActive(s0);
      StepKeeps(s0, Reap);
      var gids := CollectEnded();
      var i := 0;
      while i < |gids|
        invariant 0 <= i <= |gids| && ReapEach(View(), gids[i..]) == ReapEach(s0, gids)
      {
        ghost var s := View();
        var g := gids[i];
        ReapUnfold(s, gids[i..]);
        assert gids[i..][1..] == gids[i + 1..];
        ReapGroup(g);
        i := i + 1;
      }
      assert gids[i..] == [];
      ReapEmpty(View());
    }

    /** A copy of the active queue is searched for workers that have ended. */
    method CollectEnded() returns (gids: seq<Gid>)
      ensures gids == Sub(active, Ended(View()))
    {
      gids := [];
      var i := 0;
      while i < |active|
        invariant 0 <= i <= |active| && gids + Sub(active[i..], Ended(View())) == Sub(active, Ended(View()))
      {
        assert active[i..][1..] == active[i + 1..];
        var g := active[i];
        if g in groups && groups[g].worker == Halted {
          gids := gids + [g];
        }
        i := i + 1;
      }
    }

    method ReapGroup(g: Gid)
      modifies this
      ensures View() == ReapOne(old(View()), g)
    {
      if g !in groups {
        return;
      }
      active := MoveFrom(active, g);
      var rg := groups[g];
      if rg.paused {
        rg := rg.(state := Waiting);
        waiting := [g] + waiting;
        if rg.restart {
          rg := rg.(paused := false);
        }
        groups := groups[g := rg.(restart := false, force := false, halt := false, reason := NoReason)];
      } else if rg.halt {
        if rg.reason == UserRequest {
          stopped := stopped + [Stopped(g, Removed, REMOVED)];
        } else {
          var code := IN_PROGRESS;
          if rg.code != SUCCESS {
            code := rg.code;
          }
          stopped := stopped + [Stopped(g, Errored, code)];
        }
        groups := groups - {g};
      } else {
        stopped := stopped + [Stopped(g, if rg.code != SUCCESS then Errored else Complete, rg.code)];
        groups := groups - {g};
      }
    }

    method FillFromWaiting()
      requires Valid()
      modifies this
      ensures Valid() && View() == DoPromote(old(View()))
      ensures |active| <= Max(|old(active)|, Limit(max))
    {
      hide Wf, Pass, MarkActive;
      ghost var s := View();
      PromoteKeeps(s);
      var limit := max;
      if limit <= 0 {
        limit := 1;
      }
      if |active| >= limit {
        return;
      }
      var taken := TakeWaiting(limit - |active|);
      LaunchTaken(s, taken);
    }

    /** Downloads are taken from the front; paused ones are put back in front of what is left. */
    method TakeWaiting(num: nat) returns (taken: seq<Gid>)
      modifies this
      ensures var s, p := old(View()), Pass(old(waiting), num, old(groups));
              && taken == p.1
              && View() == s.(active := s.active + p.1, waiting := p.0, groups := MarkActive(s.groups, p.1))
    {
      hide MarkActive, Pass, Taking;
      ghost var s := View();
      var pending: seq<Gid> := [];
      taken := [];
      TakingStart(waiting, num, groups);
      MarkNone(s.groups);
      while |taken| < num && |waiting| > 0
        invariant View() == s.(active := s.active + taken, waiting := waiting, groups := MarkActive(s.groups, taken))
        invariant |taken| <= num && Taking(s.waiting, num, s.groups, taken, pending, waiting)
        decreases |waiting|
      {
        var g := waiting[0];
        TakingNext(s.waiting, num, s.groups, taken, pending, waiting);
        waiting := waiting[1..];
        MarkAt(s.groups, taken, g);
        if g !in groups {
          continue;
        }
        var rg := groups[g];
        if rg.paused {
          pending := pending + [g];
          continue;
        }
        MarkNext(s.groups, taken, g);
        groups := groups[g := rg.(state := Active)];
        active := active + [g];
        taken := taken + [g];
      }
      TakingDone(s.waiting, num, s.groups, taken, pending, waiting);
      waiting := pending + waiting;
    }

    method LaunchTaken(ghost s: State, taken: seq<Gid>)
      requires groups == MarkActive(s.groups, taken) && running == s.running && canceled == s.canceled
      modifies this
      ensures groups == Launch(s, taken)
      ensures View() == old(View()).(groups := groups)
    {
      if !running {
        assert groups == Launch(s, taken);
        return;
      }
      assert groups == LaunchSome(s, taken, []);
      hide MarkActive, LaunchSome;
      var i := 0;
      while i < |taken|
        invariant 0 <= i <= |taken| && View() == old(View()).(groups := groups)
        invariant groups == LaunchSome(s, taken, taken[..i])
      {
        var g := taken[i];
        LaunchAt(s, taken, taken[..i], g);
        assert taken[..i + 1] == taken[..i] + [g];
        if g in groups {
          LaunchNext(s, taken, taken[..i], g);
          groups := groups[g := groups[g].(worker := if canceled then Halted else Working)];
        }
        i := i + 1;
      }
      assert taken[..i] == taken;
      LaunchDone(s, taken);
    }

    method EndRun()
      requires Valid()
      modifies this
      ensures Valid() && View() == DoEndOfRun(old(View()))
      ensures active == [] && waiting == [] && groups == map[]
    {
      hide *;
      ghost var s := View();
      ViewOf();
      EndOfRunKeeps(s);
      var live, ws := active, waiting;
      var i := 0;
      assert live[0..] == live && ws[0..] == ws;
      while i < |live|
        invariant 0 <= i <= |live| && EndEachActive(View(), live[i..]) == EndEachActive(s, live)
      {
        EndUnfold(View(), live[i..]);
        assert live[i..][1..] == live[i + 1..];
        EndOneActive(live[i]);
        i := i + 1;
      }
      EndNone(View());
      assert live[i..] == [];
      i := 0;
      while i < |ws|
        invariant 0 <= i <= |ws| && EndEachWaiting(View(), ws[i..]) == EndEachWaiting(EndEachActive(s, live), ws)
      {
        EndUnfold(View(), ws[i..]);
        assert ws[i..][1..] == ws[i + 1..];
        EndOneWaiting(ws[i]);
        i := i + 1;
      }
      EndNone(View());
      assert ws[i..] == [];
      EndIs(s);
      ViewOf();
    }

    lemma ViewOf()
      ensures View().active == active && View().waiting == waiting && View().groups == groups
      ensures Valid() <==> Wf(View())
    {
    }

    method EndOneActive(g: Gid)
      modifies this
      ensures View() == EndActive(old(View()), g)
    {
      if g in groups && groups[g].state == Active {
        active := MoveFrom(active, g);
        var code := IN_PROGRESS;
        if groups[g].code != SUCCESS {
          code := groups[g].code;
        }
        stopped := stopped + [Stopped(g, Errored, code)];
        groups := groups - {g};
      }
    }

    method EndOneWaiting(g: Gid)
      modifies this
      ensures View() == EndWaiting(old(View()), g)
    {
      if g in groups {
        waiting := MoveFrom(waiting, g);
        stopped := stopped + [Stopped(g, if groups[g].paused then Errored else Removed, REMOVED)];
        groups := groups - {g};
      }
    }
  }

  // ----- Unfolding -----

  lemma LiveState(s: State, g: Gid)
    requires Wf(s)
    ensures g in s.groups ==> s.groups[g].state == Active || s.groups[g].state == Waiting
    ensures g in s.waiting <==> g in s.groups && s.groups[g].state == Waiting
  {
  }

  lemma SamePosition(s: State, r: State, position: Option<int>)
    requires r.waiting == s.waiting
    ensures AddPosition(r, position) == AddPosition(s, position)
  {
  }

  lemma PassUnfold(q: seq<Gid>, num: nat, groups: map<Gid, Group>)
    requires q != [] && num > 0
    ensures var p, g := Pass(q, num, groups), q[0];
            && (g !in groups ==> p == Pass(q[1..], num, groups))
            && (g in groups && groups[g].paused ==>
                  p.0 == [g] + Pass(q[1..], num, groups).0 && p.1 == Pass(q[1..], num, groups).1)
            && (g in groups && !groups[g].paused ==>
                  p.0 == Pass(q[1..], num - 1, groups).0 && p.1 == [g] + Pass(q[1..], num - 1, groups).1)
  {
  }

  lemma NotIssued(s: State, g: Gid)
    requires Wf(s) && g !in s.used
    ensures g !in s.waiting && g !in s.active
  {
  }

  lemma ReapUnfold(s: State, gids: seq<Gid>)
    requires gids != []
    ensures ReapEach(s, gids) == ReapEach(ReapOne(s, gids[0]), gids[1..])
  {
  }

  lemma ReapEmpty(s: State)
    ensures ReapEach(s, []) == s
  {
  }

  lemma EndNone(s: State)
    ensures EndEachActive(s, []) == s && EndEachWaiting(s, []) == s
  {
  }

  lemma EndIs(s: State)
    ensures DoEndOfRun(s) == EndEachWaiting(EndEachActive(s, s.active), s.waiting)
  {
  }

  lemma MarkNone(groups: map<Gid, Group>)
    ensures MarkActive(groups, []) == groups
  {
  }

  lemma MarkAt(groups: map<Gid, Group>, taken: seq<Gid>, g: Gid)
    ensures g in MarkActive(groups, taken) <==> g in groups
    ensures g in groups ==> MarkActive(groups, taken)[g].paused == groups[g].paused
    ensures g in groups ==> MarkActive(groups, taken)[g].(state := Active) == groups[g].(state := Active)
  {
  }

  lemma LaunchAt(s: State, taken: seq<Gid>, done: seq<Gid>, g: Gid)
    requires g in taken
    ensures g in LaunchSome(s, taken, done) <==> g in s.groups
    ensures g in s.groups && s.running ==>
              LaunchSome(s, taken, done)[g].(worker := if s.canceled then Halted else Working) == Launched(s, s.groups[g])
    ensures g !in s.groups ==> LaunchSome(s, taken, done + [g]) == LaunchSome(s, taken, done)
  {
  }

  lemma LaunchDone(s: State, taken: seq<Gid>)
    ensures LaunchSome(s, taken, taken) == Launch(s, taken)
  {
  }
}
