/**
  The download queue as a state machine over values: every public call, every
  reaping pass and every promotion pass is one step.
 */
module QueueSpec {
  import opened Bytes
  import opened Lists

  type Gid = nat

  datatype Status = Waiting | Active | Complete | Errored | Removed

  datatype Reason = NoReason | UserRequest | ShutdownSignal

  /** The context of a download's worker: never made, live, or done. */
  datatype Worker = NoWorker | Working | Halted

  datatype Group = Group(
    state: Status, paused: bool, restart: bool, halt: bool, force: bool,
    reason: Reason, worker: Worker, code: int)

  datatype Stopped = Stopped(gid: Gid, state: Status, code: int)

  const SUCCESS: int := 0
  const REMOVED: int := 31
  const IN_PROGRESS: int := 255

  /**
    `stopped` logs every result ever produced. `dropped` are the GIDs removed
    while waiting, `failed` those issued to an addition that then failed.
   */
  datatype State = State(
    active: seq<Gid>, waiting: seq<Gid>, groups: map<Gid, Group>, used: set<Gid>,
    stopped: seq<Stopped>, dropped: set<Gid>, failed: set<Gid>,
    max: int, keepRunning: bool, running: bool, shuttingDown: bool, canceled: bool)

  datatype How = PosSet | PosCur | PosEnd

  datatype AddSpec = AddSpec(hasInput: bool, wanted: Option<Gid>, position: Option<int>, pause: bool, optionsFit: bool)

  datatype Step =
    | Start
    | SetMax(n: int)
    | Add(spec: AddSpec, draw: Gid)
    | Pause(gid: Gid, forced: bool)
    | Resume(gid: Gid)
    | Remove(gid: Gid, forced: bool)
    | ChangeOption(gid: Gid)
    | ChangePosition(gid: Gid, pos: int, how: How)
    | Finish(gid: Gid, code: int)
    | Shutdown(forced: bool)
    | Reap
    | Promote
    | EndOfRun

  function Init(max: int, keepRunning: bool): State {
    State([], [], map[], {}, [], {}, {}, max, keepRunning, false, false, false)
  }

  // ----- Queues -----

  /** The members of `q` that are in `keep`, in the order of `q`. */
  function Sub(q: seq<Gid>, keep: set<Gid>): seq<Gid> {
    if q == [] then [] else (if q[0] in keep then [q[0]] else []) + Sub(q[1..], keep)
  }

  function InsertAt(q: seq<Gid>, pos: nat, g: Gid): seq<Gid>
    requires pos <= |q|
  {
    q[..pos] + [g] + q[pos..]
  }

  // ----- Public calls -----

  predicate Usable(s: State, g: Gid) {
    g != 0 && g !in s.used
  }

  /** The GID an addition gets: the requested one if it is not zero and was never issued, else the drawn one. */
  function IssuedGid(s: State, spec: AddSpec, draw: Gid): Option<Gid> {
    if spec.wanted.None? then Some(draw)
    else if spec.wanted.value == 0 || spec.wanted.value in s.groups || spec.wanted.value in s.used then None
    else spec.wanted
  }

  function AddPosition(s: State, position: Option<int>): (r: nat)
    ensures r <= |s.waiting|
  {
    if position.Some? && 0 <= position.value <= |s.waiting| then position.value else |s.waiting|
  }

  function DoAdd(s: State, spec: AddSpec, draw: Gid): State {
    if !spec.hasInput || s.shuttingDown then s
    else
      var issued := IssuedGid(s, spec, draw);
      if issued.None? then s
      else
        var g := issued.value;
        if !spec.optionsFit then s.(used := s.used + {g}, failed := s.failed + {g})
        else
          s.(used := s.used + {g},
             groups := s.groups[g := Group(Waiting, spec.pause && s.keepRunning, false, false, false, NoReason, NoWorker, SUCCESS)],
             waiting := InsertAt(s.waiting, AddPosition(s, spec.position), g))
  }

  /** A halt request reaches a worker that has a context. */
  function Cancel(w: Worker): Worker {
    if w == NoWorker then NoWorker else Halted
  }

  function DoPause(s: State, g: Gid, forced: bool): State {
    if g !in s.groups || s.groups[g].paused then s
    else
      var rg := s.groups[g];
      if rg.state == Active then
        if rg.worker == NoWorker then
          s.(active := Without(s.active, g), waiting := [g] + s.waiting,
             groups := s.groups[g := rg.(paused := true, state := Waiting, halt := false, force := false)])
        else
          var asked := if forced then rg.(paused := true, force := true) else rg.(paused := true, halt := true);
          s.(groups := s.groups[g := asked.(worker := Halted)])
      else if rg.state == Waiting then s.(groups := s.groups[g := rg.(paused := true)])
      else s
  }

  function DoResume(s: State, g: Gid): State {
    if g !in s.groups || s.groups[g].state != Waiting || !s.groups[g].paused then s
    else s.(groups := s.groups[g := s.groups[g].(paused := false)])
  }

  function StopActive(s: State, g: Gid, state: Status, code: int): State {
    s.(active := Without(s.active, g), groups := s.groups - {g}, stopped := s.stopped + [Stopped(g, state, code)])
  }

  function DoRemove(s: State, g: Gid, forced: bool): State {
    if g !in s.groups then s
    else
      var rg := s.groups[g].(halt := true, force := forced, reason := UserRequest);
      if rg.state == Active then
        if rg.worker == NoWorker then StopActive(s, g, Removed, REMOVED)
        else s.(groups := s.groups[g := rg.(paused := false, restart := false, worker := Halted)])
      else if rg.state == Waiting then
        s.(waiting := Without(s.waiting, g), groups := s.groups - {g}, dropped := s.dropped + {g})
      else s.(groups := s.groups[g := rg])
  }

  /** Changed options of an active download take effect through a restart. */
  function DoChangeOption(s: State, g: Gid): State {
    if g !in s.groups || s.groups[g].state != Active then s
    else
      var rg := s.groups[g];
      s.(groups := s.groups[g := rg.(restart := true, paused := true, worker := Cancel(rg.worker))])
  }

  function Clamp(dest: int, n: nat): (r: nat)
    requires n > 0
    ensures r < n
  {
    if dest < 0 then 0 else if dest >= n then n - 1 else dest
  }

  /** The position a caller asks for, limited to the queue. */
  function Wanted(q: seq<Gid>, g: Gid, pos: int, how: How): (r: nat)
    requires g in q
    ensures r < |q|
  {
    var at := match how case PosSet => pos case PosCur => IndexOf(q, g) + pos case PosEnd => |q| + pos;
    Clamp(at, |q|)
  }

  /** Where the download goes: one less than asked when it moves towards the end. */
  function Landing(q: seq<Gid>, g: Gid, pos: int, how: How): (r: nat)
    requires g in q
    ensures r < |q|
  {
    var dest := Wanted(q, g, pos, how);
    if dest > IndexOf(q, g) then dest - 1 else dest
  }

  function Moved(q: seq<Gid>, g: Gid, dest: nat): seq<Gid>
    requires g in q && dest < |q|
  {
    var k := IndexOf(q, g);
    InsertAt(q[..k] + q[k + 1..], dest, g)
  }

  function DoChangePosition(s: State, g: Gid, pos: int, how: How): State {
    if g !in s.groups || s.groups[g].state != Waiting || g !in s.waiting then s
    else s.(waiting := Moved(s.waiting, g, Landing(s.waiting, g, pos, how)))
  }

  // ----- What happens without a caller -----

  /** A worker ends by itself, successfully or with an error code. */
  function DoFinish(s: State, g: Gid, code: int): State {
    if g !in s.groups || s.groups[g].worker != Working then s
    else s.(groups := s.groups[g := s.groups[g].(code := code, worker := Halted)])
  }

  function MarkShutdown(s: State, forced: bool): map<Gid, Group> {
    map g | g in s.groups ::
      var rg := s.groups[g];
      var asked := if g in s.active
                   then rg.(halt := true, reason := ShutdownSignal, force := rg.force || forced)
                   else rg;
      if s.running then asked.(worker := Cancel(rg.worker)) else asked
  }

  function DoShutdown(s: State, forced: bool): State {
    if s.shuttingDown && !forced then s
    else s.(shuttingDown := true, canceled := s.canceled || s.running, groups := MarkShutdown(s, forced))
  }

  // ----- Reaping -----

  /** The active downloads whose worker has ended. */
  ghost function Ended(s: State): set<Gid> {
    set g | g in s.active && g in s.groups && s.groups[g].worker == Halted
  }

  function Outcome(rg: Group): (Status, int) {
    if rg.halt then
      if rg.reason == UserRequest then (Removed, REMOVED)
      else (Errored, if rg.code != SUCCESS then rg.code else IN_PROGRESS)
    else (if rg.code != SUCCESS then Errored else Complete, rg.code)
  }

  /** A paused or restarting download goes back to the front of the waiting queue, any other is stopped. */
  function ReapOne(s: State, g: Gid): State {
    if g !in s.groups then s
    else
      var rg := s.groups[g];
      if rg.paused then
        s.(active := Without(s.active, g), waiting := [g] + s.waiting,
           groups := s.groups[g := rg.(state := Waiting, paused := !rg.restart, restart := false,
                                       force := false, halt := false, reason := NoReason)])
      else StopActive(s, g, Outcome(rg).0, Outcome(rg).1)
  }

  function ReapEach(s: State, gids: seq<Gid>): State
    decreases |gids|
  {
    if gids == [] then s else ReapEach(ReapOne(s, gids[0]), gids[1..])
  }

  ghost function DoReap(s: State): State {
    ReapEach(s, Sub(s.active, Ended(s)))
  }

  // ----- Promotion -----

  function Limit(max: int): (r: nat)
    ensures r >= 1
  {
    if max <= 0 then 1 else max
  }

  /** One pass over the waiting queue: what stays, and what is taken. */
  function Pass(q: seq<Gid>, num: nat, groups: map<Gid, Group>): (r: (seq<Gid>, seq<Gid>)) {
    if q == [] || num == 0 then (q, [])
    else if q[0] !in groups then Pass(q[1..], num, groups)
    else if groups[q[0]].paused then
      var p := Pass(q[1..], num, groups);
      ([q[0]] + p.0, p.1)
    else
      var p := Pass(q[1..], num - 1, groups);
      (p.0, [q[0]] + p.1)
  }

  /** A promoted download is active; a running engine gives it a fresh context, already done if the engine's is. */
  function Launched(s: State, rg: Group): Group {
    rg.(state := Active, worker := if !s.running then rg.worker else if s.canceled then Halted else Working)
  }

  function Launch(s: State, taken: seq<Gid>): map<Gid, Group> {
    map g | g in s.groups :: if g in taken then Launched(s, s.groups[g]) else s.groups[g]
  }

  function DoPromote(s: State): State {
    if |s.active| >= Limit(s.max) then s
    else
      var p := Pass(s.waiting, Limit(s.max) - |s.active|, s.groups);
      s.(active := s.active + p.1, waiting := p.0, groups := Launch(s, p.1))
  }

  // ----- End of run -----

  function EndActive(s: State, g: Gid): State {
    if g !in s.groups || s.groups[g].state != Active then s
    else StopActive(s, g, Errored, if s.groups[g].code != SUCCESS then s.groups[g].code else IN_PROGRESS)
  }

  function EndWaiting(s: State, g: Gid): State {
    if g !in s.groups then s
    else
      s.(waiting := Without(s.waiting, g), groups := s.groups - {g},
         stopped := s.stopped + [Stopped(g, if s.groups[g].paused then Errored else Removed, REMOVED)])
  }

  function EndEachActive(s: State, gids: seq<Gid>): State
    decreases |gids|
  {
    if gids == [] then s else EndEachActive(EndActive(s, gids[0]), gids[1..])
  }

  function EndEachWaiting(s: State, gids: seq<Gid>): State
    decreases |gids|
  {
    if gids == [] then s else EndEachWaiting(EndWaiting(s, gids[0]), gids[1..])
  }

  function DoEndOfRun(s: State): State {
    EndEachWaiting(EndEachActive(s, s.active), s.waiting)
  }

  // ----- Runs -----

  /** Randomness delivers, in the end, a GID that is not zero and was never issued. */
  predicate Enabled(s: State, step: Step) {
    step.Add? ==> Usable(s, step.draw)
  }

  ghost function Next(s: State, step: Step): State {
    match step
    case Start => s.(running := true)
    case SetMax(n) => s.(max := n)
    case Add(spec, draw) => DoAdd(s, spec, draw)
    case Pause(g, forced) => DoPause(s, g, forced)
    case Resume(g) => DoResume(s, g)
    case Remove(g, forced) => DoRemove(s, g, forced)
    case ChangeOption(g) => DoChangeOption(s, g)
    case ChangePosition(g, pos, how) => DoChangePosition(s, g, pos, how)
    case Finish(g, code) => DoFinish(s, g, code)
    case Shutdown(forced) => DoShutdown(s, forced)
    case Reap => DoReap(s)
    case Promote => DoPromote(s)
    case EndOfRun => DoEndOfRun(s)
  }

  ghost predicate Runs(s: State, steps: seq<Step>)
    decreases |steps|
  {
    steps == [] || (Enabled(s, steps[0]) && Runs(Next(s, steps[0]), steps[1..]))
  }

  ghost function After(s: State, steps: seq<Step>): State
    decreases |steps|
  {
    if steps == [] then s else After(Next(s, steps[0]), steps[1..])
  }
}
