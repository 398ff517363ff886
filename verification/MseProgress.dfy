/**
  Who waits for whom during the handshake. Each side is at a stage, has received
  so many bytes and has sent what its stage allows; a read takes any part of what
  the other side has sent so far.
 */
module MseProgress {
  import opened MseSpec

  /** How many bytes the two sides send behind their public keys. */
  datatype Lengths = Lengths(afterA: nat, afterB: nat)

  datatype State = State(stageA: nat, gotA: nat, stageB: nat, gotB: nat)

  /** The initiator sends its key at once and the rest when it has the receiver's key. */
  function SentA(l: Lengths, s: State): nat {
    if s.stageA == 0 then KEY_LENGTH else KEY_LENGTH + l.afterA
  }

  /** The receiver sends nothing before it has the initiator's key, and the rest at the very end. */
  function SentB(l: Lengths, s: State): nat {
    if s.stageB == 0 then 0 else if s.stageB == 1 then KEY_LENGTH else KEY_LENGTH + l.afterB
  }

  function NeedA(l: Lengths, s: State): nat {
    if s.stageA == 0 then KEY_LENGTH else KEY_LENGTH + l.afterB
  }

  function NeedB(l: Lengths, s: State): nat {
    if s.stageB == 0 then KEY_LENGTH else KEY_LENGTH + l.afterA
  }

  predicate Done(s: State) {
    s.stageA == 2 && s.stageB == 2
  }

  datatype Step = ReadA(n: nat) | ReadB(n: nat) | AdvanceA | AdvanceB

  predicate Enabled(l: Lengths, s: State, step: Step) {
    match step
    case ReadA(n) => s.stageA < 2 && s.gotA < NeedA(l, s) && 1 <= n && s.gotA + n <= SentB(l, s)
    case ReadB(n) => s.stageB < 2 && s.gotB < NeedB(l, s) && 1 <= n && s.gotB + n <= SentA(l, s)
    case AdvanceA => s.stageA < 2 && s.gotA >= NeedA(l, s)
    case AdvanceB => s.stageB < 2 && s.gotB >= NeedB(l, s)
  }

  function Next(s: State, step: Step): State {
    match step
    case ReadA(n) => s.(gotA := s.gotA + n)
    case ReadB(n) => s.(gotB := s.gotB + n)
    case AdvanceA => s.(stageA := s.stageA + 1)
    case AdvanceB => s.(stageB := s.stageB + 1)
  }

  function Init(): State {
    State(0, 0, 0, 0)
  }

  function After(steps: seq<Step>): State {
    if steps == [] then Init() else Next(After(steps[..|steps| - 1]), steps[|steps| - 1])
  }

  /** A run takes only steps that are enabled where they are taken. */
  predicate Run(l: Lengths, steps: seq<Step>) {
    steps == [] ||
    (Run(l, steps[..|steps| - 1]) && Enabled(l, After(steps[..|steps| - 1]), steps[|steps| - 1]))
  }

  ghost predicate Inv(l: Lengths, s: State) {
    && s.stageA <= 2 && s.stageB <= 2
    && s.gotA <= SentB(l, s) && s.gotB <= SentA(l, s)
    && (s.stageA >= 1 ==> s.gotA >= KEY_LENGTH) && (s.stageB >= 1 ==> s.gotB >= KEY_LENGTH)
    && (s.stageA == 2 ==> s.gotA >= KEY_LENGTH + l.afterB) && (s.stageB == 2 ==> s.gotB >= KEY_LENGTH + l.afterA)
  }

  /** What is left to do; every step makes it smaller. */
  function Remaining(l: Lengths, s: State): int {
    (2 * KEY_LENGTH + l.afterA + l.afterB - s.gotA - s.gotB) + (4 - s.stageA - s.stageB)
  }

  lemma StepKeepsInv(l: Lengths, s: State, step: Step)
    requires Inv(l, s) && Enabled(l, s, step)
    ensures Inv(l, Next(s, step))
    ensures 0 <= Remaining(l, Next(s, step)) < Remaining(l, s)
  {
  }

  /** Every run keeps the invariant and takes no more steps than there are bytes and stages. */
  lemma {:induction false} RunInv(l: Lengths, steps: seq<Step>)
    requires Run(l, steps)
    ensures Inv(l, After(steps))
    ensures |steps| + Remaining(l, After(steps)) <= Remaining(l, Init())
  {
    if steps != [] {
      var m := |steps| - 1;
      RunInv(l, steps[..m]);
      StepKeepsInv(l, After(steps[..m]), steps[m]);
    }
  }

  /** The handshake never blocks: after every run some side can go on, until both are done. */
  lemma NoDeadlock(l: Lengths, steps: seq<Step>) returns (step: Step)
    requires Run(l, steps) && !Done(After(steps))
    ensures Run(l, steps + [step])
  {
    RunInv(l, steps);
    var s := After(steps);
    if s.stageA < 2 && s.gotA >= NeedA(l, s) {
      step := AdvanceA;
    } else if s.stageB < 2 && s.gotB >= NeedB(l, s) {
      step := AdvanceB;
    } else if s.stageA < 2 && s.gotA < SentB(l, s) {
      step := ReadA(1);
    } else {
      step := ReadB(1);
    }
    assert (steps + [step])[..|steps|] == steps;
  }
}
