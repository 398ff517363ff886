/** What happens to the segments of a download, over runs of requests. */
module SegmentEffects {
  import opened Bytes
  import opened Segments

  /** All segments but `k` are the same, and there are as many. */
  ghost predicate OthersSame(s: State, r: State, k: int) {
    |r.segs| == |s.segs| && forall i :: 0 <= i < |s.segs| && i != k ==> r.segs[i] == s.segs[i]
  }

  // ----- Handing out -----

  /** The segment `j` places on from `next`, around the circle. */
  function Onward(segs: seq<Segment>, next: nat, j: nat): nat
    requires segs != []
  {
    (next + j) % |segs|
  }

  predicate FreeAround(segs: seq<Segment>, next: nat, j: nat)
    requires segs != []
  {
    Free(segs[Onward(segs, next, j)])
  }

  lemma {:induction false} FreeFromFirst(segs: seq<Segment>, next: nat, i: nat) returns (k: nat)
    requires i < |segs| && FreeFrom(segs, next, i).Some?
    ensures i <= k < |segs| && FreeFrom(segs, next, i).value == Onward(segs, next, k)
    ensures forall j :: i <= j < k ==> !FreeAround(segs, next, j)
    decreases |segs| - i
  {
    hide FreeFrom;
    FreeUnfold(segs, next, i);
    if FreeAround(segs, next, i) {
      k := i;
    } else {
      if i + 1 == |segs| {
        FreeEnd(segs, next);
        assert false;
      }
      k := FreeFromFirst(segs, next, i + 1);
    }
  }

  /** The first free segment counting on circularly is claimed and nothing else changes. */
  lemma NextExact(s: State) returns (k: nat)
    requires Picked(s).Some?
    ensures k < |s.segs| && Picked(s).value == Onward(s.segs, s.next, k) && Free(s.segs[Picked(s).value])
    ensures forall j :: 0 <= j < k ==> !FreeAround(s.segs, s.next, j)
    ensures var p, r := Picked(s).value, Apply(s, Next);
            && OthersSame(s, r, p) && r.next == (p + 1) % |s.segs|
            && r.segs[p].claimed && r.segs[p].(claimed := false) == s.segs[p]
  {
    NextPlace(Picked(s).value, |s.segs|);
    hide FreeFrom, Onward;
    k := FreeFromFirst(s.segs, s.next, 0);
  }

  lemma NextPlace(p: nat, n: nat)
    requires p < n
    ensures (p + 1) % n == if p + 1 >= n then 0 else p + 1
  {
    if p + 1 == n {
      WrapOnce(0, n);
    }
  }

  /** Without a free segment asking changes nothing. */
  lemma NoneLeft(s: State)
    requires Picked(s).None?
    ensures Apply(s, Next) == s
  {
  }

  function CountFree(segs: seq<Segment>): nat {
    if segs == [] then 0 else CountFree(segs[..|segs| - 1]) + if Free(segs[|segs| - 1]) then 1 else 0
  }

  lemma {:induction false} CountClaim(segs: seq<Segment>, k: nat, s: Segment)
    requires k < |segs| && Free(segs[k]) && !Free(s)
    ensures CountFree(segs[k := s]) == CountFree(segs) - 1
  {
    var n := |segs| - 1;
    if k == n {
      assert segs[k := s][..n] == segs[..n];
    } else {
      assert segs[k := s][..n] == segs[..n][k := s];
      CountClaim(segs[..n], k, s);
    }
  }

  function Asks(n: nat): (r: seq<Step>)
    ensures |r| == n
  {
    if n == 0 then [] else [Next] + Asks(n - 1)
  }

  /** A free segment is handed out within as many requests as there are free segments. */
  lemma {:induction false} EventuallyHanded(s: State, idx: nat) returns (n: nat)
    requires Positioned(s) && idx < |s.segs| && Free(s.segs[idx])
    ensures n <= CountFree(s.segs) && Handed(s, Asks(n), idx) == 1
    decreases CountFree(s.segs)
  {
    NextIsExhaustive(s);
    var p, r := Picked(s).value, Apply(s, Next);
    CountClaim(s.segs, p, s.segs[p].(claimed := true));
    assert r.segs == s.segs[p := s.segs[p].(claimed := true)];
    hide Picked, Apply, CountFree;
    if p == idx {
      n := 1;
      assert Asks(1) == [Next] && Asks(1)[1..] == [];
      HandedNow(s, idx);
    } else {
      var m := EventuallyHanded(r, idx);
      n := m + 1;
      assert Asks(n)[1..] == Asks(m) && Asks(n)[0] == Next;
      HandedLater(s, Asks(n), idx);
    }
  }

  lemma HandedNow(s: State, idx: nat)
    requires Picked(s) == Some(idx)
    ensures Handed(s, [Next], idx) == 1
  {
    assert [Next][1..] == [];
  }

  lemma HandedLater(s: State, steps: seq<Step>, idx: nat)
    requires steps != [] && steps[0] == Next && Picked(s) != Some(idx)
    ensures Handed(s, steps, idx) == Handed(Apply(s, Next), steps[1..], idx)
  {
  }

  // ----- Giving back -----

  /** A segment in progress is free again; nothing else changes. A finished one is left alone. */
  lemma UnclaimExact(s: State, idx: int)
    ensures var r := Apply(s, Unclaim(idx));
            if 0 <= idx < |s.segs| && !s.segs[idx].done
            then OthersSame(s, r, idx) && Free(r.segs[idx]) && r.segs[idx] == s.segs[idx].(claimed := false) && r.next == s.next
            else r == s
  {
  }

  /** What was given back is handed out again to someone who goes on asking. */
  lemma UnclaimedIsHanded(s: State, idx: nat) returns (n: nat)
    requires Positioned(s) && InProgress(s, idx)
    ensures n <= |s.segs| && Handed(s, [Unclaim(idx)] + Asks(n), idx) == 1
  {
    var r := Apply(s, Unclaim(idx));
    UnclaimExact(s, idx);
    n := EventuallyHanded(r, idx);
    FreeAtMost(r.segs);
    assert ([Unclaim(idx)] + Asks(n))[1..] == Asks(n);
  }

  lemma {:induction false} FreeAtMost(segs: seq<Segment>)
    ensures CountFree(segs) <= |segs|
  {
    if segs != [] {
      FreeAtMost(segs[..|segs| - 1]);
    }
  }

  // ----- Finishing -----

  /** The segment is done with what was written; nothing else changes. */
  lemma MarkDoneExact(s: State, idx: int, written: int)
    ensures var r := Apply(s, MarkDone(idx, written));
            if 0 <= idx < |s.segs|
            then OthersSame(s, r, idx) && r.next == s.next
                 && r.segs[idx] == Segment(s.segs[idx].start, s.segs[idx].end, written, true, false)
            else r == s
  {
  }

  lemma DoneUnchanged(s: State, step: Step, idx: nat)
    requires idx < |s.segs| && s.segs[idx].done && !s.segs[idx].claimed && !(step.MarkDone? && step.idx == idx)
    ensures idx < |Apply(s, step).segs| && Apply(s, step).segs[idx] == s.segs[idx]
  {
  }

  lemma {:induction false} DoneForever(s: State, steps: seq<Step>, idx: nat)
    requires idx < |s.segs| && s.segs[idx].done && !s.segs[idx].claimed
    requires forall i :: 0 <= i < |steps| ==> !(steps[i].MarkDone? && steps[i].idx == idx)
    ensures idx < |After(s, steps).segs| && After(s, steps).segs[idx] == s.segs[idx]
    decreases |steps|
  {
    hide Apply;
    if steps != [] {
      DoneUnchanged(s, steps[0], idx);
      DoneForever(Apply(s, steps[0]), steps[1..], idx);
    }
  }

  /**
    Once finished a segment stays finished through every run, keeps its range
    and is handed to nobody; what was written stays until it is recorded anew.
   */
  lemma FinishedForGood(s: State, idx: nat, written: int, steps: seq<Step>)
    requires idx < |s.segs|
    ensures var m := Apply(s, MarkDone(idx, written));
            var r := After(m, steps);
            && Handed(m, steps, idx) == 0 && idx < |r.segs| && r.segs[idx].done
            && ((forall i :: 0 <= i < |steps| ==> !(steps[i].MarkDone? && steps[i].idx == idx)) ==>
                  r.segs[idx] == Segment(s.segs[idx].start, s.segs[idx].end, written, true, false))
  {
    hide Apply, After;
    var m := Apply(s, MarkDone(idx, written));
    MarkDoneExact(s, idx, written);
    NoneAfterDone(m, steps, idx);
    if forall i :: 0 <= i < |steps| ==> !(steps[i].MarkDone? && steps[i].idx == idx) {
      DoneForever(m, steps, idx);
    }
  }

  // ----- Splitting -----

  /** No splittable segment has more left, and none before it as much. */
  ghost predicate MostLeft(segs: seq<Segment>, least: int, k: nat)
    requires k < |segs|
  {
    && Splittable(segs[k], least)
    && (forall i :: 0 <= i < |segs| && Splittable(segs[i], least) ==> Remaining(segs[i]) <= Remaining(segs[k]))
    && (forall i :: 0 <= i < k && Splittable(segs[i], least) ==> Remaining(segs[i]) < Remaining(segs[k]))
  }

  lemma {:induction false} LargestFirst(segs: seq<Segment>, least: int, n: nat)
    requires n <= |segs| && Largest(segs, least, n).Some?
    ensures var k := Largest(segs, least, n).value;
            forall i :: 0 <= i < k && Splittable(segs[i], least) ==> Remaining(segs[i]) < Remaining(segs[k])
  {
    hide Splittable;
    if n > 0 && Largest(segs, least, n - 1).Some? {
      LargestFirst(segs, least, n - 1);
    }
  }

  /** The first segment with most left is cut in two equal parts; the second is a new free segment at the end. */
  lemma SplitExact(s: State, least: int)
    ensures var r := Apply(s, Split(least));
            if least > 0 && exists i :: 0 <= i < |s.segs| && Splittable(s.segs[i], least)
            then
              && |r.segs| == |s.segs| + 1 && r.next == 0
              && exists k :: 0 <= k < |s.segs| && MostLeft(s.segs, least, k)
                   && (forall i :: 0 <= i < |s.segs| && i != k ==> r.segs[i] == s.segs[i])
                   && Halved(s.segs[k], r.segs[k], r.segs[|s.segs|])
            else r == s
  {
    hide Splittable, Remaining;
    var k := Largest(s.segs, least, |s.segs|);
    if least > 0 && k.Some? {
      LargestFirst(s.segs, least, |s.segs|);
      assert MostLeft(s.segs, least, k.value);
      var r := Apply(s, Split(least));
      assert Halved(s.segs[k.value], r.segs[k.value], r.segs[|s.segs|]);
    }
  }

  predicate Halved(whole: Segment, left: Segment, right: Segment) {
    && left == whole.(end := left.end) && left.end == right.start && right.end == whole.end
    && Free(right) && right.written == 0
    && 0 <= (right.end - right.start) - (left.end - left.start) <= 1
  }

  // ----- What was written -----

  lemma {:induction false} WrittenChange(segs: seq<Segment>, k: nat, s: Segment)
    requires k < |segs|
    ensures WrittenIn(segs[k := s]) == WrittenIn(segs) - segs[k].written + s.written
  {
    var n := |segs| - 1;
    if k == n {
      assert segs[k := s][..n] == segs[..n];
    } else {
      assert segs[k := s][..n] == segs[..n][k := s];
      WrittenChange(segs[..n], k, s);
    }
  }

  /** Only finishing a segment changes what is recorded, and by the difference it makes. */
  lemma WrittenStep(s: State, step: Step)
    ensures WrittenIn(Apply(s, step).segs) == WrittenIn(s.segs)
              + if step.MarkDone? && 0 <= step.idx < |s.segs| then step.written - s.segs[step.idx].written else 0
  {
    hide WrittenIn, Largest, FreeFrom;
    match step
    case Next =>
      if Picked(s).Some? {
        var p := Picked(s).value;
        WrittenChange(s.segs, p, s.segs[p].(claimed := true));
      }
    case Unclaim(idx) =>
      if 0 <= idx < |s.segs| {
        WrittenChange(s.segs, idx, s.segs[idx].(claimed := false));
      }
    case MarkDone(idx, written) =>
      if 0 <= idx < |s.segs| {
        WrittenChange(s.segs, idx, s.segs[idx].(written := written, done := true, claimed := false));
      }
    case Split(least) =>
      var k := Largest(s.segs, least, |s.segs|);
      if least > 0 && k.Some? {
        var mid := (s.segs[k.value].start + s.segs[k.value].end) / 2;
        WrittenChange(s.segs, k.value, s.segs[k.value].(end := mid));
        WrittenAppend(s.segs[k.value := s.segs[k.value].(end := mid)], NewSegment(mid, s.segs[k.value].end));
      }
  }

  lemma WrittenAppend(segs: seq<Segment>, s: Segment)
    ensures WrittenIn(segs + [s]) == WrittenIn(segs) + s.written
  {
    assert (segs + [s])[..|segs|] == segs;
  }

  /** When every segment has been written in full, the whole file is recorded. */
  lemma {:induction false} WrittenInFull(segs: seq<Segment>)
    requires forall i :: 0 <= i < |segs| ==> segs[i].written == segs[i].end - segs[i].start
    ensures WrittenIn(segs) == TotalSize(segs)
  {
    if segs != [] {
      WrittenInFull(segs[..|segs| - 1]);
    }
  }
}
