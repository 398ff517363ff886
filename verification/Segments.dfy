/** The byte ranges of one download: handed to workers, given back, finished and split. */
module Segments {
  import opened Bytes

  /** `start` is inside, `end` is not. */
  datatype Segment = Segment(start: int, end: int, written: int, done: bool, claimed: bool)

  function NewSegment(start: int, end: int): Segment {
    Segment(start, end, 0, false, false)
  }

  predicate Free(s: Segment) {
    !s.done && !s.claimed
  }

  predicate Holds(s: Segment, b: int) {
    s.start <= b < s.end
  }

  /** Non-empty segments of which no two share a byte. */
  ghost predicate Disjoint(segs: seq<Segment>) {
    && (forall i :: 0 <= i < |segs| ==> segs[i].start < segs[i].end)
    && (forall i, j :: 0 <= i < j < |segs| ==> segs[i].end <= segs[j].start || segs[j].end <= segs[i].start)
  }

  /** Every byte of `bytes`, and no other, is in some segment. */
  ghost predicate Covers(segs: seq<Segment>, bytes: iset<int>) {
    forall b :: b in bytes <==> Held(segs, b)
  }

  ghost predicate Held(segs: seq<Segment>, b: int) {
    exists i :: 0 <= i < |segs| && Holds(segs[i], b)
  }

  ghost predicate Tiles(segs: seq<Segment>, bytes: iset<int>) {
    Disjoint(segs) && Covers(segs, bytes)
  }

  predicate Within(b: int, lo: int, hi: int) {
    lo <= b < hi
  }

  ghost function Range(lo: int, hi: int): iset<int> {
    iset b | Within(b, lo, hi)
  }

  function TotalSize(segs: seq<Segment>): int {
    if segs == [] then 0 else TotalSize(segs[..|segs| - 1]) + segs[|segs| - 1].end - segs[|segs| - 1].start
  }

  function WrittenIn(segs: seq<Segment>): int {
    if segs == [] then 0 else WrittenIn(segs[..|segs| - 1]) + segs[|segs| - 1].written
  }

  /** A segment that starts where everything before it ends. */
  lemma TilesAppend(segs: seq<Segment>, bytes: iset<int>, s: Segment)
    requires Tiles(segs, bytes) && s.start < s.end && forall b :: b in bytes ==> b < s.start
    ensures Tiles(segs + [s], bytes + Range(s.start, s.end))
    ensures TotalSize(segs + [s]) == TotalSize(segs) + s.end - s.start
  {
    var r := segs + [s];
    assert r[..|segs|] == segs;
    forall i | 0 <= i < |segs|
      ensures segs[i].end <= s.start
    {
      assert Holds(segs[i], segs[i].end - 1) && Held(segs, segs[i].end - 1);
    }
    forall b
      ensures b in bytes + Range(s.start, s.end) <==> Held(r, b)
    {
      if b in bytes {
        var i :| 0 <= i < |segs| && Holds(segs[i], b);
        assert Holds(r[i], b);
      }
      if b in Range(s.start, s.end) {
        assert Holds(r[|segs|], b);
      }
      if i :| 0 <= i < |r| && Holds(r[i], b) {
        if i < |segs| {
          assert Holds(segs[i], b);
        }
      }
    }
  }

  // ----- Operations on values -----

  datatype State = State(segs: seq<Segment>, next: nat)

  datatype Step = Next | Unclaim(idx: int) | MarkDone(idx: int, written: int) | Split(least: int)

  /** The first free segment, counting on circularly from `next`. */
  function FreeFrom(segs: seq<Segment>, next: nat, i: nat): (r: Option<nat>)
    requires i <= |segs|
    ensures r.Some? ==> r.value < |segs| && Free(segs[r.value])
    decreases |segs| - i
  {
    if i == |segs| then None
    else
      var idx := (next + i) % |segs|;
      if Free(segs[idx]) then Some(idx) else FreeFrom(segs, next, i + 1)
  }

  function Picked(s: State): Option<nat> {
    FreeFrom(s.segs, s.next, 0)
  }

  function DoNext(s: State): State {
    var p := Picked(s);
    if p.None? then s
    else State(s.segs[p.value := s.segs[p.value].(claimed := true)], if p.value + 1 >= |s.segs| then 0 else p.value + 1)
  }

  function DoUnclaim(s: State, idx: int): State {
    if 0 <= idx < |s.segs| && !s.segs[idx].done then s.(segs := s.segs[idx := s.segs[idx].(claimed := false)]) else s
  }

  function DoMarkDone(s: State, idx: int, written: int): State {
    if 0 <= idx < |s.segs|
    then s.(segs := s.segs[idx := s.segs[idx].(written := written, done := true, claimed := false)])
    else s
  }

  function Remaining(s: Segment): int {
    s.end - s.start - s.written
  }

  /** In progress, long enough and with something left. */
  predicate Splittable(s: Segment, least: int) {
    !s.done && s.claimed && s.end != -1 && s.end - s.start >= 2 * least && Remaining(s) > 0
  }

  /** The first of the splittable segments with most remaining, among the first `n`. */
  function Largest(segs: seq<Segment>, least: int, n: nat): (r: Option<nat>)
    requires n <= |segs|
    ensures r.Some? ==> r.value < n && Splittable(segs[r.value], least)
    ensures forall i :: 0 <= i < n && Splittable(segs[i], least) ==>
              r.Some? && Remaining(segs[i]) <= Remaining(segs[r.value])
  {
    if n == 0 then None
    else
      var p := Largest(segs, least, n - 1);
      if Splittable(segs[n - 1], least) && (p.None? || Remaining(segs[n - 1]) > Remaining(segs[p.value]))
      then Some(n - 1) else p
  }

  function SplitAt(segs: seq<Segment>, k: nat): seq<Segment>
    requires k < |segs|
  {
    var mid := (segs[k].start + segs[k].end) / 2;
    segs[k := segs[k].(end := mid)] + [NewSegment(mid, segs[k].end)]
  }

  function DoSplit(s: State, least: int): State {
    if least <= 0 then s
    else
      var k := Largest(s.segs, least, |s.segs|);
      if k.None? then s else State(SplitAt(s.segs, k.value), 0)
  }

  function Apply(s: State, step: Step): State {
    match step
    case Next => DoNext(s)
    case Unclaim(idx) => DoUnclaim(s, idx)
    case MarkDone(idx, written) => DoMarkDone(s, idx, written)
    case Split(least) => DoSplit(s, least)
  }

  function After(s: State, steps: seq<Step>): State
    decreases |steps|
  {
    if steps == [] then s else After(Apply(s, steps[0]), steps[1..])
  }

  // ----- Tiling -----

  lemma {:induction false} TotalSame(a: seq<Segment>, b: seq<Segment>)
    requires |a| == |b| && forall i :: 0 <= i < |a| ==> a[i].start == b[i].start && a[i].end == b[i].end
    ensures TotalSize(a) == TotalSize(b)
  {
    if a != [] {
      TotalSame(a[..|a| - 1], b[..|b| - 1]);
    }
  }

  /** Marking a segment does not move it. */
  lemma MarkTiles(segs: seq<Segment>, bytes: iset<int>, k: nat, s: Segment)
    requires Tiles(segs, bytes) && k < |segs| && s.start == segs[k].start && s.end == segs[k].end
    ensures Tiles(segs[k := s], bytes) && TotalSize(segs[k := s]) == TotalSize(segs)
  {
    var r := segs[k := s];
    TotalSame(segs, r);
    forall b
      ensures Held(r, b) <==> Held(segs, b)
    {
      if i :| 0 <= i < |r| && Holds(r[i], b) {
        assert Holds(segs[i], b);
      }
      if i :| 0 <= i < |segs| && Holds(segs[i], b) {
        assert Holds(r[i], b);
      }
    }
  }

  lemma {:induction false} TotalChange(segs: seq<Segment>, k: nat, s: Segment)
    requires k < |segs|
    ensures TotalSize(segs[k := s]) == TotalSize(segs) + (s.end - s.start) - (segs[k].end - segs[k].start)
  {
    var n := |segs| - 1;
    if k == n {
      assert segs[k := s][..n] == segs[..n];
    } else {
      assert segs[k := s][..n] == segs[..n][k := s];
      TotalChange(segs[..n], k, s);
    }
  }

  lemma SplitCovers(segs: seq<Segment>, bytes: iset<int>, k: nat)
    requires Covers(segs, bytes) && k < |segs| && segs[k].start < segs[k].end
    ensures Covers(SplitAt(segs, k), bytes)
  {
    var r, n := SplitAt(segs, k), |segs|;
    forall b
      ensures b in bytes <==> Held(r, b)
    {
      if b in bytes {
        var i :| 0 <= i < n && Holds(segs[i], b);
        assert Holds(r[i], b) || Holds(r[n], b);
      }
      if i :| 0 <= i < |r| && Holds(r[i], b) {
        assert Holds(segs[if i == n then k else i], b);
      }
    }
  }

  lemma SplitTiles(segs: seq<Segment>, bytes: iset<int>, k: nat)
    requires Tiles(segs, bytes) && k < |segs| && segs[k].end - segs[k].start >= 2
    ensures Tiles(SplitAt(segs, k), bytes) && TotalSize(SplitAt(segs, k)) == TotalSize(segs)
  {
    hide Covers;
    var mid := (segs[k].start + segs[k].end) / 2;
    var half := segs[k := segs[k].(end := mid)];
    SplitCovers(segs, bytes, k);
    TotalChange(segs, k, segs[k].(end := mid));
    assert (half + [NewSegment(mid, segs[k].end)])[..|half|] == half;
  }

  /** Claiming, giving back, finishing and splitting leave the file tiled as it was. */
  lemma StepTiles(s: State, step: Step, bytes: iset<int>)
    requires Tiles(s.segs, bytes)
    ensures Tiles(Apply(s, step).segs, bytes) && TotalSize(Apply(s, step).segs) == TotalSize(s.segs)
  {
    hide Tiles, TotalSize;
    match step
    case Next =>
      var p := Picked(s);
      if p.Some? {
        MarkTiles(s.segs, bytes, p.value, s.segs[p.value].(claimed := true));
      }
    case Unclaim(idx) =>
      if DoUnclaim(s, idx) != s {
        MarkTiles(s.segs, bytes, idx, s.segs[idx].(claimed := false));
      }
    case MarkDone(idx, written) =>
      if DoMarkDone(s, idx, written) != s {
        MarkTiles(s.segs, bytes, idx, s.segs[idx].(written := written, done := true, claimed := false));
      }
    case Split(least) =>
      if DoSplit(s, least) != s {
        SplitTiles(s.segs, bytes, Largest(s.segs, least, |s.segs|).value);
      }
  }

  lemma {:induction false} RunTiles(s: State, steps: seq<Step>, bytes: iset<int>)
    requires Tiles(s.segs, bytes)
    ensures Tiles(After(s, steps).segs, bytes) && TotalSize(After(s, steps).segs) == TotalSize(s.segs)
    decreases |steps|
  {
    hide Tiles, TotalSize, Apply;
    if steps != [] {
      StepTiles(s, steps[0], bytes);
      RunTiles(Apply(s, steps[0]), steps[1..], bytes);
    }
  }

  // ----- Claims -----

  lemma {:induction false} FreeFromMisses(segs: seq<Segment>, next: nat, i: nat, k: nat)
    requires i <= k < |segs| && FreeFrom(segs, next, i).None?
    ensures !Free(segs[(next + k) % |segs|])
    decreases |segs| - i
  {
    if i < k {
      FreeFromMisses(segs, next, i + 1, k);
    }
  }

  /** Every index is met once around the circle. */
  lemma Around(next: nat, idx: nat, n: nat) returns (k: nat)
    requires idx < n && next < n
    ensures k < n && (next + k) % n == idx
  {
    k := if idx >= next then idx - next else idx + n - next;
    if idx < next {
      WrapOnce(idx, n);
    }
  }

  lemma WrapOnce(idx: nat, n: nat)
    requires idx < n
    ensures (idx + n) % n == idx
  {
  }

  ghost predicate Positioned(s: State) {
    s.next < |s.segs| || s.next == 0
  }

  /** There is no next segment exactly when every segment is claimed or done. */
  lemma NextIsExhaustive(s: State)
    requires Positioned(s)
    ensures Picked(s).None? <==> forall i :: 0 <= i < |s.segs| ==> s.segs[i].claimed || s.segs[i].done
  {
    if Picked(s).None? {
      forall i | 0 <= i < |s.segs|
        ensures !Free(s.segs[i])
      {
        var k := Around(s.next, i, |s.segs|);
        FreeFromMisses(s.segs, s.next, 0, k);
      }
    } else {
      assert Free(s.segs[Picked(s).value]);
    }
  }

  ghost predicate InProgress(s: State, idx: nat) {
    idx < |s.segs| && s.segs[idx].claimed && !s.segs[idx].done
  }

  predicate Releases(step: Step, idx: nat) {
    step == Unclaim(idx) || (step.MarkDone? && step.idx == idx)
  }

  lemma StepClaims(s: State, step: Step, idx: nat)
    requires InProgress(s, idx) && !Releases(step, idx)
    ensures InProgress(Apply(s, step), idx)
    ensures step.Next? ==> Picked(s) != Some(idx)
  {
  }

  /** The steps of a run at which segment `idx` is handed out. */
  function Handed(s: State, steps: seq<Step>, idx: nat): nat
    decreases |steps|
  {
    if steps == [] then 0
    else (if steps[0].Next? && Picked(s) == Some(idx) then 1 else 0) + Handed(Apply(s, steps[0]), steps[1..], idx)
  }

  /** A segment in progress is not handed to anyone until it is given back or finished. */
  lemma {:induction false} NoDoubleClaim(s: State, steps: seq<Step>, idx: nat)
    requires InProgress(s, idx) && forall i :: 0 <= i < |steps| ==> !Releases(steps[i], idx)
    ensures Handed(s, steps, idx) == 0 && InProgress(After(s, steps), idx)
    decreases |steps|
  {
    hide InProgress, Apply, Picked;
    if steps != [] {
      StepClaims(s, steps[0], idx);
      NoDoubleClaim(Apply(s, steps[0]), steps[1..], idx);
    }
  }

  lemma DoneStays(s: State, step: Step, idx: nat)
    requires idx < |s.segs| && s.segs[idx].done
    ensures idx < |Apply(s, step).segs| && Apply(s, step).segs[idx].done
    ensures step.Next? ==> Picked(s) != Some(idx)
  {
  }

  /** A finished segment is never handed out again. */
  lemma {:induction false} NoneAfterDone(s: State, steps: seq<Step>, idx: nat)
    requires idx < |s.segs| && s.segs[idx].done
    ensures Handed(s, steps, idx) == 0 && idx < |After(s, steps).segs| && After(s, steps).segs[idx].done
    decreases |steps|
  {
    hide Apply, Picked;
    if steps != [] {
      DoneStays(s, steps[0], idx);
      NoneAfterDone(Apply(s, steps[0]), steps[1..], idx);
    }
  }

  // ----- The manager -----

  /** How many segments a file is divided into. */
  function Count(total: int, wanted: int): (n: nat)
    requires total > 0
    ensures 1 <= n <= total
  {
    var n := if wanted <= 0 then 1 else wanted;
    if n > total then total else n
  }

  method Divide(from: nat, total: int, parts: nat, before: seq<Segment>) returns (segs: seq<Segment>)
    requires 1 <= parts <= total - from && Tiles(before, Range(0, from)) && TotalSize(before) == from
    ensures Tiles(segs, Range(0, total)) && TotalSize(segs) == total
    ensures |segs| == |before| + parts && before <= segs
    ensures forall i :: |before| <= i < |segs| ==> Free(segs[i]) && segs[i].written == 0
    ensures forall i :: |before| <= i < |segs| - 1 ==> segs[i].end - segs[i].start == (total - from) / parts
  {
    hide Tiles, TotalSize;
    segs := before;
    var chunk := (total - from) / parts;
    ChunkFits(total - from, parts);
    var start := from;
    for i := 0 to parts
      invariant start == (if i == parts then total else from + i * chunk)
      invariant Tiles(segs, Range(0, start)) && TotalSize(segs) == start
      invariant |segs| == |before| + i && before <= segs
      invariant forall k :: |before| <= k < |segs| ==> Free(segs[k]) && segs[k].written == 0
      invariant forall k :: |before| <= k < |segs| && k < |before| + parts - 1 ==> segs[k].end - segs[k].start == chunk
    {
      var end := start + chunk;
      if i == parts - 1 {
        end := total;
      }
      ChunkStep(total - from, parts, i);
      TilesAppend(segs, Range(0, start), NewSegment(start, end));
      assert Range(0, start) + Range(start, end) == Range(0, end);
      segs := segs + [NewSegment(start, end)];
      start := end;
    }
  }

  lemma ChunkFits(size: nat, parts: nat)
    requires 1 <= parts <= size
    ensures size / parts >= 1 && parts * (size / parts) <= size
  {
  }

  lemma ChunkStep(size: nat, parts: nat, i: nat)
    requires 1 <= parts <= size && i < parts
    ensures var c := size / parts; i * c + c == (i + 1) * c && i * c < size
  {
    var c := size / parts;
    ChunkFits(size, parts);
    Monotone(i, parts - 1, c);
    assert (parts - 1) * c + c == parts * c;
  }

  lemma Monotone(a: nat, b: nat, c: nat)
    requires a <= b
    ensures a * c <= b * c
  {
  }

  /** One finished segment for the first `have` bytes, the rest divided among the other workers. */
  method ResumeBehind(total: int, split: int, have: int) returns (segs: seq<Segment>)
    requires 0 < have <= total && split > 1
    ensures Tiles(segs, Range(0, total)) && TotalSize(segs) == total
    ensures |segs| == 1 + Min(split - 1, total - have) && segs[0] == Segment(0, have, have, true, false)
    ensures forall i :: 1 <= i < |segs| ==> Free(segs[i]) && segs[i].written == 0
  {
    var first := Segment(0, have, have, true, false);
    segs := FirstAlone(first);
    if total - have > 0 {
      var parts := split - 1;
      if parts > total - have {
        parts := total - have;
      }
      hide Tiles, TotalSize;
      segs := Divide(have, total, parts, segs);
    }
  }

  method FirstAlone(first: Segment) returns (segs: seq<Segment>)
    requires first.start == 0 < first.end
    ensures segs == [first] && Tiles(segs, Range(0, first.end)) && TotalSize(segs) == first.end
  {
    assert Range(0, 0) == iset{} && TotalSize([]) == 0;
    TilesAppend([], Range(0, 0), first);
    assert Range(0, 0) + Range(0, first.end) == Range(0, first.end);
    segs := [first];
    assert [] + [first] == segs;
  }

  class SegmentMan {
    var segments: seq<Segment>
    var nextIdx: nat

    ghost function View(): State
      reads this
    {
      State(segments, nextIdx)
    }

    ghost predicate Valid(bytes: iset<int>)
      reads this
    {
      Tiles(segments, bytes) && Positioned(View())
    }

    /** A file of known size is divided evenly; the last segment takes the rest. */
    constructor (total: int, wanted: int)
      requires total > 0
      ensures Valid(Range(0, total)) && |segments| == Min(Max(1, wanted), total) && TotalSize(segments) == total
      ensures forall i :: 0 <= i < |segments| ==> Free(segments[i]) && segments[i].written == 0
      ensures forall i :: 0 <= i < |segments| - 1 ==> segments[i].end - segments[i].start == total / |segments|
    {
      assert Range(0, 0) == iset{};
      var segs := Divide(0, total, Count(total, wanted), []);
      segments, nextIdx := segs, 0;
    }

    /** On resuming, one finished segment stands for what is already there. */
    constructor Resume(total: int, split: int, completed: int)
      requires total > 0
      ensures Valid(Range(0, total)) && TotalSize(segments) == total
      ensures split > 1 && completed > 0 ==>
                segments != [] && segments[0] == Segment(0, Min(completed, total), Min(completed, total), true, false)
      ensures split > 1 && completed > 0 ==> |segments| == 1 + Max(0, Min(split - 1, total - completed))
      ensures split <= 1 || completed <= 0 ==> |segments| == Min(Max(1, split), total)
      ensures forall i :: 0 <= i < |segments| && !segments[i].done ==> Free(segments[i]) && segments[i].written == 0
    {
      var segs: seq<Segment> := [];
      if split <= 1 || completed <= 0 {
        assert Range(0, 0) == iset{};
        segs := Divide(0, total, Count(total, split), []);
      } else {
        segs := ResumeBehind(total, split, if completed > total then total else completed);
      }
      segments, nextIdx := segs, 0;
    }

    constructor Of(segs: seq<Segment>)
      ensures segments == segs && nextIdx == 0
    {
      segments, nextIdx := segs, 0;
    }

    method Next(ghost bytes: iset<int>) returns (r: Option<nat>)
      requires Valid(bytes)
      modifies this
      ensures Valid(bytes) && View() == DoNext(old(View())) && r == Picked(old(View()))
      ensures r.None? <==> forall i :: 0 <= i < |segments| ==> old(segments)[i].claimed || old(segments)[i].done
    {
      hide Tiles, FreeFrom;
      NextIsExhaustive(View());
      StepTiles(View(), Step.Next, bytes);
      var start, i := nextIdx, 0;
      while i < |segments|
        invariant 0 <= i <= |segments| && segments == old(segments) && nextIdx == start == old(nextIdx)
        invariant FreeFrom(segments, start, 0) == FreeFrom(segments, start, i)
      {
        FreeUnfold(segments, start, i);
        var idx := (start + i) % |segments|;
        var s := segments[idx];
        if !s.done && !s.claimed {
          segments := segments[idx := s.(claimed := true)];
          nextIdx := idx + 1;
          if nextIdx >= |segments| {
            nextIdx := 0;
          }
          return Some(idx);
        }
        i := i + 1;
      }
      FreeEnd(segments, start);
      r := None;
    }

    method Unclaim(idx: int, ghost bytes: iset<int>)
      requires Valid(bytes)
      modifies this
      ensures Valid(bytes) && View() == DoUnclaim(old(View()), idx)
      ensures |segments| == |old(segments)| && (0 <= idx < |segments| && !old(segments)[idx].done ==> Free(segments[idx]))
      ensures forall i :: 0 <= i < |segments| && i != idx ==> segments[i] == old(segments)[i]
    {
      hide Tiles;
      StepTiles(View(), Step.Unclaim(idx), bytes);
      if idx < 0 || idx >= |segments| {
        return;
      }
      if segments[idx].done {
        return;
      }
      segments := segments[idx := segments[idx].(claimed := false)];
    }

    method MarkDone(idx: int, written: int, ghost bytes: iset<int>)
      requires Valid(bytes)
      modifies this
      ensures Valid(bytes) && View() == DoMarkDone(old(View()), idx, written)
      ensures 0 <= idx < |segments| ==> segments[idx].done && !segments[idx].claimed && segments[idx].written == written
      ensures |segments| == |old(segments)|
      ensures forall i :: 0 <= i < |segments| && i != idx ==> segments[i] == old(segments)[i]
    {
      hide Tiles;
      StepTiles(View(), Step.MarkDone(idx, written), bytes);
      if idx < 0 || idx >= |segments| {
        return;
      }
      segments := segments[idx := segments[idx].(written := written, done := true, claimed := false)];
    }

    method Split(least: int, ghost bytes: iset<int>) returns (r: Option<nat>)
      requires Valid(bytes)
      modifies this
      ensures Valid(bytes) && View() == DoSplit(old(View()), least)
      ensures r.Some? <==> least > 0 && exists i :: 0 <= i < |old(segments)| && Splittable(old(segments)[i], least)
      ensures r.Some? ==> r.value == |old(segments)| && |segments| == r.value + 1 && Free(segments[r.value])
    {
      hide Tiles, Largest;
      StepTiles(View(), Step.Split(least), bytes);
      if least <= 0 {
        return None;
      }
      var k := FindLargest(least);
      if k.None? {
        return None;
      }
      var largest := segments[k.value];
      var mid := (largest.start + largest.end) / 2;
      var added := NewSegment(mid, largest.end);
      r := Some(|segments|);
      segments := segments[k.value := largest.(end := mid)] + [added];
      nextIdx := 0;
    }

    method FindLargest(least: int) returns (k: Option<nat>)
      requires least > 0
      ensures k == Largest(segments, least, |segments|)
    {
      k := None;
      var most := 0;
      for i := 0 to |segments|
        invariant k == Largest(segments, least, i)
        invariant most == if k.Some? then Remaining(segments[k.value]) else 0
      {
        var s := segments[i];
        if s.done || !s.claimed || s.end == -1 {
          continue;
        }
        var size := s.end - s.start;
        if size < 2 * least {
          continue;
        }
        var remaining := size - s.written;
        if remaining > most {
          most := remaining;
          k := Some(i);
        }
      }
    }

    /** All that was recorded. */
    method Written() returns (total: int)
      ensures total == WrittenIn(segments)
    {
      total := 0;
      for i := 0 to |segments|
        invariant total == WrittenIn(segments[..i])
      {
        total := total + segments[i].written;
        assert segments[..i + 1][..i] == segments[..i];
      }
      assert segments[..|segments|] == segments;
    }

    method Done() returns (r: bool)
      ensures r <==> forall i :: 0 <= i < |segments| ==> segments[i].done
    {
      for i := 0 to |segments|
        invariant forall k :: 0 <= k < i ==> segments[k].done
      {
        if !segments[i].done {
          return false;
        }
      }
      r := true;
    }
  }

  lemma FreeUnfold(segs: seq<Segment>, next: nat, i: nat)
    requires i < |segs|
    ensures var idx := (next + i) % |segs|;
            FreeFrom(segs, next, i) == if Free(segs[idx]) then Some(idx) else FreeFrom(segs, next, i + 1)
  {
  }

  lemma FreeEnd(segs: seq<Segment>, next: nat)
    ensures FreeFrom(segs, next, |segs|) == None
  {
  }
}
