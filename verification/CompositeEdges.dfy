/**
 The search for edges of composite signals and of selects of them: the times at which some
 part changes are gone through in order, and the value is read at each.
 */
module CompositeEdges {
  import opened Radix
  import opened Waveform
  import opened Database
  import opened Composite
  import opened Reading
  import opened CompositeRange
  import Edges

  predicate Matches(kind: Edges.Kind, text: string) {
    kind.AnyEdge? || text == Edges.Target(kind)
  }

  /** The first of the times later than t with a matching value. */
  ghost function ForwardAt(db: Db, path: string, times: seq<int>, t: int, kind: Edges.Kind): Result<Edges.Edge>
    requires Consistent(db) && Answerable(db, path)
    decreases |times|
  {
    if times == [] then Ok(Edges.NotFound)
    else if times[0] <= t then ForwardAt(db, path, times[1..], t, kind)
    else match PathText(db, path, times[0], Bin)
         case Err(f) => Err(f)
         case Ok(text) =>
           if Matches(kind, text) then Ok(Edges.Found(Value(times[0], text)))
           else ForwardAt(db, path, times[1..], t, kind)
  }

  /** The last of the times earlier than t with a matching value. */
  ghost function BackwardAt(db: Db, path: string, times: seq<int>, t: int, kind: Edges.Kind): Result<Edges.Edge>
    requires Consistent(db) && Answerable(db, path)
    decreases |times|
  {
    if times == [] then Ok(Edges.NotFound) else
    var last := times[|times|-1];
    if last >= t then BackwardAt(db, path, times[..|times|-1], t, kind)
    else match PathText(db, path, last, Bin)
         case Err(f) => Err(f)
         case Ok(text) =>
           if Matches(kind, text) then Ok(Edges.Found(Value(last, text)))
           else BackwardAt(db, path, times[..|times|-1], t, kind)
  }

  /** All times in the file at which the composite behind the path is found to change. */
  ghost function ChangeTimes(db: Db, path: string): Result<seq<int>>
    requires Consistent(db)
  {
    TimesBehind(db, path, db.file.minTime, db.file.maxTime)
  }

  ghost function CompositeEdgeSpec(db: Db, path: string, t: int, kind: Edges.Kind, backward: bool): Result<Edges.Edge>
    requires Consistent(db)
  {
    var times := ChangeTimes(db, path);
    if times.Err? then Err(times.fault) else
    CollectedIsAnswerable(db, path, db.file.minTime, db.file.maxTime);
    if backward then BackwardAt(db, path, times.value, t, kind) else ForwardAt(db, path, times.value, t, kind)
  }

  method CompositeEdge(db: Db, path: string, t: int, kind: Edges.Kind, backward: bool) returns (r: Result<Edges.Edge>)
    requires Consistent(db) && NoLeaf(db, path)
    ensures r == CompositeEdgeSpec(db, path, t, kind, backward)
  {
    hide TimesBehind, ForwardAt, BackwardAt, Answerable, NoLeaf;
    var collected := CollectBehind(db, path, db.file.minTime, db.file.maxTime);
    if collected.Err? {
      return Err(collected.fault);
    }
    CollectedIsAnswerable(db, path, db.file.minTime, db.file.maxTime);
    if backward {
      r := GoBackward(db, path, collected.value, t, kind);
    } else {
      r := GoForward(db, path, collected.value, t, kind);
    }
  }

  method GoForward(db: Db, path: string, times: seq<int>, t: int, kind: Edges.Kind) returns (r: Result<Edges.Edge>)
    requires Consistent(db) && Answerable(db, path)
    ensures r == ForwardAt(db, path, times, t, kind)
  {
    hide ForwardAt, PathText, Answerable, Ends, Outcome;
    assert times[0..] == times;
    for i := 0 to |times|
      invariant ForwardAt(db, path, times[i..], t, kind) == ForwardAt(db, path, times, t, kind)
    {
      ForwardStep(db, path, times[i..], t, kind);
      assert times[i..][1..] == times[i+1..];
      if times[i] > t {
        AnswerableEnds(db, path, times[i], Bin);
        var v := PointQuery(db, path, times[i], Bin);
        if v.Err? {
          return Err(v.fault);
        }
        if Matches(kind, v.value.text) {
          return Ok(Edges.Found(v.value));
        }
      }
    }
    ForwardStep(db, path, times[|times|..], t, kind);
    return Ok(Edges.NotFound);
  }

  method GoBackward(db: Db, path: string, times: seq<int>, t: int, kind: Edges.Kind) returns (r: Result<Edges.Edge>)
    requires Consistent(db) && Answerable(db, path)
    ensures r == BackwardAt(db, path, times, t, kind)
  {
    hide BackwardAt, PathText, Answerable, Ends, Outcome;
    assert times[..|times|] == times;
    for i := |times| downto 0
      invariant BackwardAt(db, path, times[..i], t, kind) == BackwardAt(db, path, times, t, kind)
    {
      BackwardStep(db, path, times[..i+1], t, kind);
      assert times[..i+1][..i] == times[..i];
      if times[i] < t {
        AnswerableEnds(db, path, times[i], Bin);
        var v := PointQuery(db, path, times[i], Bin);
        if v.Err? {
          return Err(v.fault);
        }
        if Matches(kind, v.value.text) {
          return Ok(Edges.Found(v.value));
        }
      }
    }
    BackwardStep(db, path, times[..0], t, kind);
    return Ok(Edges.NotFound);
  }

  lemma ForwardStep(db: Db, path: string, times: seq<int>, t: int, kind: Edges.Kind)
    requires Consistent(db) && Answerable(db, path)
    ensures ForwardAt(db, path, times, t, kind) ==
      if times == [] then Ok(Edges.NotFound)
      else if times[0] <= t then ForwardAt(db, path, times[1..], t, kind)
      else match PathText(db, path, times[0], Bin)
           case Err(f) => Err(f)
           case Ok(text) =>
             if Matches(kind, text) then Ok(Edges.Found(Value(times[0], text)))
             else ForwardAt(db, path, times[1..], t, kind)
  {
    hide PathText, Answerable;
  }

  lemma BackwardStep(db: Db, path: string, times: seq<int>, t: int, kind: Edges.Kind)
    requires Consistent(db) && Answerable(db, path)
    ensures BackwardAt(db, path, times, t, kind) ==
      if times == [] then Ok(Edges.NotFound) else
      var last := times[|times|-1];
      if last >= t then BackwardAt(db, path, times[..|times|-1], t, kind)
      else match PathText(db, path, last, Bin)
           case Err(f) => Err(f)
           case Ok(text) =>
             if Matches(kind, text) then Ok(Edges.Found(Value(last, text)))
             else BackwardAt(db, path, times[..|times|-1], t, kind)
  {
    hide PathText, Answerable;
  }

  // ----------------------------------------------------------------------- exactness

  /** The value can be read at that time and does not match. */
  ghost predicate Misses(db: Db, path: string, x: int, kind: Edges.Kind)
    requires Consistent(db) && Answerable(db, path)
  {
    PathText(db, path, x, Bin).Ok? && !Matches(kind, PathText(db, path, x, Bin).value)
  }

  ghost predicate IsHit(db: Db, path: string, v: Value, kind: Edges.Kind)
    requires Consistent(db) && Answerable(db, path)
  {
    PathText(db, path, v.time, Bin) == Ok(v.text) && Matches(kind, v.text)
  }

  /** The answer is the nearest of the times later than t that matches; there is none when it says so. */
  ghost predicate NearestAfter(db: Db, path: string, times: seq<int>, t: int, kind: Edges.Kind, e: Edges.Edge)
    requires Consistent(db) && Answerable(db, path)
  {
    && (e.Found? ==> e.value.time in times && e.value.time > t && IsHit(db, path, e.value, kind))
    && forall x :: x in times && t < x && (e.Found? ==> x < e.value.time) ==> Misses(db, path, x, kind)
  }

  ghost predicate NearestBefore(db: Db, path: string, times: seq<int>, t: int, kind: Edges.Kind, e: Edges.Edge)
    requires Consistent(db) && Answerable(db, path)
  {
    && (e.Found? ==> e.value.time in times && e.value.time < t && IsHit(db, path, e.value, kind))
    && forall x :: x in times && x < t && (e.Found? ==> e.value.time < x) ==> Misses(db, path, x, kind)
  }

  /** From the change at x, behind t, on, y is reached before the answer. */
  predicate Passed(db: Db, t: int, e: Edges.Edge, x: int, y: int) {
    t < x <= y <= db.file.maxTime && (e.Found? ==> y < e.value.time)
  }

  /** From the change at x, behind the answer, on, y is reached before t. */
  predicate PassedBackward(db: Db, t: int, e: Edges.Edge, x: int, y: int) {
    x <= y < t && y <= db.file.maxTime && (e.Found? ==> e.value.time < x)
  }

  lemma {:induction false} ForwardIsNearest(db: Db, path: string, times: seq<int>, t: int, kind: Edges.Kind)
    requires Consistent(db) && Answerable(db, path) && Ascending(times) && ForwardAt(db, path, times, t, kind).Ok?
    ensures NearestAfter(db, path, times, t, kind, ForwardAt(db, path, times, t, kind).value)
    decreases |times|
  {
    hide PathText, Answerable, ForwardAt;
    ForwardStep(db, path, times, t, kind);
    if times != [] {
      assert times == [times[0]] + times[1..];
      assert forall x :: x in times[1..] ==> times[0] < x;
      if times[0] <= t || !IsHit(db, path, Value(times[0], PathText(db, path, times[0], Bin).value), kind) {
        ForwardIsNearest(db, path, times[1..], t, kind);
      }
    }
  }

  lemma {:induction false} BackwardIsNearest(db: Db, path: string, times: seq<int>, t: int, kind: Edges.Kind)
    requires Consistent(db) && Answerable(db, path) && Ascending(times) && BackwardAt(db, path, times, t, kind).Ok?
    ensures NearestBefore(db, path, times, t, kind, BackwardAt(db, path, times, t, kind).value)
    decreases |times|
  {
    hide PathText, Answerable, BackwardAt;
    BackwardStep(db, path, times, t, kind);
    if times != [] {
      var front, last := times[..|times|-1], times[|times|-1];
      assert times == front + [last];
      assert forall x :: x in front ==> x < last;
      if last >= t || !IsHit(db, path, Value(last, PathText(db, path, last, Bin).value), kind) {
        BackwardIsNearest(db, path, front, t, kind);
      }
    }
  }

  /** Seeking to the first time of the file finds every signal below. */
  ghost predicate SeenFromStart(db: Db, path: string)
    requires Consistent(db) && Answerable(db, path)
  {
    forall k :: 0 <= k < |LeavesBehind(db, path)| ==> Seen(db, LeavesBehind(db, path)[k], db.file.minTime)
  }

  /**
   Both searches answer with the nearest matching time at which the composite is found to
   change. When seeking to the first time of the file finds every signal, they miss no moment:
   forward, from the first change behind t up to the answer, or to the end of the file when
   there is none, the value matches at no time at all; backward it does not from the first
   change behind the answer, or the first of all when there is none, up to t.
   */
  lemma CompositeEdgeIsExact(db: Db, path: string, t: int, kind: Edges.Kind)
    requires Consistent(db) && CompositeBehind(db, path).Some?
    requires Recordings(db) && ChangeTimes(db, path).Ok?
    ensures Answerable(db, path)
    ensures
      var times := ChangeTimes(db, path).value;
      var forward := CompositeEdgeSpec(db, path, t, kind, false);
      var backward := CompositeEdgeSpec(db, path, t, kind, true);
      && AreTheTimes(db, LeavesBehind(db, path), db.file.minTime, db.file.maxTime, [], times)
      && (backward.Ok? ==> NearestBefore(db, path, times, t, kind, backward.value))
      && (forward.Ok? ==> NearestAfter(db, path, times, t, kind, forward.value))
      && (forward.Ok? && SeenFromStart(db, path) ==>
            forall x, y :: x in times && Passed(db, t, forward.value, x, y) ==> Misses(db, path, y, kind))
      && (backward.Ok? && SeenFromStart(db, path) ==>
            forall x, y :: x in times && PassedBackward(db, t, backward.value, x, y) ==> Misses(db, path, y, kind))
  {
    hide PathText, ForwardAt, BackwardAt, TimesBehind, Recordings, Answerable, CompositeBehind, LeavesBehind, AreTheTimes,
      SeenFromStart;
    var times := ChangeTimes(db, path).value;
    CollectedIsAnswerable(db, path, db.file.minTime, db.file.maxTime);
    BehindTimes(db, path, db.file.minTime, db.file.maxTime);
    InRange(db, LeavesBehind(db, path), db.file.minTime, db.file.maxTime, times);
    var forward, backward := ForwardAt(db, path, times, t, kind), BackwardAt(db, path, times, t, kind);
    if backward.Ok? {
      BackwardIsNearest(db, path, times, t, kind);
      if SeenFromStart(db, path) {
        forall x, y | x in times && PassedBackward(db, t, backward.value, x, y) ensures Misses(db, path, y, kind) {
          NothingPassedBackward(db, path, times, t, kind, backward.value, x, y);
        }
      }
    }
    if forward.Ok? {
      ForwardIsNearest(db, path, times, t, kind);
      if SeenFromStart(db, path) {
        forall x, y | x in times && Passed(db, t, forward.value, x, y) ensures Misses(db, path, y, kind) {
          NothingPassed(db, path, times, t, kind, forward.value, x, y);
        }
      }
    }
  }

  /** At any moment behind some change the value is that of the last change so far. */
  lemma LastChangeSoFar(db: Db, path: string, times: seq<int>, kind: Edges.Kind, x: int, y: int) returns (from: int)
    requires Consistent(db) && Answerable(db, path) && CompositeBehind(db, path).Some? && Recordings(db)
    requires AreTheTimes(db, LeavesBehind(db, path), db.file.minTime, db.file.maxTime, [], times)
    requires SeenFromStart(db, path) && x in times && x <= y <= db.file.maxTime
    ensures from in times && x <= from <= y
    ensures Misses(db, path, from, kind) ==> Misses(db, path, y, kind)
  {
    hide PathText, LeavesBehind, Recordings, Answerable, CompositeBehind, AreTheTimes, Seen, Still;
    var leaves := LeavesBehind(db, path);
    InRange(db, leaves, db.file.minTime, db.file.maxTime, times);
    var n := CountUpTo(times, y);
    var j :| 0 <= j < |times| && times[j] == x;
    from := times[n-1];
    assert times[j] <= from;
    StillBehind(db, leaves, db.file.minTime, db.file.maxTime, times, from, y);
    SamePathText(db, path, db.file.minTime, from, y, Bin);
  }

  lemma NothingPassed(db: Db, path: string, times: seq<int>, t: int, kind: Edges.Kind, e: Edges.Edge, x: int, y: int)
    requires Consistent(db) && Answerable(db, path) && CompositeBehind(db, path).Some? && Recordings(db)
    requires AreTheTimes(db, LeavesBehind(db, path), db.file.minTime, db.file.maxTime, [], times)
    requires SeenFromStart(db, path)
    requires NearestAfter(db, path, times, t, kind, e) && x in times && Passed(db, t, e, x, y)
    ensures Misses(db, path, y, kind)
  {
    hide PathText, LeavesBehind, Recordings, Answerable, CompositeBehind, AreTheTimes, SeenFromStart, Misses;
    var from := LastChangeSoFar(db, path, times, kind, x, y);
  }

  lemma NothingPassedBackward(db: Db, path: string, times: seq<int>, t: int, kind: Edges.Kind, e: Edges.Edge, x: int, y: int)
    requires Consistent(db) && Answerable(db, path) && CompositeBehind(db, path).Some? && Recordings(db)
    requires AreTheTimes(db, LeavesBehind(db, path), db.file.minTime, db.file.maxTime, [], times)
    requires SeenFromStart(db, path)
    requires NearestBefore(db, path, times, t, kind, e) && x in times && PassedBackward(db, t, e, x, y)
    ensures Misses(db, path, y, kind)
  {
    hide PathText, LeavesBehind, Recordings, Answerable, CompositeBehind, AreTheTimes, SeenFromStart, Misses;
    var from := LastChangeSoFar(db, path, times, kind, x, y);
  }

  /** The composite shows the text at that time. */
  ghost predicate ShowsAt(db: Db, path: string, x: int, text: string)
    requires Consistent(db) && Answerable(db, path)
  {
    PathText(db, path, x, Bin) == Ok(text)
  }

  /** The answer is a time at which the text is shown, and no collected time between t and it shows it. */
  ghost predicate NearestShowing(db: Db, path: string, times: seq<int>, t: int, e: Edges.Edge, text: string, backward: bool)
    requires Consistent(db) && Answerable(db, path)
  {
    && (e.Found? ==>
          && e.value.time in times && e.value.text == text && ShowsAt(db, path, e.value.time, text)
          && if backward then e.value.time < t else e.value.time > t)
    && forall x :: x in times && LiesBetween(t, e, x, backward) ==> !ShowsAt(db, path, x, text)
  }

  /** Between t and the answer, or anywhere beyond t when there is none. */
  predicate LiesBetween(t: int, e: Edges.Edge, x: int, backward: bool) {
    if backward then x < t && (e.Found? ==> x > e.value.time) else x > t && (e.Found? ==> x < e.value.time)
  }

  /** A rising edge of a composite is a change to "1" and a falling edge a change to "0". */
  lemma CompositeToOneOrZero(db: Db, path: string, t: int, backward: bool)
    requires Consistent(db) && CompositeBehind(db, path).Some?
    requires Recordings(db) && ChangeTimes(db, path).Ok?
    ensures Answerable(db, path)
    ensures var rising := CompositeEdgeSpec(db, path, t, Edges.Rising, backward);
      rising.Ok? ==> NearestShowing(db, path, ChangeTimes(db, path).value, t, rising.value, "1", backward)
    ensures var falling := CompositeEdgeSpec(db, path, t, Edges.Falling, backward);
      falling.Ok? ==> NearestShowing(db, path, ChangeTimes(db, path).value, t, falling.value, "0", backward)
  {
    hide PathText, ChangeTimes, CompositeEdgeSpec, Recordings, Answerable, CompositeBehind, AreTheTimes, SeenFromStart;
    CompositeEdgeIsExact(db, path, t, Edges.Rising);
    CompositeEdgeIsExact(db, path, t, Edges.Falling);
  }

  /** A signal that seeking to the first time does not find can change unnoticed. */
  lemma LateEdgeIsMissed()
    ensures var db := LateStruct();
      && Consistent(db) && Answerable(db, "s") && CompositeEdgeSpec(db, "s", 0, Edges.AnyEdge, false) == Ok(Edges.NotFound)
      && LeavesBehind(db, "s") == [Whole(Var(1, 0, 0, false, 0, 0, true))]
      && Changes(db, LeavesBehind(db, "s")[0], 5)
  {
    hide PartsOf, Room, Lookup, Grounded, CompositeBehind, LastAtOrBefore, ForwardAt;
    var db := LateStruct();
    LateParts();
    LateAnswerable();
    LateTimes();
    ForwardStep(db, "s", [], 0, Edges.AnyEdge);
    assert ["s.a"][..0] == [];
    assert LeavesIn(db, "s", ["s.a"]) == LeavesIn(db, "s", []) + SimpleLeaf(db, "s.a");
    assert LeavesIn(db, "s", []) == [];
    assert TraceOf(db, Var(1, 0, 0, false, 0, 0, true))[0] == Event(5, "1");
  }
}
