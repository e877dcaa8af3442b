/**
 The search for edges of one signal.
 */
module Edges {
  import opened CText
  import opened Radix
  import opened Waveform

  datatype Edge = NotFound | Found(value: Value)

  datatype Kind = AnyEdge | Rising | Falling

  function Target(kind: Kind): string {
    if kind.Rising? then "1" else "0"
  }

  function AsEdge(leaf: Leaf, i: nat): Result<Edge>
    requires i < |leaf.events|
  {
    match Shown(leaf, i, Bin)
    case Err(f) => Err(f)
    case Ok(text) => Ok(Found(Value(leaf.events[i].time, text)))
  }

  /** Looks at change j and those behind it. */
  function ForwardFrom(leaf: Leaf, j: nat, t: int, target: string): Result<Edge>
    decreases |leaf.events| - j
  {
    if j >= |leaf.events| then Ok(NotFound) else
    match Shown(leaf, j, Bin)
    case Err(f) => Err(f)
    case Ok(text) =>
      if leaf.events[j].time > t + 1 && text == target then Ok(Found(Value(leaf.events[j].time, target)))
      else ForwardFrom(leaf, j + 1, t, target)
  }

  /** Looks at change j and those before it. */
  function BackwardFrom(leaf: Leaf, j: nat, t: int, target: string): Result<Edge>
    requires j < |leaf.events|
    decreases j
  {
    match Shown(leaf, j, Bin)
    case Err(f) => Err(f)
    case Ok(text) =>
      if leaf.events[j].time < t && text == target then Ok(Found(Value(leaf.events[j].time, target)))
      else if j == 0 then Ok(NotFound)
      else BackwardFrom(leaf, j - 1, t, target)
  }

  function EdgeSpec(file: File, leaf: Leaf, t: int, kind: Kind, backward: bool): Result<Edge> {
    if leaf.select.Some? && backward && kind.AnyEdge? then PartialBackward(leaf, t) else
    var i := SeekIndex(file, leaf.events, Tag(Min(t, file.maxTime)));
    if i.None? then Ok(NotFound)
    else if kind.AnyEdge? then
      if backward then (if i.value > 0 then AsEdge(leaf, i.value - 1) else Ok(NotFound))
      else (if i.value + 1 < |leaf.events| then AsEdge(leaf, i.value + 1) else Ok(NotFound))
    else if backward then BackwardFrom(leaf, i.value, t, Target(kind))
    else if t == INT64_MAX then Ok(NotFound)
    else ForwardFrom(leaf, i.value + 1, t, Target(kind))
  }

  method FindEdge(file: File, leaf: Leaf, t: int, kind: Kind, backward: bool) returns (r: Result<Edge>)
    ensures r == EdgeSpec(file, leaf, t, kind, backward)
  {
    hide Shown, ForwardFrom, BackwardFrom, PartialBackward;
    if leaf.select.Some? && backward && kind.AnyEdge? {
      r := PartialBackwardAnyEdge(file, leaf, t);
      return;
    }
    var c := new Cursor(file, leaf.events);
    var ok := c.Seek(Tag(Min(t, file.maxTime)));
    if !ok {
      return Ok(NotFound);
    }
    if kind.AnyEdge? {
      if backward {
        ok := c.Prev();
      } else {
        ok := c.Next();
      }
      if !ok {
        return Ok(NotFound);
      }
      var v := Current(leaf, c, Bin);
      match v
      case Err(f) => return Err(f);
      case Ok(value) => return Ok(Found(value));
    }
    if !backward && t == INT64_MAX {
      return Ok(NotFound);
    }
    if backward {
      r := SearchBackward(leaf, c, t, Target(kind));
    } else {
      r := SearchForward(leaf, c, t, Target(kind));
    }
  }

  method SearchBackward(leaf: Leaf, c: Cursor, t: int, target: string) returns (r: Result<Edge>)
    requires c.OnEvent() && c.events == leaf.events
    modifies c
    ensures r == BackwardFrom(leaf, old(c.pos), t, target)
  {
    hide Shown, BackwardFrom;
    var moved := true;
    while moved
      invariant c.OnEvent()
      invariant moved ==> BackwardFrom(leaf, old(c.pos), t, target) == BackwardFrom(leaf, c.pos, t, target)
      invariant !moved ==> BackwardFrom(leaf, old(c.pos), t, target) == Ok(NotFound)
      decreases moved, c.pos
    {
      BackwardStep(leaf, c.pos, t, target);
      var v := Current(leaf, c, Bin);
      if v.Err? {
        return Err(v.fault);
      }
      if v.value.time < t && v.value.text == target {
        return Ok(Found(Value(v.value.time, target)));
      }
      moved := c.Prev();
    }
    return Ok(NotFound);
  }

  lemma BackwardStep(leaf: Leaf, j: nat, t: int, target: string)
    requires j < |leaf.events|
    ensures BackwardFrom(leaf, j, t, target) ==
      match Shown(leaf, j, Bin)
      case Err(f) => Err(f)
      case Ok(text) =>
        if leaf.events[j].time < t && text == target then Ok(Found(Value(leaf.events[j].time, target)))
        else if j == 0 then Ok(NotFound)
        else BackwardFrom(leaf, j - 1, t, target)
  {
    hide Shown;
  }

  method SearchForward(leaf: Leaf, c: Cursor, t: int, target: string) returns (r: Result<Edge>)
    requires c.OnEvent() && c.events == leaf.events
    modifies c
    ensures r == ForwardFrom(leaf, old(c.pos) + 1, t, target)
  {
    hide Shown, ForwardFrom;
    while true
      invariant c.OnEvent()
      invariant ForwardFrom(leaf, old(c.pos) + 1, t, target) == ForwardFrom(leaf, c.pos + 1, t, target)
      decreases |leaf.events| - c.pos
    {
      ForwardStep(leaf, c.pos + 1, t, target);
      var moved := c.Next();
      if !moved {
        break;
      }
      var v := Current(leaf, c, Bin);
      if v.Err? {
        return Err(v.fault);
      }
      if v.value.time > t + 1 && v.value.text == target {
        return Ok(Found(Value(v.value.time, target)));
      }
    }
    return Ok(NotFound);
  }

  lemma ForwardStep(leaf: Leaf, j: nat, t: int, target: string)
    ensures ForwardFrom(leaf, j, t, target) ==
      if j >= |leaf.events| then Ok(NotFound) else
      match Shown(leaf, j, Bin)
      case Err(f) => Err(f)
      case Ok(text) =>
        if leaf.events[j].time > t + 1 && text == target then Ok(Found(Value(leaf.events[j].time, target)))
        else ForwardFrom(leaf, j + 1, t, target)
  {
    hide Shown;
  }

  // --------------------------------------------------------------------- exactness

  predicate Hit(leaf: Leaf, j: nat, target: string) {
    j < |leaf.events| && Shown(leaf, j, Bin) == Ok(target)
  }

  /** The answer names change j, and no change in front of it qualifies. */
  predicate FirstAfter(leaf: Leaf, e: Edge, from: nat, t: int, target: string) {
    if e.Found? then
      exists j :: from <= j < |leaf.events| && Hit(leaf, j, target) && leaf.events[j].time > t + 1
        && e == Found(Value(leaf.events[j].time, target))
        && forall k :: from <= k < j && leaf.events[k].time > t + 1 ==> !Hit(leaf, k, target)
    else
      forall k :: from <= k < |leaf.events| && leaf.events[k].time > t + 1 ==> !Hit(leaf, k, target)
  }

  predicate LastBefore(leaf: Leaf, e: Edge, upTo: int, t: int, target: string) {
    if e.Found? then
      exists j :: 0 <= j <= upTo && j < |leaf.events| && Hit(leaf, j, target) && leaf.events[j].time < t
        && e == Found(Value(leaf.events[j].time, target))
        && forall k :: j < k <= upTo && k < |leaf.events| && leaf.events[k].time < t ==> !Hit(leaf, k, target)
    else
      forall k :: 0 <= k <= upTo && k < |leaf.events| && leaf.events[k].time < t ==> !Hit(leaf, k, target)
  }

  lemma {:induction false} ForwardFinds(leaf: Leaf, from: nat, t: int, target: string)
    requires ForwardFrom(leaf, from, t, target).Ok?
    ensures FirstAfter(leaf, ForwardFrom(leaf, from, t, target).value, from, t, target)
    decreases |leaf.events| - from
  {
    hide Shown, ForwardFrom;
    ForwardStep(leaf, from, t, target);
    if from < |leaf.events| && !(leaf.events[from].time > t + 1 && Hit(leaf, from, target)) {
      ForwardFinds(leaf, from + 1, t, target);
    }
  }

  lemma {:induction false} BackwardFinds(leaf: Leaf, upTo: nat, t: int, target: string)
    requires upTo < |leaf.events| && BackwardFrom(leaf, upTo, t, target).Ok?
    ensures LastBefore(leaf, BackwardFrom(leaf, upTo, t, target).value, upTo, t, target)
    decreases upTo
  {
    hide Shown, BackwardFrom;
    BackwardStep(leaf, upTo, t, target);
    if !(leaf.events[upTo].time < t && Hit(leaf, upTo, target)) && upTo > 0 {
      BackwardFinds(leaf, upTo - 1, t, target);
    }
  }

  /**
   A forward search for a rising or falling edge finds the first change later than t + 1
   with the target value, and nothing exactly when there is none, provided the signal has a
   change at or before t. Otherwise nothing is found, or the first change is passed over,
   depending on how the reader seeks.
   */
  lemma ForwardEdgeIsExact(file: File, leaf: Leaf, t: int, kind: Kind)
    requires Recorded(file, leaf) && 0 <= t && file.maxTime <= INT64_MAX && !kind.AnyEdge?
    requires EdgeSpec(file, leaf, t, kind, false).Ok?
    ensures HasChangeBy(leaf, t) ==> FirstAfter(leaf, EdgeSpec(file, leaf, t, kind, false).value, 0, t, Target(kind))
    ensures !HasChangeBy(leaf, t) && !file.lenient ==> EdgeSpec(file, leaf, t, kind, false).value == NotFound
    ensures !HasChangeBy(leaf, t) && file.lenient && leaf.events != [] && t < INT64_MAX ==>
      FirstAfter(leaf, EdgeSpec(file, leaf, t, kind, false).value, 1, t, Target(kind))
  {
    hide Shown, ForwardFrom, LastAtOrBefore, Hit;
    SeekBegin(file, leaf, t);
    var i := SeekIndex(file, leaf.events, Tag(Min(t, file.maxTime)));
    if i.Some? && t != INT64_MAX {
      ForwardFinds(leaf, i.value + 1, t, Target(kind));
      if HasChangeBy(leaf, t) {
        assert i.value == LastAtOrBefore(leaf.events, t);
        assert forall k :: 0 <= k <= i.value ==> leaf.events[k].time <= leaf.events[i.value].time <= t;
      }
    }
  }

  /** A backward search finds the last change earlier than t with the target value, always. */
  lemma BackwardEdgeIsExact(file: File, leaf: Leaf, t: int, kind: Kind)
    requires Recorded(file, leaf) && 0 <= t && !kind.AnyEdge?
    requires EdgeSpec(file, leaf, t, kind, true).Ok?
    ensures LastBefore(leaf, EdgeSpec(file, leaf, t, kind, true).value, |leaf.events| - 1, t, Target(kind))
  {
    hide Shown, BackwardFrom, LastAtOrBefore, Hit;
    SeekBegin(file, leaf, t);
    var i := SeekIndex(file, leaf.events, Tag(Min(t, file.maxTime)));
    if i.Some? {
      BackwardFinds(leaf, i.value, t, Target(kind));
      if HasChangeBy(leaf, t) {
        assert forall k :: i.value < k < |leaf.events| ==> leaf.events[k].time > t;
      } else {
        assert leaf.events[0].time > t;
        assert forall k :: 0 <= k < |leaf.events| ==> leaf.events[0].time <= leaf.events[k].time;
      }
    }
  }

  /** Forward, a rising edge is a change to "1" and a falling edge a change to "0". */
  lemma ForwardToOneOrZero(file: File, leaf: Leaf, t: int)
    requires Recorded(file, leaf) && 0 <= t && file.maxTime <= INT64_MAX && HasChangeBy(leaf, t)
    ensures var rising := EdgeSpec(file, leaf, t, Rising, false);
      rising.Ok? ==> FirstAfter(leaf, rising.value, 0, t, "1")
    ensures var falling := EdgeSpec(file, leaf, t, Falling, false);
      falling.Ok? ==> FirstAfter(leaf, falling.value, 0, t, "0")
  {
    hide EdgeSpec, FirstAfter;
    if EdgeSpec(file, leaf, t, Rising, false).Ok? {
      ForwardEdgeIsExact(file, leaf, t, Rising);
    }
    if EdgeSpec(file, leaf, t, Falling, false).Ok? {
      ForwardEdgeIsExact(file, leaf, t, Falling);
    }
  }

  /** Backward likewise. */
  lemma BackwardToOneOrZero(file: File, leaf: Leaf, t: int)
    requires Recorded(file, leaf) && 0 <= t
    ensures var rising := EdgeSpec(file, leaf, t, Rising, true);
      rising.Ok? ==> LastBefore(leaf, rising.value, |leaf.events| - 1, t, "1")
    ensures var falling := EdgeSpec(file, leaf, t, Falling, true);
      falling.Ok? ==> LastBefore(leaf, falling.value, |leaf.events| - 1, t, "0")
  {
    hide EdgeSpec, LastBefore;
    if EdgeSpec(file, leaf, t, Rising, true).Ok? {
      BackwardEdgeIsExact(file, leaf, t, Rising);
    }
    if EdgeSpec(file, leaf, t, Falling, true).Ok? {
      BackwardEdgeIsExact(file, leaf, t, Falling);
    }
  }

  // ------------------------------------------- any edge of a bit select, backward

  /** What the changes up to the target time show of the select; None when one does not fit. */
  function SelectedUpTo(leaf: Leaf, i: nat, target: int): Result<seq<Value>>
    decreases |leaf.events| - i
  {
    if i >= |leaf.events| || leaf.events[i].time > target then Ok([]) else
    match Shown(leaf, i, Bin)
    case Err(f) => Err(f)
    case Ok(text) =>
      match SelectedUpTo(leaf, i + 1, target)
      case Err(f) => Err(f)
      case Ok(more) => Ok([Value(leaf.events[i].time, text)] + more)
  }

  function Unknown(width: nat): string {
    seq(width, _ => 'x')
  }

  /** As many bits, none of them known. */
  lemma UnknownIs(width: nat)
    ensures |Unknown(width)| == width && forall i :: 0 <= i < width ==> Unknown(width)[i] == 'x'
  {
  }

  /** The start of the run of equal values that ends at index i. */
  function RunStart(shown: seq<Value>, i: nat): (k: nat)
    requires i < |shown|
    ensures k <= i && forall j :: k <= j <= i ==> shown[j].text == shown[i].text
    ensures k > 0 ==> shown[k-1].text != shown[i].text
  {
    if i == 0 || shown[i].text != shown[i-1].text then i else RunStart(shown, i - 1)
  }

  /** Chooses among the changes up to the target. */
  function PartialChoice(shown: seq<Value>): Edge {
    var last := |shown| - 1;
    if shown == [] then NotFound
    else if last == 0 then Found(Value(shown[0].time, Unknown(|shown[0].text|)))
    else if shown[last].text == shown[last-1].text then Found(Value(shown[last-1].time, Unknown(|shown[last].text|)))
    else Found(shown[RunStart(shown, last - 1)])
  }

  function PartialBackward(leaf: Leaf, target: int): Result<Edge> {
    match SelectedUpTo(leaf, 0, target)
    case Err(f) => Err(f)
    case Ok(shown) => Ok(PartialChoice(shown))
  }

  method PartialBackwardAnyEdge(file: File, leaf: Leaf, target: int) returns (r: Result<Edge>)
    ensures r == PartialBackward(leaf, target)
  {
    hide Shown, SelectedUpTo, RunStart;
    SelectedStep(leaf, 0, target);
    var c := new Cursor(file, leaf.events);
    var ok := c.First();
    if !ok {
      return Ok(NotFound);
    }
    var collected := CollectSelected(leaf, c, target);
    if collected.Err? {
      return Err(collected.fault);
    }
    var shown := collected.value;
    if shown == [] {
      return Ok(NotFound);
    }
    var last := |shown| - 1;
    if last == 0 {
      return Ok(Found(Value(shown[0].time, Unknown(|shown[0].text|))));
    }
    if shown[last].text == shown[last-1].text {
      return Ok(Found(Value(shown[last-1].time, Unknown(|shown[last].text|))));
    }
    var i := last;
    while i > 0
      invariant 0 < i <= last
      invariant RunStart(shown, last - 1) == RunStart(shown, i - 1)
      decreases i
    {
      RunStartStep(shown, i - 1);
      if i == 1 || shown[i-1].text != shown[i-2].text {
        return Ok(Found(shown[i-1]));
      }
      i := i - 1;
    }
  }

  /** The loop that gathers the changes up to the target time. */
  method CollectSelected(leaf: Leaf, c: Cursor, target: int) returns (r: Result<seq<Value>>)
    requires c.OnEvent() && c.events == leaf.events
    modifies c
    ensures r == SelectedUpTo(leaf, old(c.pos), target)
  {
    hide Shown, SelectedUpTo;
    ghost var all := SelectedUpTo(leaf, c.pos, target);
    var shown := [];
    while true
      invariant c.OnEvent()
      invariant match SelectedUpTo(leaf, c.pos, target)
        case Err(f) => all == Err(f)
        case Ok(more) => all.Ok? && all.value == shown + more
      decreases |leaf.events| - c.pos
    {
      SelectedStep(leaf, c.pos, target);
      if c.events[c.pos].time > target {
        break;
      }
      var v := Current(leaf, c, Bin);
      if v.Err? {
        return Err(v.fault);
      }
      AppendChange(shown, v.value, SelectedUpTo(leaf, c.pos + 1, target));
      shown := shown + [v.value];
      SelectedStep(leaf, c.pos + 1, target);
      var moved := c.Next();
      if !moved {
        break;
      }
    }
    assert shown + [] == shown;
    return Ok(shown);
  }

  lemma RunStartStep(shown: seq<Value>, i: nat)
    requires i < |shown|
    ensures RunStart(shown, i) == if i == 0 || shown[i].text != shown[i-1].text then i else RunStart(shown, i - 1)
  {
  }

  lemma SelectedStep(leaf: Leaf, i: nat, target: int)
    ensures SelectedUpTo(leaf, i, target) ==
      if i >= |leaf.events| || leaf.events[i].time > target then Ok([]) else
      match Shown(leaf, i, Bin)
      case Err(f) => Err(f)
      case Ok(text) =>
        match SelectedUpTo(leaf, i + 1, target)
        case Err(f) => Err(f)
        case Ok(more) => Ok([Value(leaf.events[i].time, text)] + more)
  {
    hide Shown;
  }

  // ------------------------------------------------------------ any edge, what it means

  /** The first change later than t, or nothing when there is none. */
  predicate IsFirstLater(leaf: Leaf, r: Result<Edge>, t: int) {
    if exists j :: 0 <= j < |leaf.events| && leaf.events[j].time > t then
      exists j :: 0 <= j < |leaf.events| && leaf.events[j].time > t && r == AsEdge(leaf, j)
        && forall k :: 0 <= k < j ==> leaf.events[k].time <= t
    else r == Ok(NotFound)
  }

  /** The last change earlier than t, or nothing when there is none. */
  predicate IsLastEarlier(leaf: Leaf, r: Result<Edge>, t: int) {
    if exists j :: 0 <= j < |leaf.events| && leaf.events[j].time < t then
      exists j :: 0 <= j < |leaf.events| && leaf.events[j].time < t && r == AsEdge(leaf, j)
        && forall k :: j < k < |leaf.events| ==> leaf.events[k].time >= t
    else r == Ok(NotFound)
  }

  /**
   A forward search for any edge finds the first change later than t once the signal has a
   change by t. Before that a strict seek finds nothing, and a lenient one passes over the
   first change.
   */
  lemma ForwardAnyIsFirstLater(file: File, leaf: Leaf, t: int)
    requires Recorded(file, leaf) && 0 <= t
    ensures var r := EdgeSpec(file, leaf, t, AnyEdge, false);
      && (HasChangeBy(leaf, t) ==> IsFirstLater(leaf, r, t))
      && (!HasChangeBy(leaf, t) ==>
            r == if file.lenient && |leaf.events| > 1 then AsEdge(leaf, 1) else Ok(NotFound))
  {
    hide AsEdge, LastAtOrBefore;
    SeekBegin(file, leaf, t);
    var i := LastAtOrBefore(leaf.events, t);
    if HasChangeBy(leaf, t) {
      assert forall k :: 0 <= k <= i ==> leaf.events[k].time <= leaf.events[i].time <= t;
      if i + 1 < |leaf.events| {
        assert leaf.events[i+1].time > t;
      }
    }
  }

  /** When the change before the one in force at t is the last change earlier than t. */
  predicate StepsBackRightly(leaf: Leaf, t: int) {
    var i := LastAtOrBefore(leaf.events, t);
    i < 0 ||
    if leaf.events[i].time == t then i == 0 || leaf.events[i-1].time < t
    else i > 0 && leaf.events[i-1].time == leaf.events[i].time && Shown(leaf, i - 1, Bin) == Shown(leaf, i, Bin)
  }

  /**
   A backward search for any edge of a whole signal steps back from the change in force at t.
   That is the last change earlier than t exactly when the one in force is at t itself and the
   one before it is earlier, or when the two do not differ in time and value.
   */
  lemma BackwardAnyIsLastEarlierIff(file: File, leaf: Leaf, t: int)
    requires Recorded(file, leaf) && 0 <= t && leaf.select.None?
    ensures IsLastEarlier(leaf, EdgeSpec(file, leaf, t, AnyEdge, true), t) <==> StepsBackRightly(leaf, t)
  {
    hide LastAtOrBefore, Shown, AsEdge, IsLastEarlier;
    SeekBegin(file, leaf, t);
    var i := LastAtOrBefore(leaf.events, t);
    var r := EdgeSpec(file, leaf, t, AnyEdge, true);
    BackwardAnyStep(file, leaf, t);
    if i < 0 {
      NothingEarlier(leaf, r, t);
    } else if leaf.events[i].time < t {
      LastEarlierIs(leaf, r, t, i);
      WholeEdges(leaf, i);
    } else if i == 0 {
      assert forall k :: 0 <= k < |leaf.events| ==> leaf.events[0].time <= leaf.events[k].time;
      NothingEarlier(leaf, r, t);
    } else if leaf.events[i-1].time < t {
      LastEarlierIs(leaf, r, t, i - 1);
    } else {
      WholeEdges(leaf, i);
      TooLate(leaf, r, t);
    }
  }

  /** The change before the one in force at t. */
  lemma BackwardAnyStep(file: File, leaf: Leaf, t: int)
    requires Recorded(file, leaf) && 0 <= t && leaf.select.None?
    ensures var i := LastAtOrBefore(leaf.events, t);
      EdgeSpec(file, leaf, t, AnyEdge, true) == if i > 0 then AsEdge(leaf, i - 1) else Ok(NotFound)
  {
    hide LastAtOrBefore, AsEdge;
    SeekBegin(file, leaf, t);
  }

  lemma WholeEdges(leaf: Leaf, i: nat)
    requires leaf.select.None? && 0 <= i < |leaf.events|
    ensures i > 0 ==>
      (var e := AsEdge(leaf, i - 1); e.Ok? && e.value.Found? && e.value.value.time == leaf.events[i-1].time)
    ensures i > 0 ==>
      (AsEdge(leaf, i - 1) == AsEdge(leaf, i) <==>
        leaf.events[i-1].time == leaf.events[i].time && Shown(leaf, i - 1, Bin) == Shown(leaf, i, Bin))
    ensures AsEdge(leaf, i) != Ok(NotFound)
  {
    hide Converted;
  }

  lemma NothingEarlier(leaf: Leaf, r: Result<Edge>, t: int)
    requires forall k :: 0 <= k < |leaf.events| ==> leaf.events[k].time >= t
    ensures IsLastEarlier(leaf, r, t) <==> r == Ok(NotFound)
  {
    hide AsEdge;
  }

  lemma TooLate(leaf: Leaf, r: Result<Edge>, t: int)
    requires r.Ok? && r.value.Found? && r.value.value.time >= t
    ensures !IsLastEarlier(leaf, r, t)
  {
    hide Shown;
  }

  lemma LastEarlierIs(leaf: Leaf, r: Result<Edge>, t: int, j: nat)
    requires Sorted(leaf.events) && j < |leaf.events| && leaf.events[j].time < t
    requires j + 1 < |leaf.events| ==> leaf.events[j+1].time >= t
    ensures IsLastEarlier(leaf, r, t) <==> r == AsEdge(leaf, j)
  {
    hide AsEdge;
    assert forall k :: j < k < |leaf.events| ==> leaf.events[j+1].time <= leaf.events[k].time;
    forall m | 0 <= m < |leaf.events| && leaf.events[m].time < t && forall k :: m < k < |leaf.events| ==> leaf.events[k].time >= t
      ensures m == j
    {
    }
  }

  /** From behind the last change the search goes one change too far back. */
  lemma BackwardAnyPassesOver()
    ensures
      var leaf, file := Leaf([Event(0, "0"), Event(10, "1")], None), File(0, 20, false);
      && EdgeSpec(file, leaf, 15, AnyEdge, true) == Ok(Found(Value(0, "0")))
      && !IsLastEarlier(leaf, EdgeSpec(file, leaf, 15, AnyEdge, true), 15)
  {
    hide LastAtOrBefore;
    var leaf, file := Leaf([Event(0, "0"), Event(10, "1")], None), File(0, 20, false);
    LastIs(leaf.events, 15, 1);
    LastEarlierIs(leaf, EdgeSpec(file, leaf, 15, AnyEdge, true), 15, 1);
  }

  // ------------------------------------- any edge of a bit select, what it means

  predicate ReadableTo(leaf: Leaf, n: nat) {
    n <= |leaf.events| && forall k :: 0 <= k < n ==> Shown(leaf, k, Bin).Ok?
  }

  /** The change at which the select took the value it shows at change i. */
  function TakenAt(leaf: Leaf, i: nat): (k: nat)
    requires i < |leaf.events|
    ensures k <= i && forall j :: k <= j <= i ==> Shown(leaf, j, Bin) == Shown(leaf, i, Bin)
    ensures k > 0 ==> Shown(leaf, k - 1, Bin) != Shown(leaf, i, Bin)
  {
    if i == 0 || Shown(leaf, i - 1, Bin) != Shown(leaf, i, Bin) then i else TakenAt(leaf, i - 1)
  }

  /** Change i leaves the select as it was; the first change counts as one that does. */
  predicate Silent(leaf: Leaf, i: nat)
    requires i < |leaf.events|
  {
    i == 0 || Shown(leaf, i - 1, Bin) == Shown(leaf, i, Bin)
  }

  function Blank(leaf: Leaf, at: nat, i: nat): Edge
    requires at < |leaf.events| && i < |leaf.events| && Shown(leaf, i, Bin).Ok?
  {
    Found(Value(leaf.events[at].time, Unknown(|Shown(leaf, i, Bin).value|)))
  }

  lemma {:induction false} SelectedAre(leaf: Leaf, from: nat, t: int)
    requires Sorted(leaf.events)
    requires from <= LastAtOrBefore(leaf.events, t) + 1
    ensures
      var n, r := LastAtOrBefore(leaf.events, t) + 1, SelectedUpTo(leaf, from, t);
      && (r.Ok? <==> forall k :: from <= k < n ==> Shown(leaf, k, Bin).Ok?)
      && (r.Ok? ==> |r.value| == n - from && forall k :: 0 <= k < n - from ==>
            Shown(leaf, from + k, Bin) == Ok(r.value[k].text) && r.value[k].time == leaf.events[from + k].time)
    decreases |leaf.events| - from
  {
    hide Shown, SelectedUpTo, LastAtOrBefore;
    SelectedStep(leaf, from, t);
    var n, r := LastAtOrBefore(leaf.events, t) + 1, SelectedUpTo(leaf, from, t);
    if from < n {
      assert leaf.events[from].time <= leaf.events[n-1].time <= t;
      SelectedAre(leaf, from + 1, t);
      if r.Ok? {
        var more := SelectedUpTo(leaf, from + 1, t).value;
        forall k | 1 <= k < n - from
          ensures Shown(leaf, from + k, Bin) == Ok(r.value[k].text) && r.value[k].time == leaf.events[from + k].time
        {
          var j := k - 1;
          assert r.value[k] == more[j] && from + k == from + 1 + j;
        }
      }
    }
  }

  lemma {:induction false} RunStartIsTakenAt(leaf: Leaf, shown: seq<Value>, i: nat)
    requires i < |shown| <= |leaf.events|
    requires forall k :: 0 <= k < |shown| ==> Shown(leaf, k, Bin) == Ok(shown[k].text)
    ensures RunStart(shown, i) == TakenAt(leaf, i)
  {
    hide Shown;
    if i > 0 && shown[i].text == shown[i-1].text {
      RunStartIsTakenAt(leaf, shown, i - 1);
    }
  }

  /** The choice among the changes that were gathered, said of the recording. */
  lemma ChoiceMeans(leaf: Leaf, shown: seq<Value>)
    requires 0 < |shown| <= |leaf.events|
    requires forall k :: 0 <= k < |shown| ==> Shown(leaf, k, Bin) == Ok(shown[k].text) && shown[k].time == leaf.events[k].time
    ensures
      var i := |shown| - 1;
      Ok(PartialChoice(shown)) ==
        if Silent(leaf, i) then Ok(Blank(leaf, if i == 0 then 0 else i - 1, i)) else AsEdge(leaf, TakenAt(leaf, i - 1))
  {
    hide Shown, RunStart, TakenAt, Unknown;
    var i := |shown| - 1;
    assert Shown(leaf, i, Bin) == Ok(shown[i].text);
    if i > 0 {
      RunStartIsTakenAt(leaf, shown, i - 1);
      var k := RunStart(shown, i - 1);
      assert Shown(leaf, k, Bin) == Ok(shown[k].text) && Shown(leaf, i - 1, Bin) == Ok(shown[i-1].text);
      assert shown[k] == Value(shown[k].time, shown[k].text);
    }
  }

  /** The search fails exactly when some change by t cannot be read. */
  lemma PartialBackwardFailsIff(leaf: Leaf, t: int)
    requires Sorted(leaf.events)
    ensures PartialBackward(leaf, t).Ok? <==> ReadableTo(leaf, LastAtOrBefore(leaf.events, t) + 1)
  {
    hide Shown, SelectedUpTo, LastAtOrBefore, PartialChoice;
    SelectedAre(leaf, 0, t);
  }

  /** The changes that were gathered, one for each change by t. */
  lemma GatheredAre(leaf: Leaf, t: int)
    requires Sorted(leaf.events) && SelectedUpTo(leaf, 0, t).Ok?
    ensures var shown := SelectedUpTo(leaf, 0, t).value;
      && |shown| == LastAtOrBefore(leaf.events, t) + 1
      && forall k :: 0 <= k < |shown| ==>
           Shown(leaf, k, Bin) == Ok(shown[k].text) && shown[k].time == leaf.events[k].time
  {
    hide Shown, SelectedUpTo, LastAtOrBefore;
    SelectedAre(leaf, 0, t);
    var shown := SelectedUpTo(leaf, 0, t).value;
    forall k | 0 <= k < |shown|
      ensures Shown(leaf, k, Bin) == Ok(shown[k].text) && shown[k].time == leaf.events[k].time
    {
      assert 0 + k == k;
    }
  }

  /**
   A backward search for any edge of a bit select fails exactly when some change by t cannot
   be read. Otherwise, when the last change by t alters the select, it finds the alteration
   before that one; when it does not, it finds the change before the last with an unknown value.
   */
  lemma PartialBackwardMeans(leaf: Leaf, t: int)
    requires Sorted(leaf.events)
    ensures PartialBackward(leaf, t).Ok? <==> ReadableTo(leaf, LastAtOrBefore(leaf.events, t) + 1)
    ensures
      var i, r := LastAtOrBefore(leaf.events, t), PartialBackward(leaf, t);
      r.Ok? ==> r == if i < 0 then Ok(NotFound)
                     else if Silent(leaf, i) then Ok(Blank(leaf, if i == 0 then 0 else i - 1, i))
                     else AsEdge(leaf, TakenAt(leaf, i - 1))
  {
    hide Shown, SelectedUpTo, LastAtOrBefore, TakenAt, PartialChoice, AsEdge, Blank, Silent;
    PartialBackwardFailsIff(leaf, t);
    if PartialBackward(leaf, t).Ok? {
      GatheredAre(leaf, t);
      var shown := SelectedUpTo(leaf, 0, t).value;
      if shown == [] {
        NoChoice(shown);
      } else {
        ChoiceMeans(leaf, shown);
      }
    }
  }

  lemma NoChoice(shown: seq<Value>)
    ensures shown == [] ==> PartialChoice(shown) == NotFound
  {
  }

  /** The last alteration of the select earlier than t, or nothing when there is none. */
  predicate IsLastAlteration(leaf: Leaf, r: Result<Edge>, t: int) {
    if exists j :: 0 <= j < |leaf.events| && Alters(leaf, j) && leaf.events[j].time < t then
      exists j :: 0 <= j < |leaf.events| && Alters(leaf, j) && leaf.events[j].time < t && r == AsEdge(leaf, j)
        && forall k :: j < k < |leaf.events| && leaf.events[k].time < t ==> !Alters(leaf, k)
    else r == Ok(NotFound)
  }

  predicate Alters(leaf: Leaf, j: nat)
    requires j < |leaf.events|
  {
    j == 0 || Shown(leaf, j - 1, Bin) != Shown(leaf, j, Bin)
  }

  /**
   When the search finds the last alteration earlier than t: the change in force at t alters
   the select at t itself and the alteration before it is earlier, or an unknown value is what
   the select shows since the change that is found.
   */
  predicate SelectStepsBackRightly(leaf: Leaf, t: int)
    requires ReadableTo(leaf, LastAtOrBefore(leaf.events, t) + 1)
  {
    var i := LastAtOrBefore(leaf.events, t);
    i < 0 ||
    if Silent(leaf, i) then
      var at, taken := if i == 0 then 0 else i - 1, TakenAt(leaf, i);
      leaf.events[taken].time == leaf.events[at].time < t && AsEdge(leaf, taken) == Ok(Blank(leaf, at, i))
    else leaf.events[i].time == t && leaf.events[TakenAt(leaf, i - 1)].time < t
  }

  lemma LastAlterationIs(leaf: Leaf, r: Result<Edge>, t: int, j: nat)
    requires j < |leaf.events| && Alters(leaf, j) && leaf.events[j].time < t
    requires forall k :: j < k < |leaf.events| && leaf.events[k].time < t ==> !Alters(leaf, k)
    ensures IsLastAlteration(leaf, r, t) <==> r == AsEdge(leaf, j)
  {
    hide AsEdge, Alters;
  }

  lemma FoundLate(leaf: Leaf, r: Result<Edge>, t: int)
    requires r.Ok? && r.value.Found? && r.value.value.time >= t
    ensures !IsLastAlteration(leaf, r, t)
  {
    hide Alters;
  }

  lemma AlterationsBehind(leaf: Leaf, i: nat)
    requires i < |leaf.events|
    ensures Alters(leaf, TakenAt(leaf, i)) && forall k :: TakenAt(leaf, i) < k <= i ==> !Alters(leaf, k)
    ensures TakenAt(leaf, i) == i <==> Alters(leaf, i)
  {
    hide Shown;
  }

  /** When the change in force leaves the select as it was. */
  lemma SilentIff(leaf: Leaf, r: Result<Edge>, t: int, i: nat)
    requires Sorted(leaf.events) && i == LastAtOrBefore(leaf.events, t) && Shown(leaf, i, Bin).Ok? && Silent(leaf, i)
    requires r == Ok(Blank(leaf, if i == 0 then 0 else i - 1, i))
    ensures IsLastAlteration(leaf, r, t) <==>
      var at, taken := if i == 0 then 0 else i - 1, TakenAt(leaf, i);
      leaf.events[taken].time == leaf.events[at].time < t && AsEdge(leaf, taken) == r
  {
    hide Shown, LastAtOrBefore, TakenAt, IsLastAlteration, AsEdge, Blank, Alters;
    var at, taken := if i == 0 then 0 else i - 1, TakenAt(leaf, i);
    EdgesHaveTimes(leaf, at, i);
    AlterationsBehind(leaf, i);
    if leaf.events[taken].time < t {
      LastAlterationIs(leaf, r, t, taken);
      BlankTime(leaf, at, i, taken);
    } else {
      assert taken <= at;
      FoundLate(leaf, r, t);
    }
  }

  /** When it alters the select, and the answer is the alteration before it. */
  lemma AlteringIff(leaf: Leaf, r: Result<Edge>, t: int, i: nat)
    requires Sorted(leaf.events) && i == LastAtOrBefore(leaf.events, t) && ReadableTo(leaf, i + 1) && !Silent(leaf, i)
    requires r == AsEdge(leaf, TakenAt(leaf, i - 1))
    ensures IsLastAlteration(leaf, r, t) <==> leaf.events[i].time == t && leaf.events[TakenAt(leaf, i - 1)].time < t
  {
    hide Shown, LastAtOrBefore, TakenAt, IsLastAlteration, AsEdge, Alters;
    AlterationsBehind(leaf, i);
    AlterationsBehind(leaf, i - 1);
    var before := TakenAt(leaf, i - 1);
    EdgesHaveTimes(leaf, before, before);
    if leaf.events[i].time < t {
      LastAlterationIs(leaf, r, t, i);
      DifferentEdges(leaf, before, i);
    } else if leaf.events[before].time < t {
      LastAlterationIs(leaf, r, t, before);
    } else {
      FoundLate(leaf, r, t);
    }
  }

  /** Whether a backward search for any edge of a bit select finds its last alteration. */
  lemma PartialBackwardIsLastAlterationIff(leaf: Leaf, t: int)
    requires Sorted(leaf.events) && ReadableTo(leaf, LastAtOrBefore(leaf.events, t) + 1)
    ensures IsLastAlteration(leaf, PartialBackward(leaf, t), t) <==> SelectStepsBackRightly(leaf, t)
  {
    hide Shown, LastAtOrBefore, TakenAt, PartialBackward, IsLastAlteration, AsEdge, Blank;
    PartialBackwardMeans(leaf, t);
    var i, r := LastAtOrBefore(leaf.events, t), PartialBackward(leaf, t);
    if i < 0 {
      NoAlteration(leaf, r, t);
    } else if Silent(leaf, i) {
      SilentIff(leaf, r, t, i);
    } else {
      AlteringIff(leaf, r, t, i);
    }
  }

  lemma EdgesHaveTimes(leaf: Leaf, at: nat, i: nat)
    requires at < |leaf.events| && i < |leaf.events| && Shown(leaf, i, Bin).Ok?
    ensures Blank(leaf, at, i).Found? && Blank(leaf, at, i).value.time == leaf.events[at].time
    ensures AsEdge(leaf, i).Ok? && AsEdge(leaf, i).value.Found? && AsEdge(leaf, i).value.value.time == leaf.events[i].time
  {
    hide Shown;
  }

  lemma BlankTime(leaf: Leaf, at: nat, i: nat, taken: nat)
    requires at < |leaf.events| && i < |leaf.events| && taken < |leaf.events| && Shown(leaf, i, Bin).Ok?
    ensures AsEdge(leaf, taken) == Ok(Blank(leaf, at, i)) ==> leaf.events[taken].time == leaf.events[at].time
  {
    hide Shown;
  }

  lemma DifferentEdges(leaf: Leaf, j: nat, i: nat)
    requires j < |leaf.events| && i < |leaf.events| && Shown(leaf, i, Bin).Ok? && Shown(leaf, j, Bin) != Shown(leaf, i, Bin)
    ensures AsEdge(leaf, j) != AsEdge(leaf, i)
  {
    hide Shown;
  }

  lemma NoAlteration(leaf: Leaf, r: Result<Edge>, t: int)
    requires forall k :: 0 <= k < |leaf.events| ==> leaf.events[k].time > t
    ensures IsLastAlteration(leaf, r, t) <==> r == Ok(NotFound)
  {
    hide Alters, AsEdge;
  }
}
