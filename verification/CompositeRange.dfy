/**
 The range query on composite signals: the times at which some part changes are merged, and
 the value is read again at each of them.
 */
module CompositeRange {
  import opened CText
  import opened Radix
  import opened Waveform
  import opened Database
  import opened Composite
  import opened Reading

  // ------------------------------------------------------------- a set of times

  /** std::set iterates its elements in ascending order. */
  predicate Ascending(times: seq<int>) {
    forall i, j :: 0 <= i < j < |times| ==> times[i] < times[j]
  }

  function InsertTime(times: seq<int>, t: int): seq<int> {
    if times == [] || times[|times|-1] < t then times + [t]
    else if times[|times|-1] == t then times
    else InsertTime(times[..|times|-1], t) + [times[|times|-1]]
  }

  lemma {:induction false} InsertTimeIs(times: seq<int>, t: int)
    requires Ascending(times)
    ensures Ascending(InsertTime(times, t))
    ensures forall x :: x in InsertTime(times, t) <==> x in times || x == t
    decreases |times|
  {
    if times != [] && times[|times|-1] > t {
      var front, last := times[..|times|-1], times[|times|-1];
      assert times == front + [last];
      InsertTimeIs(front, t);
      var r := InsertTime(front, t);
      forall i | 0 <= i < |r| ensures r[i] < last {
        assert r[i] in r;
      }
    }
  }

  // ---------------------------------------------------- the times of one signal

  /** The loop over the changes from the i-th on. */
  function AddChangeTimes(events: seq<Event>, i: nat, begin: int, end: int, times: seq<int>): seq<int>
    decreases |events| - i
  {
    if i >= |events| || events[i].time > end then times else
    AddChangeTimes(events, i + 1, begin, end, if begin <= events[i].time then InsertTime(times, events[i].time) else times)
  }

  predicate ChangesFromOn(events: seq<Event>, i: nat, x: int) {
    exists j :: i <= j < |events| && events[j].time == x
  }

  lemma {:induction false} AddChangeTimesAre(events: seq<Event>, i: nat, begin: int, end: int, times: seq<int>)
    requires Sorted(events) && Ascending(times)
    ensures var r := AddChangeTimes(events, i, begin, end, times);
      Ascending(r) && forall x :: x in r <==> (x in times || (begin <= x <= end && ChangesFromOn(events, i, x)))
    decreases |events| - i
  {
    hide InsertTime;
    if i < |events| {
      assert forall x :: ChangesFromOn(events, i, x) <==> (x == events[i].time || ChangesFromOn(events, i + 1, x));
      if events[i].time <= end {
        InsertTimeIs(times, events[i].time);
        AddChangeTimesAre(events, i + 1, begin, end, if begin <= events[i].time then InsertTime(times, events[i].time) else times);
      }
    }
  }

  /** The times of a readable signal, from the change the seek lands on; a composite has no cursor. */
  function AddLeafTimes(db: Db, d: Descriptor, begin: int, end: int, times: seq<int>): Result<seq<int>> {
    if !d.v.readable || d.v.id == 0 then Err(UnsupportedType) else
    var events := TraceOf(db, d.v);
    match SeekIndex(db.file, events, Tag(Min(begin, db.file.maxTime)))
    case None => Ok(times)
    case Some(i) => Ok(AddChangeTimes(events, i, begin, end, times))
  }

  method CollectLeafTimes(db: Db, d: Descriptor, begin: int, end: int, times: seq<int>) returns (r: Result<seq<int>>)
    ensures r == AddLeafTimes(db, d, begin, end, times)
  {
    hide AddChangeTimes, InsertTime;
    if !d.v.readable || d.v.id == 0 {
      return Err(UnsupportedType);
    }
    var c := new Cursor(db.file, TraceOf(db, d.v));
    var ok := c.Seek(Tag(Min(begin, db.file.maxTime)));
    if !ok {
      return Ok(times);
    }
    var found := times;
    while true
      invariant c.OnEvent()
      invariant Ok(AddChangeTimes(c.events, c.pos, begin, end, found)) == AddLeafTimes(db, d, begin, end, times)
      decreases |c.events| - c.pos
    {
      AddStep(c.events, c.pos, begin, end, found);
      var t := c.events[c.pos].time;
      if t >= begin && t <= end {
        found := InsertTime(found, t);
      }
      AddStep(c.events, c.pos + 1, begin, end, found);
      if t > end {
        break;
      }
      var moved := c.Next();
      if !moved {
        break;
      }
    }
    return Ok(found);
  }

  lemma AddStep(events: seq<Event>, i: nat, begin: int, end: int, times: seq<int>)
    ensures AddChangeTimes(events, i, begin, end, times) ==
      if i >= |events| || events[i].time > end then times else
      AddChangeTimes(events, i + 1, begin, end, if begin <= events[i].time then InsertTime(times, events[i].time) else times)
  {
  }

  // ------------------------------------------------- the times of all the parts

  /** Only entries are followed, so the collection ends whatever is in the tables. */
  ghost function TimesOf(db: Db, path: string, begin: int, end: int, times: seq<int>): Result<seq<int>>
    requires Consistent(db) && IsComposite(db, path)
    decreases Room(db, path), 1
  {
    PartTimes(db, path, PartsOf(db, path), begin, end, times)
  }

  ghost function PartTimes(db: Db, path: string, parts: seq<string>, begin: int, end: int, times: seq<int>): Result<seq<int>>
    requires Consistent(db) && IsComposite(db, path)
    requires forall p :: p in parts ==> p in PartsOf(db, path)
    decreases Room(db, path), 0, |parts|
  {
    if parts == [] then Ok(times) else
    var n := |parts| - 1;
    PartHasLessRoom(db, path, parts[n]);
    match PartTimes(db, path, parts[..n], begin, end, times)
    case Err(f) => Err(f)
    case Ok(front) =>
      if IsComposite(db, parts[n]) then TimesOf(db, parts[n], begin, end, front)
      else SimpleTimes(db, parts[n], begin, end, front)
  }

  /** The times of a part that is not a composite; a select of a composite is refused. */
  function SimpleTimes(db: Db, path: string, begin: int, end: int, times: seq<int>): Result<seq<int>>
    requires Consistent(db)
  {
    match Lookup(db, path)
    case Err(f) => Err(f)
    case Ok(d) => AddLeafTimes(db, d, begin, end, times)
  }

  method CollectCompositeTimes(db: Db, path: string, begin: int, end: int, times: seq<int>) returns (r: Result<seq<int>>)
    requires Consistent(db) && IsComposite(db, path)
    ensures r == TimesOf(db, path, begin, end, times)
    decreases Room(db, path)
  {
    hide PartsOf, PartTimes, Room, Lookup, AddLeafTimes;
    var children := CompositeChildren(db, path);
    var found := times;
    NoPartTimes(db, path, begin, end, times);
    assert children[..0] == [];
    for i := 0 to |children|
      invariant PartTimes(db, path, children[..i], begin, end, times) == Ok(found)
    {
      var child := children[i];
      PartHasLessRoom(db, path, child);
      PartTimesStep(db, path, children, i, begin, end, times);
      SourceKnown(db, child);
      var descriptor := FindSignal(db, child);
      var more;
      if descriptor.Err? {
        more := Err(descriptor.fault);
      } else if descriptor.value.v.id == 0 && descriptor.value.Whole? {
        more := CollectCompositeTimes(db, child, begin, end, found);
      } else {
        more := CollectLeafTimes(db, descriptor.value, begin, end, found);
      }
      if more.Err? {
        PartTimesFail(db, path, children, i + 1, begin, end, times);
        return more;
      }
      found := more.value;
    }
    assert children[..|children|] == children;
    return Ok(found);
  }

  lemma NoPartTimes(db: Db, path: string, begin: int, end: int, times: seq<int>)
    requires Consistent(db) && IsComposite(db, path)
    ensures PartTimes(db, path, [], begin, end, times) == Ok(times)
  {
    hide PartsOf;
  }

  lemma PartTimesStep(db: Db, path: string, parts: seq<string>, i: nat, begin: int, end: int, times: seq<int>)
    requires Consistent(db) && IsComposite(db, path)
    requires (forall p :: p in parts ==> p in PartsOf(db, path)) && i < |parts|
    ensures PartTimes(db, path, parts[..i+1], begin, end, times) ==
      match PartTimes(db, path, parts[..i], begin, end, times)
      case Err(f) => Err(f)
      case Ok(front) =>
        if IsComposite(db, parts[i]) then TimesOf(db, parts[i], begin, end, front)
        else SimpleTimes(db, parts[i], begin, end, front)
  {
    hide PartsOf, SimpleTimes, TimesOf;
    PartHasLessRoom(db, path, parts[i]);
    assert parts[..i+1][..i] == parts[..i];
  }

  lemma {:induction false} PartTimesFail(db: Db, path: string, parts: seq<string>, i: nat, begin: int, end: int, times: seq<int>)
    requires Consistent(db) && IsComposite(db, path) && parts == PartsOf(db, path) && i <= |parts|
    requires PartTimes(db, path, parts[..i], begin, end, times).Err?
    ensures PartTimes(db, path, parts, begin, end, times) == PartTimes(db, path, parts[..i], begin, end, times)
    decreases |parts| - i
  {
    hide PartsOf, SimpleTimes, PartTimes, TimesOf;
    if i == |parts| {
      assert parts[..i] == parts;
    } else {
      PartTimesStep(db, path, parts, i, begin, end, times);
      PartTimesFail(db, path, parts, i + 1, begin, end, times);
    }
  }

  // --------------------------------------------------- when the times are collected

  /** Every part at any depth is found, and is a composite, a readable signal or a select of one. */
  ghost predicate Collectable(db: Db, path: string)
    requires Consistent(db) && IsComposite(db, path)
    decreases Room(db, path)
  {
    forall part :: part in PartsOf(db, path) ==>
      if IsComposite(db, part) then (PartHasLessRoom(db, path, part); Collectable(db, part)) else Offers(db, part)
  }

  /** A cursor can be had for the path. */
  predicate Offers(db: Db, path: string)
    requires Consistent(db)
  {
    Lookup(db, path).Ok? && Lookup(db, path).value.v.id != 0 && Lookup(db, path).value.v.readable
  }

  lemma CollectablePart(db: Db, path: string, part: string)
    requires Consistent(db) && IsComposite(db, path) && part in PartsOf(db, path)
    ensures Collectable(db, path) ==> if IsComposite(db, part) then Collectable(db, part) else Offers(db, part)
    ensures IsComposite(db, part) ==> Room(db, part) < Room(db, path)
  {
    hide PartsOf, Room, Offers;
    PartHasLessRoom(db, path, part);
  }

  /**
   The collection succeeds exactly when every part at any depth can be read by a cursor,
   whatever the range; otherwise it fails.
   */
  lemma {:induction false} CollectedIff(db: Db, path: string, begin: int, end: int, times: seq<int>)
    requires Consistent(db) && IsComposite(db, path)
    ensures TimesOf(db, path, begin, end, times).Ok? <==> Collectable(db, path)
    decreases Room(db, path), 1
  {
    hide PartsOf, PartTimes, Room, Offers;
    var parts := PartsOf(db, path);
    PartsCollectedIff(db, path, parts, begin, end, times);
    forall part | part in parts ensures IsComposite(db, part) ==> Room(db, part) < Room(db, path) {
      PartHasLessRoom(db, path, part);
    }
  }

  lemma {:induction false} PartsCollectedIff(db: Db, path: string, parts: seq<string>, begin: int, end: int, times: seq<int>)
    requires Consistent(db) && IsComposite(db, path)
    requires forall p :: p in parts ==> p in PartsOf(db, path)
    ensures PartTimes(db, path, parts, begin, end, times).Ok? <==>
      forall p :: p in parts ==> if IsComposite(db, p) then Collectable(db, p) else Offers(db, p)
    decreases Room(db, path), 0, |parts|
  {
    hide PartsOf, TimesOf, Room, Lookup, Collectable, AddChangeTimes;
    if parts != [] {
      var n := |parts| - 1;
      assert parts == parts[..n] + [parts[n]];
      PartHasLessRoom(db, path, parts[n]);
      PartsCollectedIff(db, path, parts[..n], begin, end, times);
      if PartTimes(db, path, parts[..n], begin, end, times).Ok? && IsComposite(db, parts[n]) {
        CollectedIff(db, parts[n], begin, end, PartTimes(db, path, parts[..n], begin, end, times).value);
      }
    }
  }

  /** A composite whose times can be collected has no part that leads back. */
  lemma {:induction false} CollectableIsGrounded(db: Db, path: string)
    requires Consistent(db) && IsComposite(db, path) && Collectable(db, path)
    ensures Grounded(db, path)
    decreases Room(db, path)
  {
    hide PartsOf, Room, Lookup, Collectable;
    forall part | part in PartsOf(db, path)
      ensures !LeadsBack(db, part) && (IsComposite(db, part) ==> Grounded(db, part))
    {
      CollectablePart(db, path, part);
      if IsComposite(db, part) {
        CollectableIsGrounded(db, part);
      }
    }
  }

  /** Where the first part leads back that is reached, the collection is refused. */
  lemma LeadingBackIsRefused(db: Db, path: string, i: nat, begin: int, end: int, times: seq<int>)
    requires Consistent(db) && IsComposite(db, path) && i < |PartsOf(db, path)| && LeadsBack(db, PartsOf(db, path)[i])
    ensures PartTimes(db, path, PartsOf(db, path)[..i], begin, end, times).Ok? ==>
      TimesOf(db, path, begin, end, times) == Err(UnsupportedType)
    ensures TimesOf(db, path, begin, end, times).Err?
  {
    hide PartsOf, PartTimes, Lookup;
    var parts := PartsOf(db, path);
    PartTimesStep(db, path, parts, i, begin, end, times);
    if PartTimes(db, path, parts[..i], begin, end, times).Err? {
      PartTimesFail(db, path, parts, i, begin, end, times);
    } else {
      PartTimesFail(db, path, parts, i + 1, begin, end, times);
    }
  }

  // ------------------------------------------------------------------ the range

  /** The values at the given times, a repeated value left out. */
  ghost function ListAt(db: Db, path: string, radix: Radix, times: seq<int>, last: Option<string>): Result<seq<Value>>
    requires Consistent(db) && Answerable(db, path)
    decreases |times|
  {
    if times == [] then Ok([]) else
    match PathText(db, path, times[0], radix)
    case Err(f) => Err(f)
    case Ok(text) =>
      if last == Some(text) then ListAt(db, path, radix, times[1..], last)
      else match ListAt(db, path, radix, times[1..], Some(text))
           case Err(f) => Err(f)
           case Ok(more) => Ok([Value(times[0], text)] + more)
  }

  /** The times at which the composite behind a path changes; the failure when there is none. */
  ghost function TimesBehind(db: Db, path: string, begin: int, end: int): Result<seq<int>>
    requires Consistent(db)
  {
    BehindIsComposite(db, path);
    match CompositeBehind(db, path)
    case None => Err(SignalNotFound)
    case Some(base) => TimesOf(db, base, begin, end, [])
  }

  /** The composite query is asked only for paths that do not name a readable signal. */
  predicate NoLeaf(db: Db, path: string)
    requires Consistent(db)
  {
    Lookup(db, path).Ok? ==> Lookup(db, path).value.v.id == 0
  }

  /** Once the times have been collected the path is answerable, and so every later read ends. */
  lemma CollectedIsAnswerable(db: Db, path: string, begin: int, end: int)
    requires Consistent(db) && TimesBehind(db, path, begin, end).Ok?
    ensures Answerable(db, path)
  {
    hide PartsOf, TimesOf, Lookup, Grounded, Collectable;
    BehindIsComposite(db, path);
    if CompositeBehind(db, path).Some? {
      var base := CompositeBehind(db, path).value;
      CollectedIff(db, base, begin, end, []);
      CollectableIsGrounded(db, base);
    }
  }

  ghost function CompositeRangeSpec(db: Db, path: string, begin: int, end: int, radix: Radix): Result<seq<Value>>
    requires Consistent(db)
  {
    var times := TimesBehind(db, path, begin, end);
    if times.Err? then Err(times.fault)
    else if times.value == [] then Ok([])
    else
      CollectedIsAnswerable(db, path, begin, end);
      ListAt(db, path, radix, InsertTime(times.value, begin), None)
  }

  /** What is returned of a list: the first ones, and how many there are. */
  function Cut(all: Result<seq<Value>>, limit: nat): Result<Range> {
    if all.Ok? then Ok(Limited(all.value, limit)) else Err(all.fault)
  }

  lemma LookupFault(db: Db, path: string)
    requires Consistent(db) && Lookup(db, path).Err?
    ensures Lookup(db, path) == Err(SignalNotFound)
  {
    hide PartsOf, ParseRange, LongestUpTo;
  }

  /** Collects the change times of the composite a path asks for. */
  method CollectBehind(db: Db, path: string, begin: int, end: int) returns (r: Result<seq<int>>)
    requires Consistent(db) && NoLeaf(db, path)
    ensures r == TimesBehind(db, path, begin, end)
  {
    hide PartsOf, Lookup, TimesOf;
    BehindIsComposite(db, path);
    var descriptor := FindSignal(db, path);
    if descriptor.Err? {
      LookupFault(db, path);
      return Err(descriptor.fault);
    }
    var d := descriptor.value;
    r := CollectCompositeTimes(db, if d.Part? then d.source else path, begin, end, []);
  }

  method CompositeRangeQuery(db: Db, path: string, begin: int, end: int, radix: Radix, limit: nat) returns (r: Result<Range>)
    requires Consistent(db) && NoLeaf(db, path)
    ensures r == Cut(CompositeRangeSpec(db, path, begin, end, radix), limit)
  {
    hide TimesBehind, ListAt, PathText, InsertTime, Answerable, NoLeaf;
    var collected := CollectBehind(db, path, begin, end);
    if collected.Err? {
      return Err(collected.fault);
    }
    if collected.value == [] {
      return Ok(Range([], 0));
    }
    CollectedIsAnswerable(db, path, begin, end);
    r := ListValues(db, path, radix, InsertTime(collected.value, begin), limit);
  }

  /** The range of whatever a path names. */
  ghost function AnyRangeSpec(db: Db, path: string, begin: int, end: int, radix: Radix): Result<seq<Value>>
    requires Consistent(db)
  {
    match Lookup(db, path)
    case Err(f) => Err(f)
    case Ok(d) =>
      if d.v.id == 0 then CompositeRangeSpec(db, path, begin, end, radix)
      else if !d.v.readable then Err(UnsupportedType)
      else RangeSpec(db.file, LeafOf(db, d), begin, end, radix)
  }

  method AnyRange(db: Db, path: string, begin: int, end: int, radix: Radix, limit: nat) returns (r: Result<Range>)
    requires Consistent(db)
    ensures r == Cut(AnyRangeSpec(db, path, begin, end, radix), limit)
  {
    hide PartsOf, Lookup, CompositeRangeSpec, RangeSpec, Limited;
    var descriptor := FindSignal(db, path);
    if descriptor.Err? {
      return Err(descriptor.fault);
    }
    var d := descriptor.value;
    if d.v.id == 0 {
      r := CompositeRangeQuery(db, path, begin, end, radix, limit);
      return;
    }
    if !d.v.readable {
      return Err(UnsupportedType);
    }
    r := RangeQuery(db.file, LeafOf(db, d), begin, end, radix, limit);
  }

  const COUNT_LIMIT: nat := 100000

  ghost function AnyCountSpec(db: Db, path: string, begin: int, end: int): Result<nat>
    requires Consistent(db)
  {
    match Lookup(db, path)
    case Err(f) => Err(f)
    case Ok(d) =>
      if d.v.id != 0 then
        if !d.v.readable then Err(UnsupportedType) else CountSpec(db.file, LeafOf(db, d), begin, end)
      else
        match CompositeRangeSpec(db, path, begin, end, Bin)
        case Err(f) => Err(f)
        case Ok(all) => Ok(|all|)
  }

  /** The number of changes of whatever a path names; for a composite the list's limit does not matter. */
  method AnyCount(db: Db, path: string, begin: int, end: int) returns (r: Result<nat>)
    requires Consistent(db)
    ensures r == AnyCountSpec(db, path, begin, end)
  {
    hide PartsOf, Lookup, CompositeRangeSpec, CountSpec;
    var descriptor := FindSignal(db, path);
    if descriptor.Err? {
      return Err(descriptor.fault);
    }
    var d := descriptor.value;
    if d.v.id == 0 {
      var range := CompositeRangeQuery(db, path, begin, end, Bin, COUNT_LIMIT);
      match range
      case Err(f) => return Err(f);
      case Ok(listed) => return Ok(listed.total);
    }
    if !d.v.readable {
      return Err(UnsupportedType);
    }
    r := Count(db.file, LeafOf(db, d), begin, end);
  }

  /** A path that names nothing, and a signal whose encoding the reader does not support, fail both queries. */
  lemma QueriesFail(db: Db, path: string, begin: int, end: int, radix: Radix)
    requires Consistent(db)
    ensures Lookup(db, path).Err? ==>
      AnyRangeSpec(db, path, begin, end, radix) == Err(SignalNotFound) && AnyCountSpec(db, path, begin, end) == Err(SignalNotFound)
    ensures Lookup(db, path).Ok? && Lookup(db, path).value.v.id != 0 && !Lookup(db, path).value.v.readable ==>
      AnyRangeSpec(db, path, begin, end, radix) == Err(UnsupportedType) && AnyCountSpec(db, path, begin, end) == Err(UnsupportedType)
  {
    hide PartsOf, CompositeRangeSpec, RangeSpec, CountSpec;
    if Lookup(db, path).Err? {
      LookupFault(db, path);
    }
    hide Lookup;
  }

  method ListValues(db: Db, path: string, radix: Radix, times: seq<int>, limit: nat) returns (r: Result<Range>)
    requires Consistent(db) && Answerable(db, path)
    ensures r == Cut(ListAt(db, path, radix, times, None), limit)
  {
    hide ListAt, PathText, Answerable, Ends, Outcome;
    var total, changes := 0, [];
    var last: Option<string> := None;
    ghost var all := ListAt(db, path, radix, times, None);
    ghost var seen := [];
    assert times[0..] == times;
    assert all.Ok? ==> seen + all.value == all.value;
    for i := 0 to |times|
      invariant Range(changes, total) == Limited(seen, limit)
      invariant match ListAt(db, path, radix, times[i..], last)
        case Err(f) => all == Err(f)
        case Ok(more) => all.Ok? && all.value == seen + more
    {
      ListStep(db, path, radix, times, i, last);
      AnswerableEnds(db, path, times[i], radix);
      var v := PointQuery(db, path, times[i], radix);
      if v.Err? {
        return Err(v.fault);
      }
      if last == Some(v.value.text) {
        continue;
      }
      last := Some(v.value.text);
      total := total + 1;
      if |changes| < limit {
        changes := changes + [v.value];
      }
      AppendChange(seen, v.value, ListAt(db, path, radix, times[i+1..], last));
      seen := seen + [v.value];
    }
    assert times[|times|..] == [];
    NothingListed(db, path, radix, last);
    assert seen + [] == seen;
    return Ok(Range(changes, total));
  }

  lemma NothingListed(db: Db, path: string, radix: Radix, last: Option<string>)
    requires Consistent(db) && Answerable(db, path)
    ensures ListAt(db, path, radix, [], last) == Ok([])
  {
    hide PathText, Answerable;
  }

  lemma ListStep(db: Db, path: string, radix: Radix, times: seq<int>, i: nat, last: Option<string>)
    requires Consistent(db) && Answerable(db, path) && i < |times|
    ensures ListAt(db, path, radix, times[i..], last) ==
      match PathText(db, path, times[i], radix)
      case Err(f) => Err(f)
      case Ok(text) =>
        if last == Some(text) then ListAt(db, path, radix, times[i+1..], last)
        else match ListAt(db, path, radix, times[i+1..], Some(text))
             case Err(f) => Err(f)
             case Ok(more) => Ok([Value(times[i], text)] + more)
  {
    hide PathText, Answerable;
    assert times[i..][1..] == times[i+1..];
  }

  // --------------------------------------------- which times, said of the recordings

  ghost predicate Recordings(db: Db) {
    forall id :: id in db.traces ==> Recorded(db.file, Leaf(db.traces[id], None))
  }

  /** Seeking to begin finds the signal: it has a change by then, or any change if the reader is lenient. */
  predicate Seen(db: Db, d: Descriptor, begin: int) {
    var events := TraceOf(db, d.v);
    events != [] && (db.file.lenient || events[0].time <= begin)
  }

  predicate Changes(db: Db, d: Descriptor, x: int) {
    ChangesFromOn(TraceOf(db, d.v), 0, x)
  }

  /** Some signal that seeking to begin finds changes at x. */
  predicate SeenChange(db: Db, leaves: seq<Descriptor>, begin: int, x: int) {
    exists k :: 0 <= k < |leaves| && Seen(db, leaves[k], begin) && Changes(db, leaves[k], x)
  }

  lemma NoLeafChanges(db: Db, begin: int, x: int)
    ensures !SeenChange(db, [], begin, x)
  {
  }

  lemma SeenChangeConcat(db: Db, a: seq<Descriptor>, b: seq<Descriptor>, begin: int, x: int)
    ensures SeenChange(db, a + b, begin, x) <==> (SeenChange(db, a, begin, x) || SeenChange(db, b, begin, x))
  {
    hide Seen, Changes;
    forall k | 0 <= k < |a| ensures (a + b)[k] == a[k] {
    }
    forall k | 0 <= k < |b| ensures (a + b)[|a|+k] == b[k] {
    }
  }

  lemma SeekFindsSeen(db: Db, d: Descriptor, begin: int)
    requires Recordings(db) && 0 <= begin
    ensures
      var events := TraceOf(db, d.v);
      var i := SeekIndex(db.file, events, Tag(Min(begin, db.file.maxTime)));
      && Recorded(db.file, LeafOf(db, d))
      && (i.Some? <==> Seen(db, d, begin))
      && (i.Some? ==> forall j :: 0 <= j < i.value ==> events[j].time <= events[i.value].time)
      && (i.Some? ==> forall x :: begin <= x ==> (Changes(db, d, x) <==> ChangesFromOn(events, i.value, x)))
  {
    hide LastAtOrBefore;
    var events := TraceOf(db, d.v);
    SeekBegin(db.file, LeafOf(db, d), begin);
    var i := SeekIndex(db.file, events, Tag(Min(begin, db.file.maxTime)));
    if i.Some? {
      forall x | begin <= x && Changes(db, d, x) ensures ChangesFromOn(events, i.value, x) {
        var j :| 0 <= j < |events| && events[j].time == x;
        assert j < i.value ==> events[j].time <= events[i.value].time;
        assert j < i.value ==> events[i.value].time == x;
      }
    }
  }

  /** The times were among the given ones, or some signal that is found changes then, inside the range. */
  ghost predicate AreTheTimes(db: Db, leaves: seq<Descriptor>, begin: int, end: int, times: seq<int>, r: seq<int>) {
    && Ascending(r)
    && forall x :: x in r <==> (x in times || (begin <= x <= end && SeenChange(db, leaves, begin, x)))
  }

  lemma LeafTimesAre(db: Db, path: string, begin: int, end: int, times: seq<int>)
    requires Consistent(db) && Recordings(db) && 0 <= begin && Ascending(times)
    requires SimpleTimes(db, path, begin, end, times).Ok?
    ensures AreTheTimes(db, SimpleLeaf(db, path), begin, end, times, SimpleTimes(db, path, begin, end, times).value)
  {
    hide Lookup, AddChangeTimes, Ascending, Recordings, TraceOf, Seen, Changes;
    var d := Lookup(db, path).value;
    SeekFindsSeen(db, d, begin);
    var events := TraceOf(db, d.v);
    var i := SeekIndex(db.file, events, Tag(Min(begin, db.file.maxTime)));
    forall x ensures SeenChange(db, [d], begin, x) <==> (Seen(db, d, begin) && Changes(db, d, x)) {
      if Seen(db, d, begin) && Changes(db, d, x) {
        assert [d][0] == d;
      }
    }
    if i.Some? {
      AddChangeTimesAre(events, i.value, begin, end, times);
    }
  }

  /** The times collected for a composite are exactly those, at any depth. */
  lemma {:induction false} TimesAre(db: Db, path: string, begin: int, end: int, times: seq<int>)
    requires Consistent(db) && IsComposite(db, path)
    requires Recordings(db) && 0 <= begin && Ascending(times) && TimesOf(db, path, begin, end, times).Ok?
    ensures Grounded(db, path)
    ensures AreTheTimes(db, LeavesOf(db, path), begin, end, times, TimesOf(db, path, begin, end, times).value)
    decreases Room(db, path), 1
  {
    hide PartsOf, PartTimes, LeavesIn, Grounded, AreTheTimes, Collectable;
    CollectedIff(db, path, begin, end, times);
    CollectableIsGrounded(db, path);
    PartTimesAre(db, path, PartsOf(db, path), begin, end, times);
  }

  lemma {:induction false} PartTimesAre(db: Db, path: string, parts: seq<string>, begin: int, end: int, times: seq<int>)
    requires Consistent(db) && IsComposite(db, path) && Grounded(db, path)
    requires forall p :: p in parts ==> p in PartsOf(db, path)
    requires Recordings(db) && 0 <= begin && Ascending(times) && PartTimes(db, path, parts, begin, end, times).Ok?
    ensures AreTheTimes(db, LeavesIn(db, path, parts), begin, end, times, PartTimes(db, path, parts, begin, end, times).value)
    decreases Room(db, path), 0, |parts|
  {
    hide PartsOf, SimpleTimes, TimesOf, LeavesOf, SimpleLeaf, Recordings, Grounded, SeenChange, Ascending;
    if parts == [] {
      forall x ensures !SeenChange(db, [], begin, x) {
        NoLeafChanges(db, begin, x);
      }
    } else {
      var n := |parts| - 1;
      GroundedPart(db, path, parts[n]);
      PartTimesAre(db, path, parts[..n], begin, end, times);
      var front := PartTimes(db, path, parts[..n], begin, end, times).value;
      if IsComposite(db, parts[n]) {
        TimesAre(db, parts[n], begin, end, front);
      } else {
        LeafTimesAre(db, parts[n], begin, end, front);
      }
      var here := if IsComposite(db, parts[n]) then LeavesOf(db, parts[n]) else SimpleLeaf(db, parts[n]);
      forall x {
        SeenChangeConcat(db, LeavesIn(db, path, parts[..n]), here, begin, x);
      }
    }
  }

  // ------------------------------------------- between the times nothing changes

  /** Seeking finds all the signals, and none of them changes behind from, up to to. */
  ghost predicate Still(db: Db, leaves: seq<Descriptor>, begin: int, from: int, to: int) {
    && (forall k :: 0 <= k < |leaves| ==> Seen(db, leaves[k], begin))
    && forall k, x :: 0 <= k < |leaves| && from < x <= to ==> !Changes(db, leaves[k], x)
  }

  lemma StillConcat(db: Db, a: seq<Descriptor>, b: seq<Descriptor>, begin: int, from: int, to: int)
    requires Still(db, a + b, begin, from, to)
    ensures Still(db, a, begin, from, to) && Still(db, b, begin, from, to)
  {
    hide Seen, Changes;
    forall k | 0 <= k < |a| ensures (a + b)[k] == a[k] {
    }
    forall k | 0 <= k < |b| ensures (a + b)[|a|+k] == b[k] {
    }
  }

  lemma StillLeaf(db: Db, d: Descriptor, begin: int, from: int, to: int)
    requires Still(db, [d], begin, from, to)
    ensures Seen(db, d, begin)
    ensures var events := TraceOf(db, d.v); forall j :: 0 <= j < |events| ==> !(from < events[j].time <= to)
  {
    hide Seen, TraceOf;
    assert [d][0] == d;
    var events := TraceOf(db, d.v);
    forall j | 0 <= j < |events| ensures !(from < events[j].time <= to) {
      assert Changes(db, d, events[j].time);
    }
  }

  lemma SameSeek(db: Db, d: Descriptor, begin: int, from: int, to: int)
    requires Recordings(db) && 0 <= begin <= from <= to && Still(db, [d], begin, from, to)
    ensures
      var events := TraceOf(db, d.v);
      SeekIndex(db.file, events, Tag(Min(from, db.file.maxTime))) == SeekIndex(db.file, events, Tag(Min(to, db.file.maxTime)))
  {
    hide LastAtOrBefore, Still, TraceOf, Recordings, Seen, Changes;
    var events := TraceOf(db, d.v);
    StillLeaf(db, d, begin, from, to);
    SeekFindsSeen(db, d, begin);
    SeekBegin(db.file, LeafOf(db, d), from);
    SeekBegin(db.file, LeafOf(db, d), to);
    LastIs(events, to, LastAtOrBefore(events, from));
  }

  lemma SameLeafText(db: Db, d: Descriptor, begin: int, from: int, to: int, radix: Radix)
    requires Recordings(db) && 0 <= begin <= from <= to && Still(db, [d], begin, from, to)
    ensures LeafText(db, d, from, radix) == LeafText(db, d, to, radix)
  {
    hide Shown, SeekIndex, Still, TraceOf, Recordings;
    SameSeek(db, d, begin, from, to);
  }

  lemma SameSimpleText(db: Db, path: string, begin: int, from: int, to: int, radix: Radix)
    requires Consistent(db) && Recordings(db) && 0 <= begin <= from <= to
    requires Still(db, SimpleLeaf(db, path), begin, from, to)
    ensures SimpleText(db, path, from, radix) == SimpleText(db, path, to, radix)
  {
    hide Lookup, LeafText, Still, Recordings;
    if Lookup(db, path).Ok? {
      SameLeafText(db, Lookup(db, path).value, begin, from, to, radix);
    }
  }

  lemma {:induction false} SameWholeText(db: Db, path: string, begin: int, from: int, to: int, radix: Radix)
    requires Consistent(db) && IsComposite(db, path) && Grounded(db, path)
    requires Recordings(db) && 0 <= begin <= from <= to && Still(db, LeavesOf(db, path), begin, from, to)
    ensures WholeText(db, path, from, radix) == WholeText(db, path, to, radix)
    ensures BitsOf(db, path, from) == BitsOf(db, path, to)
    decreases Room(db, path), 1
  {
    hide PartsOf, PartTexts, PartBits, LeavesIn, Still, Grounded, Recordings;
    SamePartTexts(db, path, PartsOf(db, path), begin, from, to, radix);
  }

  lemma {:induction false} SamePartTexts(db: Db, path: string, parts: seq<string>, begin: int, from: int, to: int, radix: Radix)
    requires Consistent(db) && IsComposite(db, path) && Grounded(db, path)
    requires forall p :: p in parts ==> p in PartsOf(db, path)
    requires Recordings(db) && 0 <= begin <= from <= to && Still(db, LeavesIn(db, path, parts), begin, from, to)
    ensures PartTexts(db, path, parts, from, radix) == PartTexts(db, path, parts, to, radix)
    ensures PartBits(db, path, parts, from) == PartBits(db, path, parts, to)
    decreases Room(db, path), 0, |parts|
  {
    hide PartsOf, WholeText, BitsOf, SimpleText, LeavesOf, SimpleLeaf, Still, Grounded, Recordings;
    if parts != [] {
      var n := |parts| - 1;
      var part := parts[n];
      GroundedPart(db, path, part);
      var here := if IsComposite(db, part) then LeavesOf(db, part) else SimpleLeaf(db, part);
      StillConcat(db, LeavesIn(db, path, parts[..n]), here, begin, from, to);
      SamePartTexts(db, path, parts[..n], begin, from, to, radix);
      if IsComposite(db, part) {
        SameWholeText(db, part, begin, from, to, radix);
      } else {
        SameSimpleText(db, part, begin, from, to, radix);
        SameSimpleText(db, part, begin, from, to, Bin);
      }
    }
  }

  /** All the signals a composite path reads. */
  ghost function LeavesBehind(db: Db, path: string): seq<Descriptor>
    requires Consistent(db) && Answerable(db, path)
  {
    BehindIsComposite(db, path);
    match CompositeBehind(db, path)
    case None => []
    case Some(base) => LeavesOf(db, base)
  }

  /** A composite path reads the same while nothing changes. */
  lemma SamePathText(db: Db, path: string, begin: int, from: int, to: int, radix: Radix)
    requires Consistent(db) && Answerable(db, path) && CompositeBehind(db, path).Some?
    requires Recordings(db) && 0 <= begin <= from <= to && Still(db, LeavesBehind(db, path), begin, from, to)
    ensures PathText(db, path, from, radix) == PathText(db, path, to, radix)
  {
    hide PartsOf, WholeText, BitsOf, LeavesOf, Still, Recordings, Lookup, Projected, Converted, Grounded;
    BehindIsComposite(db, path);
    SourceKnown(db, path);
    SameWholeText(db, CompositeBehind(db, path).value, begin, from, to, radix);
  }

  /** What can be read at a time is found by seeking to that time. */
  lemma {:induction false} ReadIsSeen(db: Db, path: string, t: int, radix: Radix)
    requires Consistent(db) && IsComposite(db, path) && Grounded(db, path) && Recordings(db) && 0 <= t
    requires WholeText(db, path, t, radix).Ok? || BitsOf(db, path, t).Ok?
    ensures forall k :: 0 <= k < |LeavesOf(db, path)| ==> Seen(db, LeavesOf(db, path)[k], t)
    decreases Room(db, path), 1
  {
    hide PartsOf, PartTexts, PartBits, LeavesIn, Grounded, Recordings, Seen;
    PartsReadAreSeen(db, path, PartsOf(db, path), t, radix);
  }

  lemma {:induction false} PartsReadAreSeen(db: Db, path: string, parts: seq<string>, t: int, radix: Radix)
    requires Consistent(db) && IsComposite(db, path) && Grounded(db, path) && Recordings(db) && 0 <= t
    requires forall p :: p in parts ==> p in PartsOf(db, path)
    requires PartTexts(db, path, parts, t, radix).Ok? || PartBits(db, path, parts, t).Ok?
    ensures forall k :: 0 <= k < |LeavesIn(db, path, parts)| ==> Seen(db, LeavesIn(db, path, parts)[k], t)
    decreases Room(db, path), 0, |parts|
  {
    hide PartsOf, WholeText, BitsOf, SimpleText, LeavesOf, SimpleLeaf, Grounded, Recordings, Seen;
    if parts != [] {
      var n := |parts| - 1;
      var part := parts[n];
      GroundedPart(db, path, part);
      PartsReadAreSeen(db, path, parts[..n], t, radix);
      if IsComposite(db, part) {
        ReadIsSeen(db, part, t, radix);
      } else {
        LeafReadIsSeen(db, part, t, radix);
        LeafReadIsSeen(db, part, t, Bin);
      }
    }
  }

  lemma LeafReadIsSeen(db: Db, path: string, t: int, radix: Radix)
    requires Consistent(db) && Recordings(db) && 0 <= t
    ensures SimpleText(db, path, t, radix).Ok? ==>
      forall k :: 0 <= k < |SimpleLeaf(db, path)| ==> Seen(db, SimpleLeaf(db, path)[k], t)
  {
    hide Lookup, Shown, Seen;
    if Lookup(db, path).Ok? {
      SeekFindsSeen(db, Lookup(db, path).value, t);
    }
  }

  // ------------------------------------------------------------------- lossless

  predicate StrictlyIncreasing(changes: seq<Value>) {
    forall j, k :: 0 <= j < k < |changes| ==> changes[j].time < changes[k].time
  }

  /** The list takes its times from the given ones, in order, and never repeats a value. */
  predicate ListedFrom(c: seq<Value>, times: seq<int>, last: Option<string>) {
    && StrictlyIncreasing(c) && StutterFree(c)
    && (c != [] ==> last != Some(c[0].text))
    && (forall k :: 0 <= k < |c| ==> c[k].time in times)
  }

  lemma {:induction false} ListShape(db: Db, path: string, radix: Radix, times: seq<int>, last: Option<string>)
    requires Consistent(db) && Answerable(db, path) && Ascending(times) && ListAt(db, path, radix, times, last).Ok?
    ensures ListedFrom(ListAt(db, path, radix, times, last).value, times, last)
    decreases |times|
  {
    hide PathText, Answerable, ListAt, ListedFrom, Ascending;
    if times == [] {
      NothingListed(db, path, radix, last);
      ListedNone(last);
    } else {
      assert times[0..] == times;
      ListStep(db, path, radix, times, 0, last);
      var text := PathText(db, path, times[0], radix).value;
      TailAscending(times);
      ListShape(db, path, radix, times[1..], Some(text));
      ListedMore(ListAt(db, path, radix, times[1..], Some(text)).value, times, last, text);
    }
  }

  lemma TailAscending(times: seq<int>)
    requires Ascending(times) && times != []
    ensures Ascending(times[1..])
  {
  }

  lemma ListedNone(last: Option<string>)
    ensures ListedFrom([], [], last)
  {
  }

  lemma ListedMore(more: seq<Value>, times: seq<int>, last: Option<string>, text: string)
    requires times != [] && Ascending(times) && ListedFrom(more, times[1..], Some(text))
    ensures last == Some(text) ==> ListedFrom(more, times, last)
    ensures last != Some(text) ==> ListedFrom([Value(times[0], text)] + more, times, last)
  {
    var c := [Value(times[0], text)] + more;
    forall k | 0 <= k < |more| ensures more[k].time in times && times[0] < more[k].time {
      var j :| 0 <= j < |times[1..]| && times[1..][j] == more[k].time;
      assert times[j+1] == more[k].time;
    }
    assert forall k :: 0 < k < |c| ==> c[k] == more[k-1];
  }

  /** At any time the last listed value is the one read at the last of the times so far. */
  lemma {:induction false} ListReads(db: Db, path: string, radix: Radix, times: seq<int>, last: string, t: int, k: nat)
    requires Consistent(db) && Answerable(db, path) && Ascending(times) && ListAt(db, path, radix, times, Some(last)).Ok?
    requires k <= |times| && (k > 0 ==> times[k-1] <= t) && (k < |times| ==> times[k] > t)
    ensures var text := TextAt(ListAt(db, path, radix, times, Some(last)).value, last, t);
      if k == 0 then text == last else PathText(db, path, times[k-1], radix) == Ok(text)
    decreases |times|
  {
    hide PathText, Answerable, TextAt, ListAt;
    if k == 0 {
      ListShape(db, path, radix, times, Some(last));
      TextAtBefore(ListAt(db, path, radix, times, Some(last)).value, last, t);
    } else {
      assert times[0..] == times;
      ListStep(db, path, radix, times, 0, Some(last));
      var text := PathText(db, path, times[0], radix).value;
      assert times[0] <= times[k-1];
      ListReads(db, path, radix, times[1..], text, t, k - 1);
      if text != last {
        TextAtPrepend(Value(times[0], text), ListAt(db, path, radix, times[1..], Some(text)).value, last, t);
      }
    }
  }

  /** How many of the times are at or before t. */
  function CountUpTo(times: seq<int>, t: int): (k: nat)
    requires Ascending(times)
    ensures k <= |times| && (k > 0 ==> times[k-1] <= t) && (k < |times| ==> times[k] > t)
    ensures forall j :: 0 <= j < |times| ==> (times[j] <= t <==> j < k)
  {
    if times == [] then 0
    else if times[|times|-1] <= t then |times|
    else CountUpTo(times[..|times|-1], t)
  }

  // ------------------------------------------------------------------- lossless

  lemma PathReadIsSeen(db: Db, path: string, t: int, radix: Radix)
    requires Consistent(db) && Answerable(db, path) && CompositeBehind(db, path).Some?
    requires Recordings(db) && 0 <= t && PathText(db, path, t, radix).Ok?
    ensures forall k :: 0 <= k < |LeavesBehind(db, path)| ==> Seen(db, LeavesBehind(db, path)[k], t)
  {
    hide PartsOf, WholeText, BitsOf, LeavesOf, Recordings, Lookup, Projected, Converted, Grounded, Seen;
    BehindIsComposite(db, path);
    SourceKnown(db, path);
    ReadIsSeen(db, CompositeBehind(db, path).value, t, radix);
  }

  /** Behind the last of the collected times no signal changes. */
  lemma StillBehind(db: Db, leaves: seq<Descriptor>, begin: int, end: int, collected: seq<int>, from: int, to: int)
    requires AreTheTimes(db, leaves, begin, end, [], collected) && begin <= from <= to <= end
    requires forall k :: 0 <= k < |leaves| ==> Seen(db, leaves[k], begin)
    requires forall x :: x in collected ==> !(from < x <= to)
    ensures Still(db, leaves, begin, from, to)
  {
    hide Seen, Changes;
    forall k, x | 0 <= k < |leaves| && from < x <= to ensures !Changes(db, leaves[k], x) {
      assert x !in collected;
      assert !SeenChange(db, leaves, begin, x);
    }
  }

  /**
   The range of a composite signal is lossless: whenever the query succeeds, its times
   strictly increase and neighbours differ; if it lists anything it begins at begin, and at
   every time of the range the point query shows exactly what the last change at or before it
   shows. It lists nothing exactly when no signal that seeking to begin finds has a change
   in the range; if it lists anything, seeking finds all of them.
   */
  lemma CompositeRangeIsLossless(db: Db, path: string, begin: int, end: int, radix: Radix)
    requires Consistent(db) && CompositeBehind(db, path).Some?
    requires Recordings(db) && 0 <= begin <= end && CompositeRangeSpec(db, path, begin, end, radix).Ok?
    ensures Answerable(db, path)
    ensures
      var all := CompositeRangeSpec(db, path, begin, end, radix).value;
      var leaves := LeavesBehind(db, path);
      && StrictlyIncreasing(all) && StutterFree(all)
      && (all == [] <==> forall x :: begin <= x <= end ==> !SeenChange(db, leaves, begin, x))
      && (all != [] ==> all[0].time == begin && all[|all|-1].time <= end)
      && (all != [] ==> forall k :: 0 <= k < |leaves| ==> Seen(db, leaves[k], begin))
      && forall k: nat, t :: begin <= t <= end && InForce(all, k, t) ==>
           PathText(db, path, t, radix) == Ok(all[k].text)
  {
    hide PartsOf, PathText, TimesOf, Recordings, InsertTime, ListAt, Answerable, CompositeBehind, LeavesOf, AreTheTimes, SeenChange, Seen, Grounded;
    CollectedIsAnswerable(db, path, begin, end);
    BehindTimes(db, path, begin, end);
    var leaves := LeavesBehind(db, path);
    var collected := TimesBehind(db, path, begin, end).value;
    NonemptyWhenChanged(db, leaves, begin, end, collected);
    if collected != [] {
      var times := InsertTime(collected, begin);
      var all := ListAt(db, path, radix, times, None).value;
      InRange(db, leaves, begin, end, collected);
      InsertTimeIs(collected, begin);
      BeginsAt(times, begin, end);
      ListBegins(db, path, radix, times);
      assert times[0..] == times;
      ListStep(db, path, radix, times, 0, None);
      PathReadIsSeen(db, path, begin, radix);
      forall k: nat, t | begin <= t <= end && InForce(all, k, t)
        ensures PathText(db, path, t, radix) == Ok(all[k].text)
      {
        ListIsLossless(db, path, begin, end, radix, collected, k, t);
      }
    }
  }

  lemma BehindTimes(db: Db, path: string, begin: int, end: int)
    requires Consistent(db) && CompositeBehind(db, path).Some?
    requires Recordings(db) && 0 <= begin && TimesBehind(db, path, begin, end).Ok?
    ensures Answerable(db, path)
    ensures AreTheTimes(db, LeavesBehind(db, path), begin, end, [], TimesBehind(db, path, begin, end).value)
  {
    hide PartsOf, TimesOf, Recordings, CompositeBehind, LeavesOf, AreTheTimes, Grounded;
    BehindIsComposite(db, path);
    CollectedIsAnswerable(db, path, begin, end);
    TimesAre(db, CompositeBehind(db, path).value, begin, end, []);
  }

  lemma NonemptyWhenChanged(db: Db, leaves: seq<Descriptor>, begin: int, end: int, collected: seq<int>)
    requires AreTheTimes(db, leaves, begin, end, [], collected)
    ensures collected == [] <==> forall x :: begin <= x <= end ==> !SeenChange(db, leaves, begin, x)
  {
    hide SeenChange;
    if collected != [] {
      assert collected[0] in collected;
    }
  }

  lemma InRange(db: Db, leaves: seq<Descriptor>, begin: int, end: int, collected: seq<int>)
    requires AreTheTimes(db, leaves, begin, end, [], collected)
    ensures Ascending(collected) && forall x :: x in collected ==> begin <= x <= end
  {
    hide SeenChange;
  }

  /** The values listed at the collected times and at begin. */
  lemma ListIsLossless(db: Db, path: string, begin: int, end: int, radix: Radix, collected: seq<int>, k: nat, t: int)
    requires Consistent(db) && Answerable(db, path) && CompositeBehind(db, path).Some?
    requires Recordings(db) && 0 <= begin <= t <= end
    requires AreTheTimes(db, LeavesBehind(db, path), begin, end, [], collected)
    requires ListAt(db, path, radix, InsertTime(collected, begin), None).Ok?
    requires InForce(ListAt(db, path, radix, InsertTime(collected, begin), None).value, k, t)
    ensures PathText(db, path, t, radix) == Ok(ListAt(db, path, radix, InsertTime(collected, begin), None).value[k].text)
  {
    hide PathText, Recordings, ListAt, TextAt, InsertTime, Answerable, CompositeBehind, LeavesBehind, AreTheTimes, Still, Seen;
    var times := InsertTime(collected, begin);
    InRange(db, LeavesBehind(db, path), begin, end, collected);
    InsertTimeIs(collected, begin);
    BeginsAt(times, begin, end);
    assert times[0..] == times;
    ListStep(db, path, radix, times, 0, None);
    var first := PathText(db, path, begin, radix).value;
    var more := ListAt(db, path, radix, times[1..], Some(first)).value;
    var n := CountUpTo(times, t);
    PathReadIsSeen(db, path, begin, radix);
    StillBehind(db, LeavesBehind(db, path), begin, end, collected, times[n-1], t);
    SamePathText(db, path, begin, times[n-1], t, radix);
    ListReads(db, path, radix, times[1..], first, t, n - 1);
    TextAtPrepend(Value(begin, first), more, first, t);
    TextAtInForce(ListAt(db, path, radix, times, None).value, first, k, t);
  }

  lemma ListBegins(db: Db, path: string, radix: Radix, times: seq<int>)
    requires Consistent(db) && Answerable(db, path) && Ascending(times) && times != [] && ListAt(db, path, radix, times, None).Ok?
    ensures var all := ListAt(db, path, radix, times, None).value;
      && StrictlyIncreasing(all) && StutterFree(all)
      && all != [] && all[0].time == times[0] && all[|all|-1].time <= times[|times|-1]
  {
    hide PathText, Answerable, ListAt;
    ListShape(db, path, radix, times, None);
    assert times[0..] == times;
    ListStep(db, path, radix, times, 0, None);
    var all := ListAt(db, path, radix, times, None).value;
    assert all[|all|-1].time in times;
  }

  lemma BeginsAt(times: seq<int>, begin: int, end: int)
    requires Ascending(times) && begin in times && forall x :: x in times ==> begin <= x <= end
    ensures times[0] == begin && forall i :: 0 <= i < |times| ==> begin <= times[i] <= end
  {
    forall i | 0 <= i < |times| ensures begin <= times[i] <= end {
      assert times[i] in times;
    }
  }

  /** When every signal has a change by begin, the range is empty exactly when none changes in it. */
  lemma EmptyIffNothingChanges(db: Db, path: string, begin: int, end: int, radix: Radix)
    requires Consistent(db) && Answerable(db, path) && CompositeBehind(db, path).Some?
    requires Recordings(db) && 0 <= begin <= end && CompositeRangeSpec(db, path, begin, end, radix).Ok?
    requires forall k :: 0 <= k < |LeavesBehind(db, path)| ==> HasChangeBy(LeafOf(db, LeavesBehind(db, path)[k]), begin)
    ensures CompositeRangeSpec(db, path, begin, end, radix).value == [] <==>
      forall k, x :: 0 <= k < |LeavesBehind(db, path)| && begin <= x <= end ==> !Changes(db, LeavesBehind(db, path)[k], x)
  {
    hide CompositeRangeSpec, LeavesBehind, Answerable, CompositeBehind, Recordings, Changes, TraceOf;
    CompositeRangeIsLossless(db, path, begin, end, radix);
    var leaves := LeavesBehind(db, path);
    assert forall k :: 0 <= k < |leaves| ==> Seen(db, leaves[k], begin);
    if forall x :: begin <= x <= end ==> !SeenChange(db, leaves, begin, x) {
      forall k, x | 0 <= k < |leaves| && begin <= x <= end ensures !Changes(db, leaves[k], x) {
        assert !SeenChange(db, leaves, begin, x);
      }
    }
  }

  // ------------------------------------------------- a change that is not listed

  /** A structure s with the one part s.a, which changes for the first time at 5. */
  function LateStruct(): Db {
    Db(map["s" := Var(0, 0, 0, false, 0, 0, false), "s.a" := Var(1, 0, 0, false, 0, 0, true)],
       ["s", "s.a"], map["s" := ["s.a"]], map[1 := [Event(5, "1")]], File(0, 10, false))
  }

  lemma LateParts()
    ensures Consistent(LateStruct()) && PartsOf(LateStruct(), "s") == ["s.a"]
  {
    hide PartNamedBy;
    var db := LateStruct();
    DottedPart("s", "a", "");
    assert "s" + "." + "a" + "" == "s.a" && "s" + "." + "a" == "s.a";
    NoLongerNoPart("s", "s");
    assert forall v :: IsPart(db, "s", v) <==> v == "s.a";
    OnlyPart(db, "s", "s.a");
  }

  lemma LateAnswerable()
    ensures var db := LateStruct();
      && Consistent(db) && IsComposite(db, "s") && Grounded(db, "s")
      && Answerable(db, "s") && CompositeBehind(db, "s") == Some("s")
      && Lookup(db, "s.a") == Ok(Whole(Var(1, 0, 0, false, 0, 0, true)))
  {
    hide PartsOf, Room;
    LateParts();
    SourceKnown(LateStruct(), "s");
    SourceKnown(LateStruct(), "s.a");
  }

  lemma LateTimes()
    ensures var db := LateStruct();
      Consistent(db) && IsComposite(db, "s") && Grounded(db, "s") && TimesOf(db, "s", 0, 10, []) == Ok([])
  {
    hide PartsOf, Room, Lookup, Grounded, CompositeBehind, Answerable, LastAtOrBefore;
    var db := LateStruct();
    LateParts();
    LateAnswerable();
    var events := [Event(5, "1")];
    assert TraceOf(db, Var(1, 0, 0, false, 0, 0, true)) == events;
    LastIs(events, 0, -1);
    NoPartTimes(db, "s", 0, 10, []);
    PartTimesStep(db, "s", ["s.a"], 0, 0, 10, []);
    assert ["s.a"][..1] == ["s.a"] && ["s.a"][..0] == [];
  }

  /**
   With a reader that does not find a signal before its first change, a change in the range
   goes missing: the list is empty, although the point query shows the new value.
   */
  lemma LateChangeIsMissed()
    ensures var db := LateStruct();
      && Consistent(db) && Answerable(db, "s") && Recordings(db)
      && CompositeRangeSpec(db, "s", 0, 10, Bin) == Ok([])
      && PathText(db, "s", 5, Bin) == Ok("{1}")
  {
    hide PartsOf, Room, Lookup, Grounded, CompositeBehind, LastAtOrBefore;
    var db := LateStruct();
    LateParts();
    LateAnswerable();
    var events := [Event(5, "1")];
    var d := Whole(Var(1, 0, 0, false, 0, 0, true));
    assert TraceOf(db, d.v) == events && Sorted(events);
    LastIs(events, 5, 0);
    LateTimes();
    WholeStep(db, "s", 5, Bin);
    NoPartTexts(db, "s", 5, Bin);
    PartTextsStep(db, "s", ["s.a"], 0, 5, Bin);
    assert "" + "" + "1" == "1" && "{" + "1" + "}" == "{1}";
  }
}
