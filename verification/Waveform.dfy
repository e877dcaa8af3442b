/**
 Queries on one signal: its value at a time, its changes in a range, their number, and the
 search for edges, all on top of a cursor that only moves one value change at a time.
 */
module Waveform {
  import opened CText
  import opened Radix

  /** A value change. Several changes may share a time; the last of them counts. */
  datatype Event = Event(time: nat, bits: string)

  datatype Value = Value(time: int, text: string)

  datatype Fault = SignalNotFound | ReadFailed | UnsupportedType

  datatype Result<+T> = Ok(value: T) | Err(fault: Fault)

  predicate Sorted(events: seq<Event>) {
    forall i, j :: 0 <= i < j < |events| ==> events[i].time <= events[j].time
  }

  /** A readable signal: its value changes, and the bit select when only part is asked for. */
  datatype Leaf = Leaf(events: seq<Event>, select: Option<Select>)

  /** The file: its last time, and whether seeking before the first change lands on it. */
  datatype File = File(minTime: nat, maxTime: nat, lenient: bool)

  predicate Recorded(file: File, leaf: Leaf) {
    Sorted(leaf.events) && forall i :: 0 <= i < |leaf.events| ==> leaf.events[i].time <= file.maxTime
  }

  const TWO64: int := 0x1_0000_0000_0000_0000

  /** A 64-bit time as the unsigned tag the reader takes. */
  function Tag(t: int): int {
    if t < 0 then t + TWO64 else t
  }

  function Min(a: int, b: int): int {
    if a <= b then a else b
  }

  // --------------------------------------------------------------------- seeking

  /** The index of the last change at or before t, or -1. */
  function LastAtOrBefore(events: seq<Event>, t: int): (i: int)
    ensures -1 <= i < |events|
    ensures i >= 0 ==> events[i].time <= t
    ensures forall j :: i < j < |events| ==> events[j].time > t
  {
    if events == [] then -1
    else if events[|events|-1].time <= t then |events| - 1
    else LastAtOrBefore(events[..|events|-1], t)
  }

  lemma LastIs(events: seq<Event>, t: int, i: int)
    requires Sorted(events) && -1 <= i < |events|
    requires i >= 0 ==> events[i].time <= t
    requires i + 1 < |events| ==> events[i+1].time > t
    ensures LastAtOrBefore(events, t) == i
  {
    var k := LastAtOrBefore(events, t);
    assert k >= 0 ==> events[k].time <= t;
  }

  function SeekIndex(file: File, events: seq<Event>, tag: int): Option<nat> {
    var i := LastAtOrBefore(events, tag);
    if i >= 0 then Some(i)
    else if file.lenient && events != [] then Some(0)
    else None
  }

  /** The reader's cursor over the value changes of one signal. */
  class Cursor {
    const file: File
    const events: seq<Event>
    var pos: nat

    constructor (file: File, events: seq<Event>)
      ensures this.file == file && this.events == events && pos == 0
    {
      this.file, this.events, pos := file, events, 0;
    }

    predicate OnEvent()
      reads this
    {
      pos < |events|
    }

    method First() returns (ok: bool)
      modifies this
      ensures ok == (events != []) && pos == 0
    {
      pos := 0;
      ok := events != [];
    }

    method Next() returns (ok: bool)
      requires OnEvent()
      modifies this
      ensures OnEvent()
      ensures ok == (old(pos) + 1 < |events|) && pos == if ok then old(pos) + 1 else old(pos)
    {
      ok := pos + 1 < |events|;
      if ok { pos := pos + 1; }
    }

    method Prev() returns (ok: bool)
      requires OnEvent()
      modifies this
      ensures OnEvent()
      ensures ok == (old(pos) > 0) && pos == if ok then old(pos) - 1 else old(pos)
    {
      ok := pos > 0;
      if ok { pos := pos - 1; }
    }

    method Seek(tag: int) returns (ok: bool)
      modifies this
      ensures var i := SeekIndex(file, events, tag);
        ok == i.Some? && (ok ==> OnEvent() && pos == i.value)
    {
      var i := SeekIndex(file, events, tag);
      ok := i.Some?;
      if ok { pos := i.value; }
    }
  }

  // ---------------------------------------------------------------------- values

  /** What the i-th change shows of the signal, converted. */
  function Shown(leaf: Leaf, i: nat, radix: Radix): Result<string>
    requires i < |leaf.events|
  {
    var bits := leaf.events[i].bits;
    if leaf.select.None? then Ok(Converted(bits, radix)) else
    var part := Projected(leaf.select.value, bits);
    if part.None? then Err(SignalNotFound) else Ok(Converted(part.value, radix))
  }

  method Current(leaf: Leaf, c: Cursor, radix: Radix) returns (r: Result<Value>)
    requires c.OnEvent() && c.events == leaf.events
    ensures r == match Shown(leaf, c.pos, radix)
      case Ok(text) => Ok(Value(leaf.events[c.pos].time, text))
      case Err(f) => Err(f)
  {
    hide Converted, Projected;
    var bits := c.events[c.pos].bits;
    if leaf.select.Some? {
      var part := ProjectSlice(leaf.select.value, bits);
      if part.None? {
        return Err(SignalNotFound);
      }
      bits := part.value;
    }
    var text := Convert(bits, radix);
    return Ok(Value(c.events[c.pos].time, text));
  }

  /** The value in force at time t. */
  function PointSpec(file: File, leaf: Leaf, t: int, radix: Radix): Result<string> {
    var i := SeekIndex(file, leaf.events, Tag(Min(t, file.maxTime)));
    if i.None? then Err(ReadFailed) else Shown(leaf, i.value, radix)
  }

  method Point(file: File, leaf: Leaf, t: int, radix: Radix) returns (r: Result<Value>)
    ensures r == match PointSpec(file, leaf, t, radix)
      case Ok(text) => Ok(Value(t, text))
      case Err(f) => Err(f)
  {
    hide Shown;
    var c := new Cursor(file, leaf.events);
    var ok := c.Seek(Tag(Min(t, file.maxTime)));
    if !ok {
      return Err(ReadFailed);
    }
    var v := Current(leaf, c, radix);
    match v
    case Err(f) => return Err(f);
    case Ok(value) => return Ok(value.(time := t));
  }

  // ---------------------------------------------------------------------- ranges

  datatype Range = Range(changes: seq<Value>, total: nat)

  /** The changes from the i-th on up to the end, given the text shown last. */
  function ChangesFrom(leaf: Leaf, radix: Radix, i: nat, end: int, last: string): Result<seq<Value>>
    decreases |leaf.events| - i
  {
    if i >= |leaf.events| then Ok([]) else
    match Shown(leaf, i, radix)
    case Err(f) => Err(f)
    case Ok(text) =>
      if leaf.events[i].time > end then Ok([])
      else if leaf.select.Some? && text == last then ChangesFrom(leaf, radix, i + 1, end, last)
      else match ChangesFrom(leaf, radix, i + 1, end, text)
           case Err(f) => Err(f)
           case Ok(more) => Ok([Value(leaf.events[i].time, text)] + more)
  }

  /** All changes in the range, the value at its beginning first. */
  function RangeSpec(file: File, leaf: Leaf, begin: int, end: int, radix: Radix): Result<seq<Value>> {
    var i := SeekIndex(file, leaf.events, Tag(Min(begin, file.maxTime)));
    if i.None? then Ok([]) else
    match Shown(leaf, i.value, radix)
    case Err(f) => Err(f)
    case Ok(text) =>
      if leaf.events[i.value].time > begin || leaf.events[i.value].time > end then Ok([]) else
      match ChangesFrom(leaf, radix, i.value + 1, end, text)
      case Err(f) => Err(f)
      case Ok(more) => Ok([Value(begin, text)] + more)
  }

  function Limited(all: seq<Value>, limit: nat): Range {
    Range(if |all| <= limit then all else all[..limit], |all|)
  }

  method RangeQuery(file: File, leaf: Leaf, begin: int, end: int, radix: Radix, limit: nat) returns (r: Result<Range>)
    ensures r == match RangeSpec(file, leaf, begin, end, radix)
      case Ok(all) => Ok(Limited(all, limit))
      case Err(f) => Err(f)
  {
    hide Shown, ChangesFrom, Projected, Converted;
    var c := new Cursor(file, leaf.events);
    var ok := c.Seek(Tag(Min(begin, file.maxTime)));
    if !ok {
      return Ok(Range([], 0));
    }
    var current := Current(leaf, c, radix);
    if current.Err? {
      return Err(current.fault);
    }
    var v := current.value;
    if v.time > begin || v.time > end {
      return Ok(Range([], 0));
    }
    v := v.(time := begin);
    r := ChangesBehind(leaf, c, v, end, radix, limit);
  }

  /** The loop over the changes behind the first value, which is listed already. */
  method ChangesBehind(leaf: Leaf, c: Cursor, first: Value, end: int, radix: Radix, limit: nat) returns (r: Result<Range>)
    requires c.OnEvent() && c.events == leaf.events
    modifies c
    ensures r == match ChangesFrom(leaf, radix, old(c.pos) + 1, end, first.text)
      case Ok(more) => Ok(Limited([first] + more, limit))
      case Err(f) => Err(f)
  {
    hide Shown, ChangesFrom, Projected, Converted;
    var total, changes := 1, if limit > 0 then [first] else [];
    var last := first.text;
    ghost var all := ChangesFrom(leaf, radix, c.pos + 1, end, last);
    ghost var seen := [first];
    while true
      invariant c.OnEvent()
      invariant Range(changes, total) == Limited(seen, limit)
      invariant match ChangesFrom(leaf, radix, c.pos + 1, end, last)
        case Err(f) => all == Err(f)
        case Ok(more) => all.Ok? && [first] + all.value == seen + more
      decreases |leaf.events| - c.pos
    {
      ChangesStep(leaf, radix, c.pos + 1, end, last);
      var more := c.Next();
      if !more {
        break;
      }
      var current := Current(leaf, c, radix);
      if current.Err? {
        return Err(current.fault);
      }
      var u := current.value;
      if u.time > end {
        break;
      }
      if leaf.select.Some? && u.text == last {
        continue;
      }
      last := u.text;
      total := total + 1;
      if |changes| < limit {
        changes := changes + [u];
      }
      AppendChange(seen, u, ChangesFrom(leaf, radix, c.pos + 1, end, last));
      seen := seen + [u];
    }
    assert seen + [] == seen;
    return Ok(Range(changes, total));
  }

  lemma AppendChange(seen: seq<Value>, u: Value, rest: Result<seq<Value>>)
    ensures rest.Ok? ==> seen + ([u] + rest.value) == seen + [u] + rest.value
  {
  }

  lemma ChangesStep(leaf: Leaf, radix: Radix, i: nat, end: int, last: string)
    ensures ChangesFrom(leaf, radix, i, end, last) ==
      if i >= |leaf.events| then Ok([]) else
      match Shown(leaf, i, radix)
      case Err(f) => Err(f)
      case Ok(text) =>
        if leaf.events[i].time > end then Ok([])
        else if leaf.select.Some? && text == last then ChangesFrom(leaf, radix, i + 1, end, last)
        else match ChangesFrom(leaf, radix, i + 1, end, text)
             case Err(f) => Err(f)
             case Ok(more) => Ok([Value(leaf.events[i].time, text)] + more)
  {
    hide Shown;
  }

  // ------------------------------------------------- what a range says of the signal

  predicate Increasing(changes: seq<Value>) {
    forall j, k :: 0 <= j < k < |changes| ==> changes[j].time <= changes[k].time
  }

  predicate StutterFree(changes: seq<Value>) {
    forall k :: 0 <= k < |changes| - 1 ==> changes[k].text != changes[k+1].text
  }

  /** The k-th change is the last one at or before t. */
  predicate InForce(changes: seq<Value>, k: nat, t: int) {
    k < |changes| && changes[k].time <= t && forall j :: k < j < |changes| ==> changes[j].time > t
  }

  /** The text the last change at or before t shows, or the one before all of them. */
  function TextAt(changes: seq<Value>, last: string, t: int): string {
    if changes == [] then last
    else if changes[|changes|-1].time <= t then changes[|changes|-1].text
    else TextAt(changes[..|changes|-1], last, t)
  }

  lemma {:induction false} TextAtPrepend(v: Value, more: seq<Value>, last: string, t: int)
    requires v.time <= t
    ensures TextAt([v] + more, last, t) == TextAt(more, v.text, t)
    decreases |more|
  {
    if more == [] {
      assert [v] + more == [v];
    } else {
      assert ([v] + more)[..|more|] == [v] + more[..|more|-1];
      TextAtPrepend(v, more[..|more|-1], last, t);
    }
  }

  lemma {:induction false} TextAtBefore(changes: seq<Value>, last: string, t: int)
    requires forall k :: 0 <= k < |changes| ==> changes[k].time > t
    ensures TextAt(changes, last, t) == last
    decreases |changes|
  {
    if changes != [] {
      TextAtBefore(changes[..|changes|-1], last, t);
    }
  }

  lemma {:induction false} TextAtInForce(changes: seq<Value>, last: string, k: nat, t: int)
    requires InForce(changes, k, t)
    ensures TextAt(changes, last, t) == changes[k].text
    decreases |changes|
  {
    if changes[|changes|-1].time > t {
      TextAtInForce(changes[..|changes|-1], last, k, t);
    }
  }

  /** The changes from the i-th on lie between its time and the end, in order. */
  lemma {:induction false} ChangesShape(leaf: Leaf, radix: Radix, i: nat, end: int, last: string)
    requires Sorted(leaf.events) && ChangesFrom(leaf, radix, i, end, last).Ok?
    ensures
      var c := ChangesFrom(leaf, radix, i, end, last).value;
      && Increasing(c)
      && (forall k :: 0 <= k < |c| ==> i < |leaf.events| && leaf.events[i].time <= c[k].time <= end)
      && (leaf.select.Some? ==> StutterFree(c) && (c != [] ==> c[0].text != last))
    decreases |leaf.events| - i
  {
    hide Shown, ChangesFrom;
    ChangesStep(leaf, radix, i, end, last);
    if i < |leaf.events| && leaf.events[i].time <= end {
      var text := Shown(leaf, i, radix).value;
      ChangesShape(leaf, radix, i + 1, end, text);
      if i + 1 < |leaf.events| {
        assert leaf.events[i].time <= leaf.events[i+1].time;
      }
      if leaf.select.Some? && text == last {
      } else {
        var more := ChangesFrom(leaf, radix, i + 1, end, text).value;
        var c := [Value(leaf.events[i].time, text)] + more;
        assert forall k :: 0 < k < |c| ==> c[k] == more[k-1];
      }
    }
  }

  /** Nothing is lost: at any time the changes show what the signal shows then. */
  lemma {:induction false} ChangesLossless(leaf: Leaf, radix: Radix, i: nat, end: int, last: string, t: int)
    requires Sorted(leaf.events) && 0 < i <= |leaf.events|
    requires ChangesFrom(leaf, radix, i, end, last).Ok?
    requires Shown(leaf, i - 1, radix) == Ok(last) && leaf.events[i-1].time <= t <= end
    ensures
      var now := LastAtOrBefore(leaf.events, t);
      now >= 0 && Shown(leaf, now, radix) == Ok(TextAt(ChangesFrom(leaf, radix, i, end, last).value, last, t))
    decreases |leaf.events| - i
  {
    hide Shown, ChangesFrom;
    ChangesStep(leaf, radix, i, end, last);
    if i == |leaf.events| || leaf.events[i].time > end {
      LastIs(leaf.events, t, i - 1);
    } else {
      var text := Shown(leaf, i, radix).value;
      var more := ChangesFrom(leaf, radix, i + 1, end, text).value;
      if leaf.events[i].time <= t {
        ChangesLossless(leaf, radix, i + 1, end, text, t);
        TextAtPrepend(Value(leaf.events[i].time, text), more, last, t);
      } else {
        LastIs(leaf.events, t, i - 1);
        ChangesShape(leaf, radix, i, end, last);
        TextAtBefore(ChangesFrom(leaf, radix, i, end, last).value, last, t);
      }
    }
  }

  /** A range has something to list exactly when the signal has a change at or before its beginning. */
  predicate HasChangeBy(leaf: Leaf, t: int) {
    leaf.events != [] && leaf.events[0].time <= t
  }

  lemma SeekBegin(file: File, leaf: Leaf, begin: int)
    requires Recorded(file, leaf) && 0 <= begin
    ensures LastAtOrBefore(leaf.events, Tag(Min(begin, file.maxTime))) == LastAtOrBefore(leaf.events, begin)
    ensures HasChangeBy(leaf, begin) <==> LastAtOrBefore(leaf.events, begin) >= 0
  {
    var i := LastAtOrBefore(leaf.events, begin);
    LastIs(leaf.events, Min(begin, file.maxTime), i);
  }

  /**
   A range query is lossless: its changes run from the beginning to the end in order, and at
   every time in between the last change shows exactly what the point query shows. A bit
   select lists no two equal values in a row.
   */
  lemma RangeIsLossless(file: File, leaf: Leaf, begin: int, end: int, radix: Radix)
    requires Recorded(file, leaf) && 0 <= begin <= end
    requires RangeSpec(file, leaf, begin, end, radix).Ok?
    ensures
      var all := RangeSpec(file, leaf, begin, end, radix).value;
      && (all != [] <==> HasChangeBy(leaf, begin))
      && (all != [] ==> all[0].time == begin && Increasing(all) && all[|all|-1].time <= end)
      && (leaf.select.Some? ==> StutterFree(all))
      && forall k: nat, t :: begin <= t <= end && InForce(all, k, t) ==>
           PointSpec(file, leaf, t, radix) == Ok(all[k].text)
  {
    hide Shown, ChangesFrom, LastAtOrBefore;
    SeekBegin(file, leaf, begin);
    var all := RangeSpec(file, leaf, begin, end, radix).value;
    if HasChangeBy(leaf, begin) {
      var i := LastAtOrBefore(leaf.events, begin);
      var text := Shown(leaf, i, radix).value;
      var more := ChangesFrom(leaf, radix, i + 1, end, text).value;
      ChangesShape(leaf, radix, i + 1, end, text);
      assert all == [Value(begin, text)] + more;
      assert forall k :: 0 < k < |all| ==> all[k] == more[k-1];
      forall k: nat, t | begin <= t <= end && InForce(all, k, t)
        ensures PointSpec(file, leaf, t, radix) == Ok(all[k].text)
      {
        ChangesLossless(leaf, radix, i + 1, end, text, t);
        TextAtPrepend(Value(begin, text), more, text, t);
        TextAtInForce(all, text, k, t);
        SeekBegin(file, leaf, t);
      }
    }
  }

  /** At every time in the range some change is in force, and only one. */
  lemma {:induction false} SomeChangeInForce(all: seq<Value>, t: int) returns (k: nat)
    requires all != [] && all[0].time <= t && Increasing(all)
    ensures InForce(all, k, t) && forall j: nat :: InForce(all, j, t) ==> j == k
  {
    k := |all| - 1;
    while all[k].time > t
      invariant k < |all| && forall j :: k < j < |all| ==> all[j].time > t
      decreases k
    {
      k := k - 1;
    }
  }

  // ---------------------------------------------------------------------- counting

  /** The counting loop from the i-th change on, n counted so far, the last one showing last. */
  function CountFrom(leaf: Leaf, i: nat, begin: int, end: int, n: nat, last: string): Result<nat>
    decreases |leaf.events| - i
  {
    if i >= |leaf.events| || leaf.events[i].time > end then Ok(n)
    else if leaf.events[i].time < begin then CountFrom(leaf, i + 1, begin, end, n, last)
    else if leaf.select.None? then CountFrom(leaf, i + 1, begin, end, n + 1, last)
    else match Shown(leaf, i, Bin)
         case Err(f) => Err(f)
         case Ok(text) =>
           if n > 0 && text == last then CountFrom(leaf, i + 1, begin, end, n, last)
           else CountFrom(leaf, i + 1, begin, end, n + 1, text)
  }

  function CountSpec(file: File, leaf: Leaf, begin: int, end: int): Result<nat> {
    var i := SeekIndex(file, leaf.events, Tag(begin));
    if i.None? then Ok(0) else CountFrom(leaf, i.value, begin, end, 0, "")
  }

  method Count(file: File, leaf: Leaf, begin: int, end: int) returns (r: Result<nat>)
    ensures r == CountSpec(file, leaf, begin, end)
  {
    hide Shown, CountFrom, Projected, Converted;
    var c := new Cursor(file, leaf.events);
    var n := 0;
    var ok := c.Seek(Tag(begin));
    if !ok {
      return Ok(0);
    }
    var last := "";
    var moved := true;
    while moved
      invariant c.OnEvent()
      invariant CountSpec(file, leaf, begin, end)
        == CountFrom(leaf, if moved then c.pos else c.pos + 1, begin, end, n, last)
      invariant !moved ==> c.pos + 1 == |leaf.events|
      decreases moved, |leaf.events| - c.pos
    {
      CountStep(leaf, c.pos, begin, end, n, last);
      var time := c.events[c.pos].time;
      if time > end {
        return Ok(n);
      }
      if time >= begin {
        var counts := true;
        if leaf.select.Some? {
          var current := Current(leaf, c, Bin);
          if current.Err? {
            return Err(current.fault);
          }
          counts := !(n > 0 && current.value.text == last);
          if counts {
            last := current.value.text;
          }
        }
        if counts {
          n := n + 1;
        }
      }
      moved := c.Next();
    }
    CountStep(leaf, c.pos + 1, begin, end, n, last);
    return Ok(n);
  }

  lemma CountStep(leaf: Leaf, i: nat, begin: int, end: int, n: nat, last: string)
    ensures CountFrom(leaf, i, begin, end, n, last) ==
      if i >= |leaf.events| || leaf.events[i].time > end then Ok(n)
      else if leaf.events[i].time < begin then CountFrom(leaf, i + 1, begin, end, n, last)
      else if leaf.select.None? then CountFrom(leaf, i + 1, begin, end, n + 1, last)
      else match Shown(leaf, i, Bin)
           case Err(f) => Err(f)
           case Ok(text) =>
             if n > 0 && text == last then CountFrom(leaf, i + 1, begin, end, n, last)
             else CountFrom(leaf, i + 1, begin, end, n + 1, text)
  {
    hide Shown;
  }

  /** Inside the range, counting and listing agree on every further change. */
  lemma {:induction false} CountFollowsChanges(leaf: Leaf, i: nat, begin: int, end: int, n: nat, last: string, shown: string)
    requires Sorted(leaf.events) && n > 0
    requires i < |leaf.events| ==> leaf.events[i].time >= begin
    requires ChangesFrom(leaf, Bin, i, end, shown).Ok?
    requires leaf.select.Some? ==> last == shown
    ensures CountFrom(leaf, i, begin, end, n, last) == Ok(n + |ChangesFrom(leaf, Bin, i, end, shown).value|)
    decreases |leaf.events| - i
  {
    hide Shown, ChangesFrom, CountFrom;
    CountStep(leaf, i, begin, end, n, last);
    ChangesStep(leaf, Bin, i, end, shown);
    if i < |leaf.events| && leaf.events[i].time <= end {
      var text := Shown(leaf, i, Bin).value;
      if i + 1 < |leaf.events| {
        assert leaf.events[i].time <= leaf.events[i+1].time;
      }
      if leaf.select.Some? && text == shown {
        CountFollowsChanges(leaf, i + 1, begin, end, n, last, shown);
      } else {
        CountFollowsChanges(leaf, i + 1, begin, end, n + 1, if leaf.select.Some? then text else last, text);
      }
    }
  }

  /**
   The number of changes against the length of the range list, the value in force at begin
   coming from change i: they are equal when that change happens exactly at begin, or when a
   bit select shows at its first change behind begin what it showed before; otherwise the
   list is longer by its first entry.
   */
  lemma CountAgainstRange(file: File, leaf: Leaf, begin: int, end: int)
    requires Recorded(file, leaf) && 0 <= begin <= end && HasChangeBy(leaf, begin)
    requires RangeSpec(file, leaf, begin, end, Bin).Ok?
    ensures
      var total := |RangeSpec(file, leaf, begin, end, Bin).value|;
      var i := LastAtOrBefore(leaf.events, begin);
      var silent := leaf.select.Some? && i + 1 < |leaf.events| && leaf.events[i+1].time <= end
                    && Shown(leaf, i + 1, Bin) == Shown(leaf, i, Bin);
      && CountSpec(file, leaf, begin, end).Ok?
      && total == CountSpec(file, leaf, begin, end).value
                  + (if leaf.events[i].time == begin || silent then 0 else 1)
  {
    hide Shown, ChangesFrom, CountFrom, LastAtOrBefore;
    SeekBegin(file, leaf, begin);
    var i := LastAtOrBefore(leaf.events, begin);
    var text := Shown(leaf, i, Bin).value;
    CountStep(leaf, i, begin, end, 0, "");
    if leaf.events[i].time == begin {
      CountFollowsChanges(leaf, i + 1, begin, end, 1, if leaf.select.Some? then text else "", text);
    } else {
      CountStep(leaf, i + 1, begin, end, 0, "");
      ChangesStep(leaf, Bin, i + 1, end, text);
      if i + 1 < |leaf.events| && leaf.events[i+1].time <= end {
        var next := Shown(leaf, i + 1, Bin).value;
        if i + 2 < |leaf.events| {
          assert leaf.events[i+1].time <= leaf.events[i+2].time;
        }
        CountFollowsChanges(leaf, i + 2, begin, end, 1, if leaf.select.Some? then next else "", next);
      }
    }
  }
}
