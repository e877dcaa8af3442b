/**
 What range and count say of a whole signal, of which every recorded change is listed.
 */
module WholeSignals {
  import opened CText
  import opened Radix
  import opened Waveform

  // ------------------------------------------------------------------------ counting

  /** The changes from the i-th on that happen in the range. */
  function Within(events: seq<Event>, i: nat, begin: int, end: int): set<int> {
    set k | i <= k < |events| && begin <= events[k].time <= end
  }

  lemma WithinStep(events: seq<Event>, i: nat, begin: int, end: int)
    requires Sorted(events)
    ensures i >= |events| || events[i].time > end ==> Within(events, i, begin, end) == {}
    ensures i < |events| && begin <= events[i].time <= end ==>
      |Within(events, i, begin, end)| == |Within(events, i + 1, begin, end)| + 1
    ensures i < |events| && events[i].time < begin ==> Within(events, i, begin, end) == Within(events, i + 1, begin, end)
  {
    if i < |events| && events[i].time > end {
      assert forall k :: i <= k < |events| ==> events[i].time <= events[k].time;
    }
    if i < |events| && begin <= events[i].time <= end {
      assert Within(events, i, begin, end) == Within(events, i + 1, begin, end) + {i};
    }
  }

  lemma {:induction false} CountIsWithin(leaf: Leaf, i: nat, begin: int, end: int, n: nat, last: string)
    requires Sorted(leaf.events) && leaf.select.None?
    ensures CountFrom(leaf, i, begin, end, n, last) == Ok(n + |Within(leaf.events, i, begin, end)|)
    decreases |leaf.events| - i
  {
    hide CountFrom, Within;
    CountStep(leaf, i, begin, end, n, last);
    WithinStep(leaf.events, i, begin, end);
    if i < |leaf.events| && leaf.events[i].time <= end {
      CountIsWithin(leaf, i + 1, begin, end, if leaf.events[i].time < begin then n else n + 1, last);
    }
  }

  /**
   When the count reaches every change in the range: the change sought is the only one at
   begin or lies before it, and if none is found there is none in the range.
   */
  predicate ReachesAll(file: File, leaf: Leaf, begin: int, end: int) {
    var i := SeekIndex(file, leaf.events, Tag(begin));
    if i.None? then leaf.events == [] || leaf.events[0].time > end
    else i.value == 0 || leaf.events[i.value - 1].time < begin
  }

  /**
   The count of a whole signal is the number of its changes in the range exactly when it
   reaches all of them; otherwise it is too low.
   */
  lemma WholeCountIff(file: File, leaf: Leaf, begin: int, end: int)
    requires Recorded(file, leaf) && leaf.select.None? && 0 <= begin <= end
    ensures CountSpec(file, leaf, begin, end).Ok?
    ensures CountSpec(file, leaf, begin, end).value <= |Within(leaf.events, 0, begin, end)|
    ensures CountSpec(file, leaf, begin, end).value == |Within(leaf.events, 0, begin, end)| <==> ReachesAll(file, leaf, begin, end)
  {
    hide CountFrom, LastAtOrBefore;
    var events := leaf.events;
    var i := SeekIndex(file, events, Tag(begin));
    var all := Within(events, 0, begin, end);
    if i.None? {
      SomeWithin(events, begin, end);
    } else {
      CountIsWithin(leaf, i.value, begin, end, 0, "");
      WithinFrom(events, i.value, begin, end);
    }
  }

  lemma SomeWithin(events: seq<Event>, begin: int, end: int)
    requires Sorted(events) && (events != [] ==> events[0].time > begin)
    ensures |Within(events, 0, begin, end)| == 0 <==> events == [] || events[0].time > end
  {
    WithinStep(events, 0, begin, end);
  }

  /** The changes in front of the i-th that happen in the range. */
  function Before(events: seq<Event>, i: nat, begin: int, end: int): set<int> {
    set k | 0 <= k < i && k < |events| && begin <= events[k].time <= end
  }

  lemma WithinSplit(events: seq<Event>, i: nat, begin: int, end: int)
    ensures |Within(events, 0, begin, end)| == |Before(events, i, begin, end)| + |Within(events, i, begin, end)|
  {
    assert Within(events, 0, begin, end) == Before(events, i, begin, end) + Within(events, i, begin, end);
    assert Before(events, i, begin, end) !! Within(events, i, begin, end);
  }

  lemma NoneBefore(events: seq<Event>, i: nat, begin: int, end: int)
    requires Sorted(events) && i < |events| && begin <= end
    requires i > 0 ==> events[i].time <= begin
    ensures |Before(events, i, begin, end)| == 0 <==> i == 0 || events[i-1].time < begin
  {
    if i > 0 {
      assert events[i-1].time <= events[i].time;
      if events[i-1].time < begin {
        assert forall k :: 0 <= k < i ==> events[k].time <= events[i-1].time;
        assert Before(events, i, begin, end) == {};
      } else {
        assert i - 1 in Before(events, i, begin, end);
      }
    }
  }

  /** Starting behind some changes loses those of them that are in the range. */
  lemma WithinFrom(events: seq<Event>, i: nat, begin: int, end: int)
    requires Sorted(events) && i < |events| && begin <= end
    requires i > 0 ==> events[i].time <= begin
    ensures |Within(events, i, begin, end)| <= |Within(events, 0, begin, end)|
    ensures |Within(events, i, begin, end)| == |Within(events, 0, begin, end)| <==> i == 0 || events[i-1].time < begin
  {
    hide Within, Before;
    WithinSplit(events, i, begin, end);
    NoneBefore(events, i, begin, end);
  }

  // ------------------------------------------------------------------------- listing

  function Listed(leaf: Leaf, k: nat, radix: Radix): Value
    requires k < |leaf.events|
  {
    Value(leaf.events[k].time, Converted(leaf.events[k].bits, radix))
  }

  /** The changes from the i-th up to, not including, the n-th. */
  predicate ListsAll(c: seq<Value>, leaf: Leaf, i: nat, n: nat, radix: Radix) {
    i <= n <= |leaf.events| && |c| == n - i && forall k :: 0 <= k < n - i ==> c[k] == Listed(leaf, i + k, radix)
  }

  lemma {:induction false} ChangesListAll(leaf: Leaf, radix: Radix, i: nat, end: int, last: string)
    requires Sorted(leaf.events) && leaf.select.None? && i <= LastAtOrBefore(leaf.events, end) + 1
    ensures
      var r := ChangesFrom(leaf, radix, i, end, last);
      r.Ok? && ListsAll(r.value, leaf, i, LastAtOrBefore(leaf.events, end) + 1, radix)
    decreases |leaf.events| - i
  {
    hide ChangesFrom, Converted, LastAtOrBefore, ListsAll;
    ChangesStep(leaf, radix, i, end, last);
    var n := LastAtOrBefore(leaf.events, end) + 1;
    if i < n {
      assert leaf.events[i].time <= leaf.events[n-1].time;
      var text := Converted(leaf.events[i].bits, radix);
      ChangesListAll(leaf, radix, i + 1, end, text);
      OneMoreListed(ChangesFrom(leaf, radix, i + 1, end, text).value, leaf, i, n, radix);
    } else {
      NoneListed(leaf, i, radix);
    }
  }

  lemma OneMoreListed(c: seq<Value>, leaf: Leaf, i: nat, n: nat, radix: Radix)
    requires i < n && ListsAll(c, leaf, i + 1, n, radix)
    ensures ListsAll([Listed(leaf, i, radix)] + c, leaf, i, n, radix)
  {
    hide Converted;
    forall k | 0 < k < n - i ensures ([Listed(leaf, i, radix)] + c)[k] == Listed(leaf, i + k, radix) {
      assert c[k-1] == Listed(leaf, i + 1 + (k - 1), radix);
    }
  }

  lemma NoneListed(leaf: Leaf, i: nat, radix: Radix)
    requires i <= |leaf.events|
    ensures ListsAll([], leaf, i, i, radix)
  {
  }

  /**
   The range of a whole signal lists the value in force at begin and behind it every change
   up to the end, each with its time and value, repeated values included.
   */
  lemma WholeRangeListsAll(file: File, leaf: Leaf, begin: int, end: int, radix: Radix)
    requires Recorded(file, leaf) && leaf.select.None? && 0 <= begin <= end && HasChangeBy(leaf, begin)
    ensures
      var i, n := LastAtOrBefore(leaf.events, begin), LastAtOrBefore(leaf.events, end) + 1;
      var all := RangeSpec(file, leaf, begin, end, radix);
      && i >= 0 && all.Ok? && all.value != []
      && all.value[0] == Listed(leaf, i, radix).(time := begin)
      && ListsAll(all.value[1..], leaf, i + 1, n, radix)
  {
    hide ChangesFrom, Converted, LastAtOrBefore, ListsAll;
    SeekBegin(file, leaf, begin);
    var i, n := LastAtOrBefore(leaf.events, begin), LastAtOrBefore(leaf.events, end) + 1;
    assert n > i;
    var text := Converted(leaf.events[i].bits, radix);
    ChangesListAll(leaf, radix, i + 1, end, text);
    var more := ChangesFrom(leaf, radix, i + 1, end, text).value;
    assert ([Value(begin, text)] + more)[1..] == more;
  }

  /** Of three changes at one time only the last is counted. */
  lemma SameTimeCountedOnce()
    ensures
      var leaf, file := Leaf([Event(3, "0"), Event(3, "1"), Event(3, "0")], None), File(0, 9, false);
      && CountSpec(file, leaf, 3, 9) == Ok(1)
      && |Within(leaf.events, 0, 3, 9)| == 3
  {
    hide CountFrom, LastAtOrBefore, Within;
    var leaf, file := Leaf([Event(3, "0"), Event(3, "1"), Event(3, "0")], None), File(0, 9, false);
    LastIs(leaf.events, 3, 2);
    CountIsWithin(leaf, 2, 3, 9, 0, "");
    WithinStep(leaf.events, 0, 3, 9);
    WithinStep(leaf.events, 1, 3, 9);
    WithinStep(leaf.events, 2, 3, 9);
    WithinStep(leaf.events, 3, 3, 9);
  }

  // ---------------------------------------------------------------- limits and failures

  /** Of a list that is too long the first ones are given, with the number of all. */
  lemma LimitedIs(all: seq<Value>, limit: nat)
    ensures var r := Limited(all, limit);
      && r.changes <= all && |r.changes| == (if |all| <= limit then |all| else limit) && r.total == |all|
  {
  }

  /**
   A point query fails to read exactly when the signal has no change by then and seeking does
   not help, and fails to find the signal exactly when the select does not fit the value.
   */
  lemma PointFails(file: File, leaf: Leaf, t: int, radix: Radix)
    requires Recorded(file, leaf) && 0 <= t
    ensures var r := PointSpec(file, leaf, t, radix);
      && (r == Err(ReadFailed) <==> leaf.events == [] || (leaf.events[0].time > t && !file.lenient))
      && (r.Err? && r != Err(ReadFailed) <==>
            && leaf.events != [] && (leaf.events[0].time <= t || file.lenient) && leaf.select.Some?
            && !leaf.select.value.Fits(|leaf.events[if leaf.events[0].time <= t then LastAtOrBefore(leaf.events, t) else 0].bits|))
      && (r.Err? && r != Err(ReadFailed) ==> r == Err(SignalNotFound))
  {
    hide LastAtOrBefore, Converted, Projected;
    SeekBegin(file, leaf, t);
    if leaf.select.Some? && leaf.events != [] {
      var i := if leaf.events[0].time <= t then LastAtOrBefore(leaf.events, t) else 0;
      FitsIff(leaf.select.value, leaf.events[i].bits);
    }
  }

  lemma FitsIff(select: Select, bits: string)
    ensures Projected(select, bits).Some? <==> select.Fits(|bits|)
  {
  }

  /** A negative time counts as a very late one: the point query reads the last value. */
  lemma NegativeTimeReadsLast(file: File, leaf: Leaf, t: int, radix: Radix)
    requires Recorded(file, leaf) && leaf.events != [] && file.maxTime <= INT64_MAX && INT64_MIN <= t < 0
    ensures PointSpec(file, leaf, t, radix) == Shown(leaf, |leaf.events| - 1, radix)
  {
    hide LastAtOrBefore, Shown;
    LastIs(leaf.events, Tag(t), |leaf.events| - 1);
  }
}
