/**
 How the range list of a bit select depends on the radix it is asked for. Repeated values
 are recognised by their converted texts, so a radix that blurs unknown bits may merge
 changes that binary keeps apart.
 */
module RangeRadix {
  import opened CText
  import opened Radix
  import opened RadixLoss
  import opened Waveform

  /** The changes converted, a text equal to the one before it left out. */
  function Merged(changes: seq<Value>, radix: Radix, last: string): seq<Value>
    decreases |changes|
  {
    if changes == [] then [] else
    var text := Converted(changes[0].text, radix);
    if text == last then Merged(changes[1..], radix, last)
    else [Value(changes[0].time, text)] + Merged(changes[1..], radix, text)
  }

  lemma MergedPrepend(v: Value, more: seq<Value>, radix: Radix, last: string)
    ensures Merged([v] + more, radix, last) ==
      var text := Converted(v.text, radix);
      if text == last then Merged(more, radix, last) else [Value(v.time, text)] + Merged(more, radix, text)
  {
    hide Converted;
    assert ([v] + more)[1..] == more;
  }

  lemma ShownInRadix(leaf: Leaf, i: nat, radix: Radix)
    requires leaf.select.Some? && i < |leaf.events|
    ensures
      var part := Projected(leaf.select.value, leaf.events[i].bits);
      && Shown(leaf, i, Bin) == (if part.None? then Err(SignalNotFound) else Ok(part.value))
      && Shown(leaf, i, radix) == (if part.None? then Err(SignalNotFound) else Ok(Converted(part.value, radix)))
  {
    hide Projected;
  }

  lemma {:induction false} ChangesInRadix(leaf: Leaf, radix: Radix, i: nat, end: int, last: string)
    requires leaf.select.Some?
    ensures
      var plain := ChangesFrom(leaf, Bin, i, end, last);
      var shown := ChangesFrom(leaf, radix, i, end, Converted(last, radix));
      && plain.Ok? == shown.Ok?
      && (plain.Ok? ==> shown.value == Merged(plain.value, radix, Converted(last, radix)))
    decreases |leaf.events| - i
  {
    hide Shown, ChangesFrom, Converted, Projected;
    var plain := ChangesFrom(leaf, Bin, i, end, last);
    ChangesStep(leaf, Bin, i, end, last);
    ChangesStep(leaf, radix, i, end, Converted(last, radix));
    if i < |leaf.events| {
      ShownInRadix(leaf, i, radix);
      var part := Projected(leaf.select.value, leaf.events[i].bits);
      if part.Some? && leaf.events[i].time <= end {
        ChangesInRadix(leaf, radix, i + 1, end, part.value);
        if part.value != last && plain.Ok? {
          var more := ChangesFrom(leaf, Bin, i + 1, end, part.value).value;
          MergedPrepend(Value(leaf.events[i].time, part.value), more, radix, Converted(last, radix));
        }
      }
    }
  }

  lemma MergedFirst(first: Value, more: seq<Value>, radix: Radix)
    ensures MergedAll([first] + more, radix)
      == [Value(first.time, Converted(first.text, radix))] + Merged(more, radix, Converted(first.text, radix))
  {
    hide Converted;
    assert ([first] + more)[1..] == more;
  }

  function MergedAll(changes: seq<Value>, radix: Radix): seq<Value> {
    if changes == [] then [] else
    var text := Converted(changes[0].text, radix);
    [Value(changes[0].time, text)] + Merged(changes[1..], radix, text)
  }

  /** In any radix the range of a bit select is its binary range, converted and merged. */
  lemma RangeIsMergedBinary(file: File, leaf: Leaf, begin: int, end: int, radix: Radix)
    requires leaf.select.Some?
    ensures
      var plain := RangeSpec(file, leaf, begin, end, Bin);
      var shown := RangeSpec(file, leaf, begin, end, radix);
      && plain.Ok? == shown.Ok?
      && (plain.Ok? ==> shown.value == MergedAll(plain.value, radix))
  {
    hide Shown, ChangesFrom, Converted, Projected, LastAtOrBefore, Merged;
    var i := SeekIndex(file, leaf.events, Tag(Min(begin, file.maxTime)));
    if i.Some? {
      ShownInRadix(leaf, i.value, radix);
      var part := Projected(leaf.select.value, leaf.events[i.value].bits);
      if part.Some? {
        ChangesInRadix(leaf, radix, i.value + 1, end, part.value);
        var more := ChangesFrom(leaf, Bin, i.value + 1, end, part.value);
        if more.Ok? {
          MergedFirst(Value(begin, part.value), more.value, radix);
        }
      }
    }
  }

  // ------------------------------------------------------ the length of the list

  /** Change j alters the select, but not what the radix shows of it. */
  predicate Hidden(leaf: Leaf, j: nat, radix: Radix)
    requires 0 < j < |leaf.events|
  {
    Shown(leaf, j - 1, Bin) != Shown(leaf, j, Bin) && Shown(leaf, j - 1, radix) == Shown(leaf, j, radix)
  }

  /** Such a change happens behind change i and by the end. */
  predicate HidesAChange(leaf: Leaf, i: nat, end: int, radix: Radix) {
    exists j :: i < j < |leaf.events| && leaf.events[j].time <= end && Hidden(leaf, j, radix)
  }

  lemma HidesStep(leaf: Leaf, i: nat, end: int, radix: Radix)
    requires Sorted(leaf.events)
    ensures HidesAChange(leaf, i, end, radix) <==>
      && i + 1 < |leaf.events| && leaf.events[i+1].time <= end
      && (Hidden(leaf, i + 1, radix) || HidesAChange(leaf, i + 1, end, radix))
  {
    hide Hidden;
    if j :| i < j < |leaf.events| && leaf.events[j].time <= end && Hidden(leaf, j, radix) {
      assert leaf.events[i+1].time <= leaf.events[j].time;
    }
  }

  lemma {:induction false} ChangesLength(leaf: Leaf, radix: Radix, i: nat, end: int, last: string)
    requires leaf.select.Some? && Sorted(leaf.events) && i < |leaf.events| && Shown(leaf, i, Bin) == Ok(last)
    requires ChangesFrom(leaf, Bin, i + 1, end, last).Ok?
    ensures
      var plain := ChangesFrom(leaf, Bin, i + 1, end, last).value;
      var shown := ChangesFrom(leaf, radix, i + 1, end, Converted(last, radix));
      && shown.Ok? && |shown.value| <= |plain|
      && (|shown.value| == |plain| <==> !HidesAChange(leaf, i, end, radix))
    decreases |leaf.events| - i
  {
    hide Shown, ChangesFrom, Converted, Projected, HidesAChange;
    ChangesStep(leaf, Bin, i + 1, end, last);
    ChangesStep(leaf, radix, i + 1, end, Converted(last, radix));
    HidesStep(leaf, i, end, radix);
    if i + 1 < |leaf.events| {
      ShownInRadix(leaf, i, radix);
      ShownInRadix(leaf, i + 1, radix);
      if leaf.events[i+1].time <= end {
        ChangesLength(leaf, radix, i + 1, end, Shown(leaf, i + 1, Bin).value);
      }
    }
  }

  /**
   No radix lists more changes than binary does, and it lists as many exactly when no change
   behind the one in force at begin and by the end is hidden.
   */
  lemma TotalAcrossRadices(file: File, leaf: Leaf, begin: int, end: int, radix: Radix)
    requires Recorded(file, leaf) && 0 <= begin <= end
    requires leaf.select.Some? && RangeSpec(file, leaf, begin, end, Bin).Ok?
    ensures
      var plain := RangeSpec(file, leaf, begin, end, Bin).value;
      var shown := RangeSpec(file, leaf, begin, end, radix);
      var i := LastAtOrBefore(leaf.events, begin);
      && shown.Ok? && |shown.value| <= |plain|
      && (|shown.value| == |plain| <==> !(i >= 0 && HidesAChange(leaf, i, end, radix)))
  {
    hide Shown, ChangesFrom, Converted, Projected, LastAtOrBefore, HidesAChange;
    SeekBegin(file, leaf, begin);
    var i := SeekIndex(file, leaf.events, Tag(Min(begin, file.maxTime)));
    if i.Some? {
      ShownInRadix(leaf, i.value, radix);
      if HasChangeBy(leaf, begin) {
        ChangesLength(leaf, radix, i.value, end, Shown(leaf, i.value, Bin).value);
      }
    }
  }

  /** A change that binary lists can really go missing in hexadecimal. */
  lemma RadixCanHideAChange()
    ensures
      var leaf := Leaf([Event(0, "0x"), Event(1, "1x")], Some(Select(1, 0, 1, 0)));
      && RangeSpec(File(0, 1, false), leaf, 0, 1, Bin) == Ok([Value(0, "0x"), Value(1, "1x")])
      && RangeSpec(File(0, 1, false), leaf, 0, 1, Hex) == Ok([Value(0, "x")])
  {
    hide GroupDigit, ChangesFrom, Shown, LastAtOrBefore;
    var leaf := Leaf([Event(0, "0x"), Event(1, "1x")], Some(Select(1, 0, 1, 0)));
    BlurredPair(leaf);
    LastIs(leaf.events, 0, 0);
    ChangesStep(leaf, Bin, 1, 1, "0x");
    ChangesStep(leaf, Bin, 2, 1, "1x");
    ChangesStep(leaf, Hex, 1, 1, "x");
    ChangesStep(leaf, Hex, 2, 1, "x");
    assert "0x"[0] != "1x"[0];
    assert ChangesFrom(leaf, Bin, 1, 1, "0x").value == [Value(1, "1x")];
    assert ChangesFrom(leaf, Hex, 1, 1, "x").value == [];
    assert RangeSpec(File(0, 1, false), leaf, 0, 1, Bin).value == [Value(0, "0x"), Value(1, "1x")];
    assert RangeSpec(File(0, 1, false), leaf, 0, 1, Hex).value == [Value(0, "x")];
  }

  lemma BlurredPair(leaf: Leaf)
    requires leaf == Leaf([Event(0, "0x"), Event(1, "1x")], Some(Select(1, 0, 1, 0)))
    ensures Shown(leaf, 0, Bin) == Ok("0x") && Shown(leaf, 1, Bin) == Ok("1x")
    ensures Shown(leaf, 0, Hex) == Ok("x") && Shown(leaf, 1, Hex) == Ok("x")
  {
    hide GroupDigit, GroupText, Projected;
    SelectAllIsIdentity(1, 0, "0x");
    SelectAllIsIdentity(1, 0, "1x");
    GroupTextShort("0x");
    GroupTextShort("1x");
    MixedDigits();
  }

  lemma MixedDigits()
    ensures GroupDigit("0x") == 'x' == GroupDigit("1x")
  {
    assert "0x"[0] == '0' && "0x"[1] == 'x' && "1x"[0] == '1' && "1x"[1] == 'x';
  }

  // ------------------------------------------------------- when no change is hidden

  /** No selected value of the signal is blurred by the radix. */
  predicate NeverBlurred(leaf: Leaf, radix: Radix)
    requires leaf.select.Some?
  {
    forall i :: 0 <= i < |leaf.events| ==>
      (FourStateText(leaf.events[i].bits) &&
       (var part := Projected(leaf.select.value, leaf.events[i].bits);
        part.Some? ==> !Blurred(Converted(part.value, radix))))
  }

  predicate Clear(leaf: Leaf, text: string, radix: Radix)
    requires leaf.select.Some?
  {
    FourStateText(text) && |text| == leaf.select.value.Width() && !Blurred(Converted(text, radix))
  }

  lemma OffsetInside(sel: Select, width: nat, k: nat)
    requires sel.Fits(width) && k < sel.Width()
    ensures 0 <= sel.Offset(sel.left + k * sel.Step()) < width
  {
  }

  lemma SelectFourState(sel: Select, bits: string)
    requires FourStateText(bits) && Projected(sel, bits).Some?
    ensures FourStateText(Projected(sel, bits).value)
  {
    var part := Projected(sel, bits).value;
    forall k | 0 <= k < |part| ensures FourState(part[k]) {
      OffsetInside(sel, |bits|, k);
    }
  }

  lemma ShownClear(leaf: Leaf, radix: Radix, i: nat)
    requires leaf.select.Some? && NeverBlurred(leaf, radix) && i < |leaf.events| && Shown(leaf, i, Bin).Ok?
    ensures Clear(leaf, Shown(leaf, i, Bin).value, radix)
  {
    hide Projected, Blurred, FourStateText;
    SelectFourState(leaf.select.value, leaf.events[i].bits);
  }

  /**
   While no selected value is blurred, the number of changes does not depend on the radix;
   in particular it does not for signals that are never unknown.
   */
  lemma RangeIndependentOfRadix(file: File, leaf: Leaf, begin: int, end: int, radix: Radix)
    requires Recorded(file, leaf) && 0 <= begin <= end
    requires leaf.select.Some? && NeverBlurred(leaf, radix) && RangeSpec(file, leaf, begin, end, Bin).Ok?
    ensures RangeSpec(file, leaf, begin, end, radix).Ok?
      && |RangeSpec(file, leaf, begin, end, radix).value| == |RangeSpec(file, leaf, begin, end, Bin).value|
  {
    hide RangeSpec, Hidden, NeverBlurred, LastAtOrBefore;
    TotalAcrossRadices(file, leaf, begin, end, radix);
    forall j | 0 < j < |leaf.events| ensures !Hidden(leaf, j, radix) {
      NothingHidden(leaf, j, radix);
    }
  }

  lemma NothingHidden(leaf: Leaf, j: nat, radix: Radix)
    requires leaf.select.Some? && NeverBlurred(leaf, radix) && 0 < j < |leaf.events|
    ensures !Hidden(leaf, j, radix)
  {
    hide Shown, Converted, Clear, NeverBlurred, Projected;
    ShownInRadix(leaf, j - 1, radix);
    ShownInRadix(leaf, j, radix);
    if Hidden(leaf, j, radix) {
      ShownClear(leaf, radix, j - 1);
      ShownClear(leaf, radix, j);
      ClearTextsDiffer(leaf, Shown(leaf, j - 1, Bin).value, Shown(leaf, j, Bin).value, radix);
    }
  }

  predicate AllReadable(leaf: Leaf) {
    forall k :: 0 <= k < |leaf.events| ==> Shown(leaf, k, Bin).Ok?
  }

  lemma {:induction false} ReadableChanges(leaf: Leaf, i: nat, end: int, last: string)
    requires AllReadable(leaf)
    ensures ChangesFrom(leaf, Bin, i, end, last).Ok?
    decreases |leaf.events| - i
  {
    hide Shown, ChangesFrom;
    ChangesStep(leaf, Bin, i, end, last);
    if i < |leaf.events| {
      ReadableChanges(leaf, i + 1, end, Shown(leaf, i, Bin).value);
      ReadableChanges(leaf, i + 1, end, last);
    }
  }

  predicate SameTotal(file: File, leaf: Leaf, begin: int, end: int, radix: Radix) {
    var plain, shown := RangeSpec(file, leaf, begin, end, Bin), RangeSpec(file, leaf, begin, end, radix);
    plain.Ok? && shown.Ok? && |shown.value| == |plain.value|
  }

  /**
   For a select that can be read throughout, all ranges have as many changes in the radix as
   in binary exactly when no change behind the first time of the recording is hidden.
   */
  lemma AlwaysSameTotalIff(file: File, leaf: Leaf, radix: Radix)
    requires Recorded(file, leaf) && leaf.select.Some? && AllReadable(leaf)
    ensures (forall begin, end :: 0 <= begin <= end ==> SameTotal(file, leaf, begin, end, radix))
      <==> (forall j :: 0 < j < |leaf.events| && leaf.events[j].time > leaf.events[0].time ==> !Hidden(leaf, j, radix))
  {
    hide RangeSpec, Hidden, LastAtOrBefore, AllReadable;
    forall begin: int, end | 0 <= begin <= end
      ensures SameTotal(file, leaf, begin, end, radix) <==>
        !(LastAtOrBefore(leaf.events, begin) >= 0 && HidesAChange(leaf, LastAtOrBefore(leaf.events, begin), end, radix))
      ensures !SameTotal(file, leaf, begin, end, radix) ==>
        exists j :: 0 < j < |leaf.events| && leaf.events[j].time > leaf.events[0].time && Hidden(leaf, j, radix)
    {
      ReadableRange(file, leaf, begin, end);
      TotalAcrossRadices(file, leaf, begin, end, radix);
      HiddenLater(leaf, begin, end, radix);
    }
    forall j | 0 < j < |leaf.events| && leaf.events[j].time > leaf.events[0].time && Hidden(leaf, j, radix)
      ensures !SameTotal(file, leaf, leaf.events[0].time, leaf.events[j].time, radix)
    {
      var i := LastAtOrBefore(leaf.events, leaf.events[0].time);
      assert i >= 0 && i < j;
    }
  }

  lemma HiddenLater(leaf: Leaf, begin: int, end: int, radix: Radix)
    requires Sorted(leaf.events)
    ensures var i := LastAtOrBefore(leaf.events, begin);
      i >= 0 && HidesAChange(leaf, i, end, radix) ==>
        exists j :: 0 < j < |leaf.events| && leaf.events[j].time > leaf.events[0].time && Hidden(leaf, j, radix)
  {
    hide Hidden, LastAtOrBefore;
    var i := LastAtOrBefore(leaf.events, begin);
    if i >= 0 && HidesAChange(leaf, i, end, radix) {
      var j :| i < j < |leaf.events| && leaf.events[j].time <= end && Hidden(leaf, j, radix);
      assert leaf.events[0].time <= leaf.events[i].time <= begin < leaf.events[j].time;
    }
  }

  lemma ReadableRange(file: File, leaf: Leaf, begin: int, end: int)
    requires AllReadable(leaf)
    ensures RangeSpec(file, leaf, begin, end, Bin).Ok?
  {
    hide Shown, ChangesFrom, LastAtOrBefore;
    var i := SeekIndex(file, leaf.events, Tag(Min(begin, file.maxTime)));
    if i.Some? {
      ReadableChanges(leaf, i.value + 1, end, Shown(leaf, i.value, Bin).value);
    }
  }

  lemma ClearTextsDiffer(leaf: Leaf, a: string, b: string, radix: Radix)
    requires leaf.select.Some? && Clear(leaf, a, radix) && Clear(leaf, b, radix) && a != b
    ensures Converted(a, radix) != Converted(b, radix)
  {
    hide Converted;
    if Converted(a, radix) == Converted(b, radix) {
      ClearIsInjective(a, b, radix);
    }
  }

  /** Two-state values are never blurred. */
  lemma TwoStateNeverBlurred(bits: string, radix: Radix)
    requires TwoState(bits)
    ensures FourStateText(bits) && !Blurred(Converted(bits, radix))
  {
    hide DecText, GroupText;
    assert forall i :: 0 <= i < |bits| ==> FourState(bits[i]);
    match radix
    case Bin =>
    case Dec => assert AllDigits(DecText(bits));
    case Oct => TwoStateGroups(bits, 3);
    case Hex => TwoStateGroups(bits, 4);
  }

  lemma {:induction false} TwoStateGroups(bits: string, group: nat)
    requires TwoState(bits) && (group == 3 || group == 4)
    ensures !Blurred(GroupText(bits, group))
    decreases |bits|
  {
    hide BinValue;
    if bits != "" {
      var begin := if |bits| > group then |bits| - group else 0;
      TwoStateGroups(bits[..begin], group);
      TwoStateDigit(bits[begin..]);
    }
  }

  lemma TwoStateDigit(chunk: string)
    requires TwoState(chunk)
    ensures GroupDigit(chunk) != 'x' && GroupDigit(chunk) != 'z'
  {
    hide BinValue;
    var digits := "0123456789abcdef";
    assert forall i :: 0 <= i < |digits| ==> digits[i] != 'x' && digits[i] != 'z';
  }
}
