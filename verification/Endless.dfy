/**
 Which reads never end. A read that ends goes no deeper than there are entries; a composite
 with an element that is a select of the composite itself is read to an end only when a part
 in front of the element fails.
 */
module Endless {
  import opened CText
  import opened Radix
  import opened Waveform
  import opened Database
  import opened Composite
  import opened Reading
  import opened Grounding

  // ---------------------------------------------------------- text and bits end alike

  /** Both are unfinished, or fail alike, or succeed. */
  predicate Alike(a: Progress, b: Progress) {
    && a.Some? == b.Some?
    && (a.Some? ==> a.value.Ok? == b.value.Ok? && (a.value.Err? ==> a.value.fault == b.value.fault))
  }

  lemma LeavesAlike(db: Db, d: Descriptor, t: int, one: Radix, other: Radix)
    ensures Alike(Some(LeafText(db, d, t, one)), Some(LeafText(db, d, t, other)))
  {
    hide LastAtOrBefore, Converted, Projected;
  }

  lemma {:induction false} StylesAlike(db: Db, path: string, t: int, one: Style, other: Style, depth: nat)
    requires Consistent(db)
    ensures Alike(Read(db, path, t, one, depth), Read(db, path, t, other, depth))
    decreases depth, 1, 0
  {
    hide Lookup, LeafText, ReadWhole, Converted, Projected;
    WholesAlike(db, path, t, one, other, depth);
    if Lookup(db, path).Ok? {
      LeavesAlike(db, Lookup(db, path).value, t, one.Base(), other.Base());
    }
  }

  lemma {:induction false} WholesAlike(db: Db, path: string, t: int, one: Style, other: Style, depth: nat)
    requires Consistent(db)
    ensures Alike(ReadWhole(db, path, t, one, depth), ReadWhole(db, path, t, other, depth))
    decreases depth, 0, 0
  {
    hide PartsOf, ReadParts;
    if depth > 0 {
      PartsAlike(db, PartsOf(db, path), t, one, other, depth - 1);
    }
  }

  lemma {:induction false} PartsAlike(db: Db, parts: seq<string>, t: int, one: Style, other: Style, depth: nat)
    requires Consistent(db)
    ensures Alike(ReadParts(db, parts, t, one, depth), ReadParts(db, parts, t, other, depth))
    decreases depth, 2, |parts|
  {
    hide Read;
    if parts != [] {
      PartsAlike(db, parts[..|parts|-1], t, one, other, depth);
      StylesAlike(db, parts[|parts|-1], t, one, other, depth);
    }
  }

  // --------------------------------------------------- elements that lead back

  /** The reading of the first n parts ends with a failure. */
  ghost predicate FailsBefore(db: Db, path: string, n: nat, t: int, style: Style)
    requires Consistent(db) && n <= |PartsOf(db, path)|
  {
    exists depth: nat :: Failed(ReadParts(db, PartsOf(db, path)[..n], t, style, depth))
  }

  lemma BackToWhole(db: Db, path: string, n: nat, t: int, style: Style, depth: nat)
    requires Consistent(db) && LeadsBackAt(db, path, n)
    ensures ReadWhole(db, path, t, Bits, depth).None? ==> Read(db, PartsOf(db, path)[n], t, style, depth).None?
  {
    hide PartsOf, ReadWhole, Lookup;
    SourceKnown(db, PartsOf(db, path)[n]);
  }

  /** Each round through the element reads the composite again. */
  lemma {:induction false} RoundAgain(db: Db, path: string, n: nat, t: int, depth: nat)
    requires Consistent(db) && LeadsBackAt(db, path, n) && !FailsBefore(db, path, n, t, Bits)
    ensures ReadWhole(db, path, t, Bits, depth).None?
  {
    hide PartsOf, Read, ReadParts;
    if depth > 0 {
      var parts := PartsOf(db, path);
      RoundAgain(db, path, n, t, depth - 1);
      BackToWhole(db, path, n, t, Bits, depth - 1);
      PartsStep(db, parts, n, t, Bits, depth - 1);
      assert !Failed(ReadParts(db, parts[..n], t, Bits, depth - 1));
      PartsStop(db, parts, n + 1, t, Bits, depth - 1);
    }
  }

  lemma FailsInAnyStyle(db: Db, path: string, n: nat, t: int, one: Style, other: Style)
    requires Consistent(db) && n <= |PartsOf(db, path)|
    ensures FailsBefore(db, path, n, t, one) ==> FailsBefore(db, path, n, t, other)
  {
    hide PartsOf, ReadParts;
    if depth: nat :| Failed(ReadParts(db, PartsOf(db, path)[..n], t, one, depth)) {
      PartsAlike(db, PartsOf(db, path)[..n], t, one, other, depth);
    }
  }

  /**
   A composite with an element that leads back to it is read to an end exactly when the
   reading fails in front of that element, and then the read fails.
   */
  lemma ElementEndsIff(db: Db, path: string, n: nat, t: int, style: Style)
    requires Consistent(db) && LeadsBackAt(db, path, n)
    ensures Ends(db, path, t, style) <==> FailsBefore(db, path, n, t, style)
    ensures Ends(db, path, t, style) ==> Outcome(db, path, t, style).Err?
  {
    hide PartsOf, ReadWhole, ReadParts, Lookup, Outcome, FailsBefore, CompositeBehind;
    SourceKnown(db, path);
    if FailsBefore(db, path, n, t, style) {
      FailureEnds(db, path, n, t, style);
    } else {
      FailsInAnyStyle(db, path, n, t, Bits, style);
      forall depth: nat ensures Read(db, path, t, style, depth).None? {
        RoundAgain(db, path, n, t, depth);
        WholesAlike(db, path, t, Bits, style, depth);
      }
    }
  }

  lemma FailureEnds(db: Db, path: string, n: nat, t: int, style: Style)
    requires Consistent(db) && IsComposite(db, path) && n <= |PartsOf(db, path)| && FailsBefore(db, path, n, t, style)
    ensures Ends(db, path, t, style) && Outcome(db, path, t, style).Err?
  {
    hide PartsOf, ReadParts, Lookup, Outcome, Ends;
    SourceKnown(db, path);
    var parts := PartsOf(db, path);
    var depth: nat :| Failed(ReadParts(db, parts[..n], t, style, depth));
    PartsStop(db, parts, n, t, style, depth);
    assert Failed(ReadWhole(db, path, t, style, depth + 1));
    OutcomeIs(db, path, t, style, depth + 1);
  }

  lemma NothingInFront(db: Db, path: string, t: int, style: Style)
    requires Consistent(db)
    ensures !FailsBefore(db, path, 0, t, style)
  {
    hide PartsOf;
    assert PartsOf(db, path)[..0] == [];
  }

  /** Asking for the element itself ends exactly when reading the bits of the composite does. */
  lemma ElementEndsWithWhole(db: Db, path: string, n: nat, t: int, style: Style)
    requires Consistent(db) && LeadsBackAt(db, path, n)
    ensures Ends(db, PartsOf(db, path)[n], t, style) <==> Ends(db, path, t, Bits)
  {
    hide PartsOf, ReadWhole, Lookup;
    SourceKnown(db, PartsOf(db, path)[n]);
    SourceKnown(db, path);
    forall depth: nat
      ensures Read(db, PartsOf(db, path)[n], t, style, depth).Some? <==> Read(db, path, t, Bits, depth).Some?
    {
    }
  }

  // ------------------------------------- with parts in front that are known to end

  /** The first n parts have no parts that lead back. */
  ghost predicate FirstAnswerable(db: Db, path: string, n: nat)
    requires Consistent(db) && n <= |PartsOf(db, path)|
  {
    forall k :: 0 <= k < n ==> Answerable(db, PartsOf(db, path)[k])
  }

  ghost predicate FirstReadable(db: Db, path: string, n: nat, t: int)
    requires Consistent(db) && n <= |PartsOf(db, path)| && FirstAnswerable(db, path, n)
  {
    forall k :: 0 <= k < n ==> PathText(db, PartsOf(db, path)[k], t, Bin).Ok?
  }

  lemma {:induction false} FirstPartsEnd(db: Db, path: string, n: nat, t: int) returns (depth: nat)
    requires Consistent(db) && n <= |PartsOf(db, path)| && FirstAnswerable(db, path, n)
    ensures ReadParts(db, PartsOf(db, path)[..n], t, Braces(Bin), depth).Some?
    ensures Fine(ReadParts(db, PartsOf(db, path)[..n], t, Braces(Bin), depth)) <==> FirstReadable(db, path, n, t)
  {
    hide PartsOf, Read, ReadParts, PathText, Answerable, Outcome;
    var parts := PartsOf(db, path);
    if n == 0 {
      depth := 0;
      NothingRead(db, t, Braces(Bin), 0);
      assert parts[..0] == [];
    } else {
      var part := parts[n-1];
      assert Answerable(db, part);
      var front := FirstPartsEnd(db, path, n - 1, t);
      AnswerableEnds(db, part, t, Bin);
      var last := DepthOf(db, part, t, Braces(Bin));
      depth := if front <= last then last else front;
      DeeperParts(db, parts[..n-1], t, Braces(Bin), front, depth);
      DeeperIsSame(db, part, t, Braces(Bin), last, depth);
      PartsStep(db, parts, n - 1, t, Braces(Bin), depth);
    }
  }

  /**
   A composite with an element that leads back to it is never read to an end exactly when
   every part in front of that element can be read.
   */
  lemma NeverEndsIffReadable(db: Db, path: string, n: nat, t: int, style: Style)
    requires Consistent(db) && LeadsBackAt(db, path, n) && FirstAnswerable(db, path, n)
    ensures !Ends(db, path, t, style) <==> FirstReadable(db, path, n, t)
  {
    hide PartsOf, ReadParts, Ends, Outcome, LeadsBackAt, FirstAnswerable, FirstReadable;
    LeadsInside(db, path, n);
    ElementEndsIff(db, path, n, t, style);
    FailsInAnyStyle(db, path, n, t, style, Braces(Bin));
    FailsInAnyStyle(db, path, n, t, Braces(Bin), style);
    var parts := PartsOf(db, path)[..n];
    var depth := FirstPartsEnd(db, path, n, t);
    if other: nat :| Failed(ReadParts(db, parts, t, Braces(Bin), other)) {
      DeeperParts(db, parts, t, Braces(Bin), depth, if depth <= other then other else depth);
      DeeperParts(db, parts, t, Braces(Bin), other, if depth <= other then other else depth);
    }
  }

  lemma LeadsInside(db: Db, path: string, n: nat)
    requires Consistent(db) && LeadsBackAt(db, path, n)
    ensures n < |PartsOf(db, path)|
  {
  }

  // ------------------------------------------------------------ a bound for every read

  /** A read of parts that needs the whole depth has a part that does. */
  lemma {:induction false} DeepPart(db: Db, parts: seq<string>, t: int, depth: nat) returns (part: string)
    requires Consistent(db) && depth > 0
    requires ReadParts(db, parts, t, Bits, depth).Some? && ReadParts(db, parts, t, Bits, depth - 1).None?
    ensures Read(db, part, t, Bits, depth).Some? && Read(db, part, t, Bits, depth - 1).None?
    decreases |parts|
  {
    hide Read;
    var n := |parts| - 1;
    if ReadParts(db, parts[..n], t, Bits, depth - 1).None? {
      part := DeepPart(db, parts[..n], t, depth);
    } else {
      DeeperParts(db, parts[..n], t, Bits, depth - 1, depth);
      part := parts[n];
    }
  }

  /** Such a part has a composite behind it that does. */
  lemma DeepComposite(db: Db, part: string, t: int, depth: nat) returns (base: string)
    requires Consistent(db) && depth > 0
    requires Read(db, part, t, Bits, depth).Some? && Read(db, part, t, Bits, depth - 1).None?
    ensures IsComposite(db, base) && Ends(db, base, t, Bits) && DepthOf(db, base, t, Bits) == depth
  {
    hide ReadWhole, Lookup, LeafText, Ends, DepthOf, Outcome;
    SourceKnown(db, part);
    var d := Lookup(db, part).value;
    base := if d.Part? then d.source else part;
    SourceKnown(db, base);
    assert Read(db, base, t, Bits, depth) == ReadWhole(db, base, t, Bits, depth);
    assert Read(db, base, t, Bits, depth - 1) == ReadWhole(db, base, t, Bits, depth - 1);
    EndsWithin(db, base, t, Bits, depth);
    if DepthOf(db, base, t, Bits) < depth {
      DeeperIsSame(db, base, t, Bits, DepthOf(db, base, t, Bits), depth - 1);
    }
  }

  /** A composite that is read deeper than one call has one below it that is read one call less deep. */
  lemma NextLevel(db: Db, path: string, t: int) returns (base: string)
    requires Consistent(db) && IsComposite(db, path) && Ends(db, path, t, Bits) && DepthOf(db, path, t, Bits) > 1
    ensures IsComposite(db, base) && Ends(db, base, t, Bits) && DepthOf(db, base, t, Bits) == DepthOf(db, path, t, Bits) - 1
  {
    hide PartsOf, ReadParts, Lookup, Ends, DepthOf, Outcome;
    var depth := DepthOf(db, path, t, Bits);
    SourceKnown(db, path);
    assert Read(db, path, t, Bits, depth) == ReadWhole(db, path, t, Bits, depth);
    assert Read(db, path, t, Bits, depth - 1) == ReadWhole(db, path, t, Bits, depth - 1);
    assert Read(db, path, t, Bits, depth - 1).None? by { assert depth - 1 < depth; }
    var part := DeepPart(db, PartsOf(db, path), t, depth - 1);
    base := DeepComposite(db, part, t, depth - 1);
  }

  /** The composites that are read no deeper than this. */
  ghost function Shallow(db: Db, t: int, depth: nat): set<string>
    requires Consistent(db)
  {
    set p | p in db.variables && IsComposite(db, p) && Ends(db, p, t, Bits) && DepthOf(db, p, t, Bits) <= depth
  }

  lemma {:induction false} EveryLevel(db: Db, path: string, t: int, depth: nat)
    requires Consistent(db) && IsComposite(db, path) && Ends(db, path, t, Bits) && DepthOf(db, path, t, Bits) == depth
    ensures |Shallow(db, t, depth)| >= depth
    decreases depth
  {
    hide Ends, DepthOf;
    if depth == 1 {
      assert {path} <= Shallow(db, t, 1);
      Smaller({path}, Shallow(db, t, 1));
    } else if depth > 1 {
      var base := NextLevel(db, path, t);
      EveryLevel(db, base, t, depth - 1);
      var below := Shallow(db, t, depth - 1);
      assert path !in below && below + {path} <= Shallow(db, t, depth);
      Smaller(below + {path}, Shallow(db, t, depth));
    }
  }

  lemma {:induction false} Smaller(a: set<string>, b: set<string>)
    requires a <= b
    ensures |a| <= |b|
  {
    if a != {} {
      var x :| x in a;
      Smaller(a - {x}, b - {x});
    }
  }

  /**
   A read ends exactly when it goes no deeper than there are entries in the table, since each
   composite on the way down is one call less deep than the one around it.
   */
  lemma EndsIffWithinEntries(db: Db, path: string, t: int, style: Style)
    requires Consistent(db)
    ensures Ends(db, path, t, style) <==> Read(db, path, t, style, |db.variables|).Some?
  {
    hide ReadWhole, Lookup, LeafText, Outcome;
    if Ends(db, path, t, style) && Read(db, path, t, style, |db.variables|).None? {
      var depth: nat :| Read(db, path, t, style, depth).Some?;
      SourceKnown(db, path);
      var d := Lookup(db, path).value;
      var base := if d.Part? then d.source else path;
      WholesAlike(db, base, t, style, Bits, depth);
      WholesAlike(db, base, t, style, Bits, |db.variables|);
      BaseEnds(db, base, t, depth);
      DeeperIsSame(db, base, t, Bits, DepthOf(db, base, t, Bits), |db.variables|);
      assert Read(db, base, t, Bits, |db.variables|) == ReadWhole(db, base, t, Bits, |db.variables|) by { SourceKnown(db, base); }
    }
  }

  lemma BaseEnds(db: Db, base: string, t: int, depth: nat)
    requires Consistent(db) && IsComposite(db, base) && ReadWhole(db, base, t, Bits, depth).Some?
    ensures Ends(db, base, t, Bits) && DepthOf(db, base, t, Bits) <= |db.variables|
  {
    hide ReadWhole, Lookup, Ends, DepthOf;
    SourceKnown(db, base);
    assert Read(db, base, t, Bits, depth) == ReadWhole(db, base, t, Bits, depth);
    EndsWithin(db, base, t, Bits, depth);
    var least := DepthOf(db, base, t, Bits);
    EveryLevel(db, base, t, least);
    Smaller(Shallow(db, t, least), db.variables.Keys);
  }

  // --------------------------------------------------- an element that is not reached

  /** A composite m with a part m.a that cannot be read and an element m[0] that leads back. */
  function Guarded(): Db {
    Db(map["m" := Var(0, 0, 0, false, 0, 0, false), "m.a" := Var(1, 0, 0, false, 0, 0, false),
           "m[0][1]" := Var(2, 0, 0, false, 0, 0, true)],
       ["m", "m.a", "m[0][1]"], map["m" := ["m.a"]], map[], File(0, 10, false))
  }

  lemma GuardedParts()
    ensures Consistent(Guarded()) && PartsOf(Guarded(), "m") == ["m.a", "m[0]"]
  {
    hide UnsortedParts, SortParts;
    GuardedNamed();
    assert |"m.a"| == 3 && |"m"| == 1;
  }

  lemma GuardedNamed()
    ensures UnsortedParts(Guarded(), "m") == ["m.a", "m[0]"]
  {
    hide PartNamedBy, AddParts, AddAll;
    var order := Guarded().order;
    NoLongerNoPart("m", "m");
    DottedPart("m", "a", "");
    BracketPart("m", "0", "[1]");
    assert "m" + "." + "a" + "" == "m.a" && "m" + "." + "a" == "m.a";
    assert "m" + "[" + "0" + "]" == "m[0]" && "m" + "[" + "0" + "]" + "[1]" == "m[0][1]";
    AddFirst("m.a");
    AddPartsSnoc(["m.a"], "m", [], "m");
    AddPartsSnoc(["m.a"], "m", ["m"], "m.a");
    AddPartsSnoc(["m.a"], "m", ["m", "m.a"], "m[0][1]");
    assert [] + ["m"] == ["m"] && ["m"] + ["m.a"] == ["m", "m.a"] && ["m", "m.a"] + ["m[0][1]"] == order;
    assert |"m.a"| == 3 && |"m[0]"| == 4;
    assert AddOnce(["m.a"], "m[0]") == ["m.a", "m[0]"];
  }

  lemma AddFirst(value: string)
    ensures AddAll([], [value]) == [value]
  {
    assert [value][..0] == [];
  }

  lemma AddPartsSnoc(found: seq<string>, path: string, keys: seq<string>, key: string)
    ensures AddParts(found, path, []) == found
    ensures AddParts(found, path, keys + [key]) ==
      if PartNamedBy(path, key).None? then AddParts(found, path, keys)
      else AddOnce(AddParts(found, path, keys), PartNamedBy(path, key).value)
  {
    hide PartNamedBy;
    assert (keys + [key])[..|keys|] == keys;
  }

  /** The failure of m.a ends every read of m, although m[0] leads back. */
  lemma GuardedEnds(t: int, style: Style)
    ensures var db := Guarded();
      && Consistent(db) && LeadsBackAt(db, "m", 1)
      && Ends(db, "m", t, style) && Outcome(db, "m", t, style) == Err(UnsupportedType)
  {
    hide PartsOf, Lookup, Ends, Outcome, ParseRange;
    var db := Guarded();
    GuardedParts();
    ZeroInBrackets();
    assert "m" + "[" + "0" + "]" == "m[0]" && "[" + "0" + "]" == "[0]";
    assert |"m[0]"| == 4 && |"m.a"| == 3 && |"m"| == 1 && |"m[0][1]"| == 7;
    ElementLeadsBackIff(db, "m", "0", 1);
    SourceKnown(db, "m");
    SourceKnown(db, "m.a");
    var parts := ["m.a", "m[0]"];
    assert parts[..1] == ["m.a"] && ["m.a"][..0] == [];
    assert ReadParts(db, ["m.a"], t, style, 0) == Some(Err(UnsupportedType));
    PartsStop(db, parts, 1, t, style, 0);
    assert ReadWhole(db, "m", t, style, 1) == Some(Err(UnsupportedType));
    OutcomeIs(db, "m", t, style, 1);
  }

  /** When no part of any composite leads back, every read ends. */
  lemma EveryReadEnds(db: Db, path: string, t: int, radix: Radix)
    requires Consistent(db) && NothingLeadsBack(db)
    ensures Ends(db, path, t, Braces(radix))
  {
    hide Ends, Answerable, NothingLeadsBack, Outcome;
    EveryPathAnswerableIff(db);
    AnswerableEnds(db, path, t, radix);
  }
}
