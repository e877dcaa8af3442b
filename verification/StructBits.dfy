/**
 The bits of composite signals, and what a bit select of a composite yields: for a packed
 structure the bits its range names, for an unpacked array bits counted as if they were
 elements.
 */
module StructBits {
  import opened CText
  import opened Radix
  import opened Waveform
  import opened Database
  import opened Composite
  import opened PackedStruct

  // --------------------------------------------------- the bits are the leaves' bits

  /** Every part at any depth is to be found, and every composite has parts. */
  ghost predicate Complete(db: Db, path: string)
    requires Consistent(db) && IsComposite(db, path) && Grounded(db, path)
    decreases Room(db, path), 1
  {
    PartsOf(db, path) != [] && CompleteParts(db, path, PartsOf(db, path))
  }

  ghost predicate CompleteParts(db: Db, path: string, parts: seq<string>)
    requires Consistent(db) && IsComposite(db, path) && Grounded(db, path)
    requires forall p :: p in parts ==> p in PartsOf(db, path)
    decreases Room(db, path), 0, |parts|
  {
    parts == [] ||
    (GroundedPart(db, path, parts[|parts|-1]);
     CompleteParts(db, path, parts[..|parts|-1])
     && if IsComposite(db, parts[|parts|-1]) then Complete(db, parts[|parts|-1]) else Lookup(db, parts[|parts|-1]).Ok?)
  }

  predicate AllRead(db: Db, leaves: seq<Descriptor>, t: int) {
    forall k :: 0 <= k < |leaves| ==> LeafText(db, leaves[k], t, Bin).Ok?
  }

  /** The binary texts of signals, one behind the other. */
  function LeafBits(db: Db, leaves: seq<Descriptor>, t: int): string
    requires AllRead(db, leaves, t)
  {
    if leaves == [] then "" else LeafBits(db, leaves[..|leaves|-1], t) + LeafText(db, leaves[|leaves|-1], t, Bin).value
  }

  lemma {:induction false} LeafBitsConcat(db: Db, a: seq<Descriptor>, b: seq<Descriptor>, t: int)
    ensures AllRead(db, a + b, t) <==> (AllRead(db, a, t) && AllRead(db, b, t))
    ensures AllRead(db, a + b, t) ==> LeafBits(db, a + b, t) == LeafBits(db, a, t) + LeafBits(db, b, t)
    decreases |b|
  {
    hide LeafText;
    if b == [] {
      assert a + b == a;
    } else {
      var front, last := b[..|b|-1], b[|b|-1];
      assert (a + b)[..|a + b|-1] == a + front && (a + b)[|a + b|-1] == last;
      LeafBitsConcat(db, a, front, t);
      assert a + front + [last] == a + b && front + [last] == b;
      AllReadSnoc(db, a + front, last, t);
      AllReadSnoc(db, front, last, t);
    }
  }

  lemma AllReadSnoc(db: Db, leaves: seq<Descriptor>, last: Descriptor, t: int)
    ensures AllRead(db, leaves + [last], t) <==> (AllRead(db, leaves, t) && LeafText(db, last, t, Bin).Ok?)
  {
    hide LeafText;
    var all := leaves + [last];
    assert all[|leaves|] == last && forall k :: 0 <= k < |leaves| ==> all[k] == leaves[k];
  }

  /** What has been read of some parts is what their leaves show. */
  ghost predicate ReadsAs(db: Db, r: Result<string>, complete: bool, leaves: seq<Descriptor>, t: int) {
    && (r.Ok? <==> complete && AllRead(db, leaves, t))
    && (r.Ok? ==> r.value == LeafBits(db, leaves, t))
  }

  lemma SimpleReadsAs(db: Db, path: string, t: int)
    requires Consistent(db)
    ensures ReadsAs(db, SimpleText(db, path, t, Bin), Lookup(db, path).Ok?, SimpleLeaf(db, path), t)
  {
    hide Lookup, LeafText;
    if Lookup(db, path).Ok? {
      var d := Lookup(db, path).value;
      assert [d][0] == d && [d][..0] == [];
      assert AllRead(db, [d], t) <==> LeafText(db, d, t, Bin).Ok?;
      if LeafText(db, d, t, Bin).Ok? {
        NothingRead(db, t);
        assert LeafBits(db, [d], t) == LeafBits(db, [], t) + LeafText(db, d, t, Bin).value;
      }
    }
  }

  /**
   The bits of a composite can be read exactly when every part is to be found and every signal
   below can be read; they are the signals' bits, one behind the other.
   */
  lemma {:induction false} BitsAreLeafBits(db: Db, path: string, t: int)
    requires Consistent(db) && IsComposite(db, path) && Grounded(db, path)
    ensures ReadsAs(db, BitsOf(db, path, t), Complete(db, path), LeavesOf(db, path), t)
    decreases Room(db, path), 1
  {
    hide PartsOf, PartBits, LeavesIn, CompleteParts, Grounded, Room, ReadsAs;
    BitsStep(db, path, t);
    PartBitsAreLeafBits(db, path, PartsOf(db, path), t);
    Unread(db, t);
  }

  lemma Unread(db: Db, t: int)
    ensures forall f, leaves :: ReadsAs(db, Err(f), false, leaves, t)
  {
  }

  lemma {:induction false} PartBitsAreLeafBits(db: Db, path: string, parts: seq<string>, t: int)
    requires Consistent(db) && IsComposite(db, path) && Grounded(db, path)
    requires forall p :: p in parts ==> p in PartsOf(db, path)
    ensures ReadsAs(db, PartBits(db, path, parts, t), CompleteParts(db, path, parts), LeavesIn(db, path, parts), t)
    decreases Room(db, path), 0, |parts|
  {
    hide PartsOf, BitsOf, SimpleText, LeavesOf, SimpleLeaf, Complete, Grounded, Room, Lookup, LeafBits, AllRead;
    if parts == [] {
      NothingRead(db, t);
    } else {
      var n := |parts| - 1;
      var part := parts[n];
      GroundedPart(db, path, part);
      PartBitsAreLeafBits(db, path, parts[..n], t);
      var here := if IsComposite(db, part) then LeavesOf(db, part) else SimpleLeaf(db, part);
      if IsComposite(db, part) {
        BitsAreLeafBits(db, part, t);
      } else {
        SimpleReadsAs(db, part, t);
      }
      LeafBitsConcat(db, LeavesIn(db, path, parts[..n]), here, t);
    }
  }

  lemma NothingRead(db: Db, t: int)
    ensures AllRead(db, [], t) && LeafBits(db, [], t) == ""
  {
  }

  // ------------------------------------------------------------------ widths

  /** As many bits as the declaration, or the select, says. */
  function LeafWidth(d: Descriptor): nat {
    if d.Part? then d.select.Width() else Span(d.v)
  }

  function LeafWidths(leaves: seq<Descriptor>): nat {
    if leaves == [] then 0 else LeafWidths(leaves[..|leaves|-1]) + LeafWidth(leaves[|leaves|-1])
  }

  /** At time t every signal can be read and shows as many bits as it should. */
  predicate AsDeclared(db: Db, leaves: seq<Descriptor>, t: int) {
    forall k :: 0 <= k < |leaves| ==>
      LeafText(db, leaves[k], t, Bin).Ok? && |LeafText(db, leaves[k], t, Bin).value| == LeafWidth(leaves[k])
  }

  lemma {:induction false} DeclaredBits(db: Db, leaves: seq<Descriptor>, t: int)
    requires AsDeclared(db, leaves, t)
    ensures AllRead(db, leaves, t) && |LeafBits(db, leaves, t)| == LeafWidths(leaves)
    decreases |leaves|
  {
    hide LeafText, LeafWidth;
    if leaves != [] {
      DeclaredBits(db, leaves[..|leaves|-1], t);
    }
  }

  /** The bits of any composite are as many as its signals are wide together. */
  lemma BitsAreSummedWidths(db: Db, path: string, t: int)
    requires Consistent(db) && IsComposite(db, path) && Grounded(db, path) && Complete(db, path)
    requires AsDeclared(db, LeavesOf(db, path), t)
    ensures BitsOf(db, path, t).Ok? && |BitsOf(db, path, t).value| == LeafWidths(LeavesOf(db, path))
  {
    hide PartsOf, BitsOf, LeavesOf, Complete, Grounded, AsDeclared, AllRead, LeafBits, LeafWidths;
    BitsAreLeafBits(db, path, t);
    DeclaredBits(db, LeavesOf(db, path), t);
  }

  lemma {:induction false} WidthsConcat(a: seq<Descriptor>, b: seq<Descriptor>)
    ensures LeafWidths(a + b) == LeafWidths(a) + LeafWidths(b)
    decreases |b|
  {
    hide LeafWidth;
    if b == [] {
      assert a + b == a;
    } else {
      assert (a + b)[..|a + b|-1] == a + b[..|b|-1];
      WidthsConcat(a, b[..|b|-1]);
    }
  }

  /** Packed structures and entries that can be read, all the way down. */
  ghost predicate AllPacked(db: Db, path: string)
    requires Consistent(db) && IsComposite(db, path) && Grounded(db, path)
    decreases Room(db, path)
  {
    && db.variables[path].packed && PartsOf(db, path) != []
    && forall p :: p in PartsOf(db, path) ==>
         (p in db.variables
          && (GroundedPart(db, path, p); if IsComposite(db, p) then AllPacked(db, p) else !db.variables[p].packed))
  }

  /** For a structure packed all the way down that sum is its real width. */
  lemma {:induction false} PackedWidth(db: Db, path: string)
    requires Consistent(db) && IsComposite(db, path) && Grounded(db, path) && AllPacked(db, path)
    ensures Complete(db, path) && LeafWidths(LeavesOf(db, path)) == TrueWidth(db, path)
    decreases Room(db, path), 1
  {
    hide PartsOf, Grounded, Room, CompleteParts, LeavesIn, TrueWidths;
    PackedWidths(db, path, PartsOf(db, path));
    SomeWidth(db, path, PartsOf(db, path));
  }

  lemma SomeWidth(db: Db, path: string, parts: seq<string>)
    requires Consistent(db) && path in db.variables && parts != []
    requires forall p :: p in parts ==> p in PartsOf(db, path) && p in db.variables
    ensures TrueWidths(db, path, parts) >= 1
  {
    hide PartsOf, Room, TrueWidth;
    TrueWidthPositive(db, parts[|parts|-1]);
  }

  lemma {:induction false} PackedWidths(db: Db, path: string, parts: seq<string>)
    requires Consistent(db) && IsComposite(db, path) && Grounded(db, path) && AllPacked(db, path)
    requires forall p :: p in parts ==> p in PartsOf(db, path)
    ensures CompleteParts(db, path, parts) && LeafWidths(LeavesIn(db, path, parts)) == TrueWidths(db, path, parts)
    decreases Room(db, path), 0, |parts|
  {
    hide PartsOf, Grounded, Room, Complete, LeavesOf, TrueWidth, Lookup, LeafWidths;
    if parts == [] {
      NoWidth();
    } else {
      var n := |parts| - 1;
      var part := parts[n];
      GroundedPart(db, path, part);
      PackedWidths(db, path, parts[..n]);
      var here := if IsComposite(db, part) then LeavesOf(db, part) else SimpleLeaf(db, part);
      if IsComposite(db, part) {
        PackedWidth(db, part);
      } else {
        EntryWidth(db, part);
      }
      WidthsConcat(LeavesIn(db, path, parts[..n]), here);
    }
  }

  lemma NoWidth()
    ensures LeafWidths([]) == 0
  {
  }

  lemma EntryWidth(db: Db, path: string)
    requires Consistent(db) && path in db.variables && !db.variables[path].packed
    ensures Lookup(db, path).Ok? && LeafWidths(SimpleLeaf(db, path)) == TrueWidth(db, path)
  {
    hide PartsOf, Lookup, Room, TrueWidths;
    SourceKnown(db, path);
    var d := Lookup(db, path).value;
    assert [d][..0] == [] && [d][0] == d;
    NoWidth();
  }

  // ------------------------------------------------------- selects of a structure

  /** The tables with the ranges of packed structures filled in. */
  function Ranged(db: Db): Db
    requires Consistent(db)
  {
    db.(variables := Final(db))
  }

  lemma RangedKeeps(db: Db)
    requires Consistent(db)
    ensures Consistent(Ranged(db)) && forall path :: PartsOf(Ranged(db), path) == PartsOf(db, path)
    ensures forall key :: key in db.variables ==> key in Final(db) && Redeclared(db.variables[key], Final(db)[key])
  {
    hide PartsOf, Finalized;
    forall key | key in db.variables ensures Redeclared(db.variables[key], Final(db)[key]) {
      FinalizedRedeclares(db, |db.order|, key);
    }
    forall path ensures Consistent(Ranged(db)) && PartsOf(Ranged(db), path) == PartsOf(db, path) {
      SamePartsAfter(db, Final(db), path);
    }
  }

  lemma {:induction false} TrueWidthUnchanged(db: Db, path: string)
    requires Consistent(db) && Consistent(Ranged(db)) && path in db.variables && path in Ranged(db).variables
    ensures TrueWidth(Ranged(db), path) == TrueWidth(db, path)
    decreases Room(db, path), 1
  {
    hide PartsOf, Finalized, LongestName, Room, TrueWidths;
    RangedKeeps(db);
    if db.variables[path].packed {
      TrueWidthsUnchanged(db, path, PartsOf(db, path));
    }
  }

  lemma {:induction false} TrueWidthsUnchanged(db: Db, path: string, parts: seq<string>)
    requires Consistent(db) && Consistent(Ranged(db)) && path in db.variables && path in Ranged(db).variables
    requires PartsOf(Ranged(db), path) == PartsOf(db, path) && forall p :: p in parts ==> p in PartsOf(db, path)
    ensures TrueWidths(Ranged(db), path, parts) == TrueWidths(db, path, parts)
    decreases Room(db, path), 0, |parts|
  {
    hide PartsOf, Finalized, LongestName, Room, TrueWidth;
    if parts != [] {
      var last := parts[|parts|-1];
      PartHasLessRoom(db, path, last);
      TrueWidthsUnchanged(db, path, parts[..|parts|-1]);
      if last in db.variables {
        TrueWidthUnchanged(db, last);
      }
    }
  }

  /** A structure packed all the way down, whose signals read as declared at time t, behind a bit select. */
  ghost predicate PackedBehind(db: Db, path: string, t: int)
    requires Consistent(db) && Answerable(db, path)
  {
    && CompositeBehind(db, path).Some? && path !in db.variables
    && (BehindIsComposite(db, path); AllPacked(db, CompositeBehind(db, path).value)
        && AsDeclared(db, LeavesOf(db, CompositeBehind(db, path).value), t))
  }

  /** A select of any packed structure counts from the range it was given and can reach the bits there are. */
  lemma PackedSelect(db: Db, path: string, t: int, radix: Radix)
    requires Consistent(db) && Distinct(db.order) && Unranged(db) && Consistent(Ranged(db))
    requires Answerable(Ranged(db), path) && PackedBehind(Ranged(db), path, t)
    ensures
      var source := CompositeBehind(Ranged(db), path).value;
      var select := SelectBehind(Ranged(db), path);
      && source in db.variables
      && select.baseLeft == FinalWidth(db, source) - 1 && select.baseRight == 0
      && (PathText(Ranged(db), path, t, radix).Ok? <==> select.Fits(TrueWidth(db, source)))
  {
    hide PartsOf, TrueWidth, FinalWidth, Room, LongestName, Finalized, Lookup, WholeText, BitsOf, Converted, LeavesOf,
      AllPacked, Complete, AsDeclared, Grounded, Projected;
    var after := Ranged(db);
    var source := CompositeBehind(after, path).value;
    BehindIsComposite(after, path);
    RangedKeeps(db);
    PackedWidth(after, source);
    BitsAreSummedWidths(after, source, t);
    TrueWidthUnchanged(db, source);
    PackedEntry(after, source);
    ExactIffPartsCountRight(db, source);
    SelectFromEntry(after, path);
    SelectReadsIff(after, path, t, radix);
  }

  lemma PackedEntry(db: Db, path: string)
    requires Consistent(db) && IsComposite(db, path) && Grounded(db, path) && AllPacked(db, path)
    ensures db.variables[path].packed
  {
    hide PartsOf, Grounded;
  }

  /** Where a select of a composite takes its base range from. */
  lemma SelectFromEntry(db: Db, path: string)
    requires Consistent(db) && CompositeBehind(db, path).Some? && path !in db.variables
    ensures
      var source := CompositeBehind(db, path).value;
      var select := SelectBehind(db, path);
      && source in db.variables
      && var v := db.variables[source];
         && select.baseLeft == (if v.packed then v.packedLeft else v.left)
         && select.baseRight == (if v.packed then v.packedRight else v.right)
  {
    hide PartsOf, ParseRange, LongestUpTo;
    SourceKnown(db, path);
    LongestIsLongest(db, path, |path|);
  }

  /**
   In tables in which every packed part has its turn in place, a select of a packed structure
   can be read exactly when both its ends lie inside the structure.
   */
  lemma SelectReadableIffInside(db: Db, path: string, t: int, radix: Radix)
    requires Consistent(db) && Distinct(db.order) && Unranged(db) && Consistent(Ranged(db))
    requires Answerable(Ranged(db), path) && PackedBehind(Ranged(db), path, t)
    requires CompositeBehind(Ranged(db), path).value in db.variables
    requires InPlace(db, CompositeBehind(Ranged(db), path).value)
    ensures
      var width := TrueWidth(db, CompositeBehind(Ranged(db), path).value);
      var select := SelectBehind(Ranged(db), path);
      PathText(Ranged(db), path, t, radix).Ok? <==> 0 <= select.left < width && 0 <= select.right < width
  {
    hide PartsOf, TrueWidth, FinalWidth, Room, Finalized, Lookup, PathText, Answerable, InPlace, AllPacked, AsDeclared;
    PackedSelect(db, path, t, radix);
    ExactIffInPlace(db, CompositeBehind(Ranged(db), path).value);
  }

  // ---------------------------------------------------------- selects of an array

  /** The bits of one part. */
  ghost function ElementBits(db: Db, path: string, part: string, t: int): Result<string>
    requires Consistent(db) && IsComposite(db, path) && Grounded(db, path) && part in PartsOf(db, path)
  {
    GroundedPart(db, path, part);
    if IsComposite(db, part) then BitsOf(db, part, t) else SimpleText(db, part, t, Bin)
  }

  /** Elements that all show as many bits. */
  ghost predicate Uniform(db: Db, path: string, parts: seq<string>, t: int, width: nat)
    requires Consistent(db) && IsComposite(db, path) && Grounded(db, path)
    requires forall p :: p in parts ==> p in PartsOf(db, path)
  {
    forall e :: 0 <= e < |parts| ==>
      ElementBits(db, path, parts[e], t).Ok? && |ElementBits(db, path, parts[e], t).value| == width
  }

  /** The e-th run of bits of that width. */
  function Chunk(bits: string, e: nat, width: nat): string {
    if e * width + width <= |bits| then bits[e * width..e * width + width] else ""
  }

  lemma Less(e: nat, n: nat, width: nat)
    ensures e < n ==> e * width + width <= n * width
    ensures n <= e ==> n * width <= e * width
  {
    if e < n {
      NoMore(e + 1, n, width);
      assert (e + 1) * width == e * width + width;
    } else {
      NoMore(n, e, width);
    }
  }

  lemma {:induction false} NoMore(a: nat, b: nat, width: nat)
    requires a <= b
    ensures a * width <= b * width
    decreases b
  {
    if a < b {
      NoMore(a, b - 1, width);
      assert (b - 1) * width + width == b * width;
    }
  }

  /** The whole text is as long as all elements, and its e-th run of bits is element number e. */
  lemma {:induction false} ElementsInRow(db: Db, path: string, parts: seq<string>, t: int, width: nat, e: nat)
    requires Consistent(db) && IsComposite(db, path) && Grounded(db, path)
    requires (forall p :: p in parts ==> p in PartsOf(db, path)) && Uniform(db, path, parts, t, width)
    ensures PartBits(db, path, parts, t).Ok? && |PartBits(db, path, parts, t).value| == |parts| * width
    ensures e < |parts| ==> Chunk(PartBits(db, path, parts, t).value, e, width) == ElementBits(db, path, parts[e], t).value
    decreases |parts|
  {
    hide PartsOf, Grounded, BitsOf, SimpleText, PartBits, Chunk;
    if parts == [] {
      NoPartTexts(db, path, t, Bin);
    } else {
      var n := |parts| - 1;
      assert parts[..n+1] == parts;
      PartBitsStep(db, path, parts, n, t);
      ElementsInRow(db, path, parts[..n], t, width, e);
      var front, last := PartBits(db, path, parts[..n], t).value, ElementBits(db, path, parts[n], t).value;
      assert e < n ==> parts[..n][e] == parts[e];
      OneMoreChunk(front, last, n, width, e);
    }
  }

  lemma OneMoreChunk(front: string, last: string, n: nat, width: nat, e: nat)
    requires |front| == n * width && |last| == width
    ensures |front + last| == (n + 1) * width
    ensures e < n ==> Chunk(front + last, e, width) == Chunk(front, e, width)
    ensures e == n ==> Chunk(front + last, e, width) == last
  {
    Less(e, n, width);
    assert (n + 1) * width == n * width + width;
    if e < n {
      assert (front + last)[e * width..e * width + width] == front[e * width..e * width + width];
    }
    if e == n {
      assert e * width == |front|;
      assert (front + last)[|front|..|front| + width] == last;
    }
  }

  /** The array base, not packed, stands behind the select, and its elements show as many bits each. */
  ghost predicate ArrayBehind(db: Db, path: string, base: string, t: int, width: nat)
    requires Consistent(db) && Answerable(db, path)
  {
    && CompositeBehind(db, path) == Some(base) && path !in db.variables
    && (BehindIsComposite(db, path); !db.variables[base].packed && PartsOf(db, base) != []
        && Uniform(db, base, PartsOf(db, base), t, width))
  }

  /** A select of a composite can be read exactly when it fits into the bits there are. */
  lemma SelectReadsIff(db: Db, path: string, t: int, radix: Radix)
    requires Consistent(db) && Answerable(db, path) && CompositeBehind(db, path).Some? && path !in db.variables
    requires IsComposite(db, CompositeBehind(db, path).value) && Grounded(db, CompositeBehind(db, path).value)
    requires BitsOf(db, CompositeBehind(db, path).value, t).Ok?
    ensures PathText(db, path, t, radix).Ok? <==>
      SelectBehind(db, path).Fits(|BitsOf(db, CompositeBehind(db, path).value, t).value|)
  {
    hide PartsOf, WholeText, BitsOf, Lookup, Grounded, SelectBehind, CompositeBehind, Projected, Converted;
    var bits := BitsOf(db, CompositeBehind(db, path).value, t).value;
    ProjectedIff(SelectBehind(db, path), bits);
  }

  lemma ProjectedIff(select: Select, bits: string)
    ensures Projected(select, bits).Some? <==> select.Fits(|bits|)
  {
  }

  /** How many bits all the elements have together. */
  function AllBits(db: Db, base: string, width: nat): nat
    requires Consistent(db)
  {
    |PartsOf(db, base)| * width
  }

  lemma ArrayIsComposite(db: Db, path: string, base: string, t: int, width: nat)
    requires Consistent(db) && Answerable(db, path) && ArrayBehind(db, path, base, t, width)
    ensures IsComposite(db, base) && Grounded(db, base) && CompositeBehind(db, path) == Some(base) && path !in db.variables
  {
    hide PartsOf, Lookup, Grounded, Uniform;
    BehindIsComposite(db, path);
  }

  /** It counts from the array's own range, but reaches as far as the elements have bits. */
  lemma ArraySelectReach(db: Db, path: string, base: string, t: int, width: nat)
    requires Consistent(db) && Answerable(db, path) && ArrayBehind(db, path, base, t, width)
    ensures base in db.variables && CompositeBehind(db, path).Some? && path !in db.variables
    ensures
      var select := SelectBehind(db, path);
      && select.baseLeft == db.variables[base].left && select.baseRight == db.variables[base].right
      && (PathText(db, path, t, Bin).Ok? <==> select.Fits(AllBits(db, base, width)))
  {
    ArrayIsComposite(db, path, base, t, width);
    hide PartsOf, PathText, BitsOf, PartBits, Lookup, Grounded, Uniform, SelectBehind, CompositeBehind;
    BehindIsComposite(db, path);
    SelectFromEntry(db, path);
    BitsStep(db, base, t);
    ElementsInRow(db, base, PartsOf(db, base), t, width, 0);
    SelectReadsIff(db, path, t, Bin);
  }

  /**
   A select of an array counts bits, although its range counts elements: where index i is the
   n-th of the range, it picks bit n of the whole text, which is bit r of element e for
   n = e * width + r. So it picks the element asked for only when elements are one bit wide.
   */
  lemma ArraySelectCountsBits(db: Db, path: string, base: string, t: int, width: nat, k: nat, e: nat, r: nat)
    requires Consistent(db) && Answerable(db, path) && ArrayBehind(db, path, base, t, width)
    requires PathText(db, path, t, Bin).Ok? && k < SelectBehind(db, path).Width() && r < width
    requires SelectBehind(db, path).Offset(SelectBehind(db, path).left + k * SelectBehind(db, path).Step()) == e * width + r
    ensures |PathText(db, path, t, Bin).value| == SelectBehind(db, path).Width() && e < |PartsOf(db, base)|
    ensures IsComposite(db, base) && Grounded(db, base)
    ensures PathText(db, path, t, Bin).value[k] == ElementBits(db, base, PartsOf(db, base)[e], t).value[r]
  {
    hide PartsOf, WholeText, BitsOf, PartBits, Lookup, Grounded, Uniform, ElementBits, SelectBehind, Chunk;
    BehindIsComposite(db, path);
    var select := SelectBehind(db, path);
    BitsStep(db, base, t);
    ElementsInRow(db, base, PartsOf(db, base), t, width, e);
    SelectInside(select, |BitsOf(db, base, t).value|, k);
    Less(e, |PartsOf(db, base)|, width);
    BitOfChunk(BitsOf(db, base, t).value, e, width, r);
  }

  lemma SelectInside(select: Select, width: nat, k: nat)
    requires select.Fits(width) && k < select.Width()
    ensures 0 <= select.Offset(select.left + k * select.Step()) < width
  {
  }

  lemma BitOfChunk(bits: string, e: nat, width: nat, r: nat)
    requires e * width + width <= |bits| && r < width
    ensures |Chunk(bits, e, width)| == width && Chunk(bits, e, width)[r] == bits[e * width + r]
  {
  }
}
