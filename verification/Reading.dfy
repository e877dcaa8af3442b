/**
 The point query on any path, recursive through composites. The recursion follows names, and
 a part that is a bit select of a composite is read by reading that composite, so nothing in
 the code bounds it. Here the depth of the calls is a parameter: a read that needs more is
 not finished, and a read ends when some depth suffices.
 */
module Reading {
  import opened CText
  import opened Radix
  import opened Waveform
  import opened Database
  import opened Composite

  /** A composite as text, in braces and with commas, or as bits. */
  datatype Style = Braces(radix: Radix) | Bits
  {
    function Base(): Radix {
      if Braces? then radix else Bin
    }
  }

  /** What has been read; None while it is not finished. */
  type Progress = Option<Result<string>>

  predicate Fine(r: Progress) {
    r.Some? && r.value.Ok?
  }

  predicate Failed(r: Progress) {
    r.Some? && r.value.Err?
  }

  function Read(db: Db, path: string, t: int, style: Style, depth: nat): Progress
    requires Consistent(db)
    decreases depth, 1, 0
  {
    match Lookup(db, path)
    case Err(f) => Some(Err(f))
    case Ok(d) =>
      if d.v.id != 0 then Some(LeafText(db, d, t, style.Base()))
      else if d.Whole? then ReadWhole(db, path, t, style, depth)
      else Selected(d.select, style.Base(), ReadWhole(db, d.source, t, Bits, depth))
  }

  function ReadWhole(db: Db, path: string, t: int, style: Style, depth: nat): Progress
    requires Consistent(db)
    decreases depth, 0, 0
  {
    if depth == 0 then None
    else if PartsOf(db, path) == [] then Some(Err(UnsupportedType))
    else Enclosed(style, ReadParts(db, PartsOf(db, path), t, style, depth - 1))
  }

  /** The parts in order, up to the first that is not finished or fails. */
  function ReadParts(db: Db, parts: seq<string>, t: int, style: Style, depth: nat): Progress
    requires Consistent(db)
    decreases depth, 2, |parts|
  {
    if parts == [] then Some(Ok("")) else
    var n := |parts| - 1;
    var front := ReadParts(db, parts[..n], t, style, depth);
    if !Fine(front) then front else Joined(style, front.value.value, n, Read(db, parts[n], t, style, depth))
  }

  function Selected(select: Select, radix: Radix, bits: Progress): Progress {
    if !Fine(bits) then bits else
    var part := Projected(select, bits.value.value);
    Some(if part.None? then Err(SignalNotFound) else Ok(Converted(part.value, radix)))
  }

  function Enclosed(style: Style, text: Progress): Progress {
    if Fine(text) && style.Braces? then Some(Ok("{" + text.value.value + "}")) else text
  }

  function Joined(style: Style, front: string, n: nat, last: Progress): Progress {
    if Fine(last) then Some(Ok(front + (if style.Braces? && n > 0 then "," else "") + last.value.value)) else last
  }

  // ------------------------------------------------------------------ going deeper

  /** What is finished at one depth is the same at any greater one. */
  lemma {:induction false} DeeperIsSame(db: Db, path: string, t: int, style: Style, depth: nat, more: nat)
    requires Consistent(db) && depth <= more
    ensures Read(db, path, t, style, depth).Some? ==> Read(db, path, t, style, more) == Read(db, path, t, style, depth)
    decreases depth, 1, 0
  {
    hide Lookup, LeafText, ReadWhole, Converted, Projected;
    DeeperWhole(db, path, t, style, depth, more);
    if Lookup(db, path).Ok? && Lookup(db, path).value.Part? {
      DeeperWhole(db, Lookup(db, path).value.source, t, Bits, depth, more);
    }
  }

  lemma {:induction false} DeeperWhole(db: Db, path: string, t: int, style: Style, depth: nat, more: nat)
    requires Consistent(db) && depth <= more
    ensures ReadWhole(db, path, t, style, depth).Some? ==>
      ReadWhole(db, path, t, style, more) == ReadWhole(db, path, t, style, depth)
    decreases depth, 0, 0
  {
    hide PartsOf, ReadParts;
    if depth > 0 {
      DeeperParts(db, PartsOf(db, path), t, style, depth - 1, more - 1);
    }
  }

  lemma {:induction false} DeeperParts(db: Db, parts: seq<string>, t: int, style: Style, depth: nat, more: nat)
    requires Consistent(db) && depth <= more
    ensures ReadParts(db, parts, t, style, depth).Some? ==>
      ReadParts(db, parts, t, style, more) == ReadParts(db, parts, t, style, depth)
    decreases depth, 2, |parts|
  {
    hide Read;
    if parts != [] {
      var n := |parts| - 1;
      DeeperParts(db, parts[..n], t, style, depth, more);
      DeeperIsSame(db, parts[n], t, style, depth, more);
    }
  }

  // -------------------------------------------------------------- reads that end

  ghost predicate Ends(db: Db, path: string, t: int, style: Style)
    requires Consistent(db)
  {
    exists depth: nat :: Read(db, path, t, style, depth).Some?
  }

  /** What a read that ends comes to. */
  ghost function Outcome(db: Db, path: string, t: int, style: Style): Result<string>
    requires Consistent(db) && Ends(db, path, t, style)
  {
    var depth: nat :| Read(db, path, t, style, depth).Some?;
    Read(db, path, t, style, depth).value
  }

  lemma OutcomeIs(db: Db, path: string, t: int, style: Style, depth: nat)
    requires Consistent(db) && Read(db, path, t, style, depth).Some?
    ensures Ends(db, path, t, style) && Read(db, path, t, style, depth) == Some(Outcome(db, path, t, style))
  {
    hide Read;
    var other: nat :| Read(db, path, t, style, other).Some? && Outcome(db, path, t, style) == Read(db, path, t, style, other).value;
    if other <= depth {
      DeeperIsSame(db, path, t, style, other, depth);
    } else {
      DeeperIsSame(db, path, t, style, depth, other);
    }
  }

  /** How deep a read that ends has to go. */
  ghost function DepthOf(db: Db, path: string, t: int, style: Style): (depth: nat)
    requires Consistent(db) && Ends(db, path, t, style)
    ensures Read(db, path, t, style, depth) == Some(Outcome(db, path, t, style))
    ensures forall less: nat :: less < depth ==> Read(db, path, t, style, less).None?
  {
    var depth: nat :| Read(db, path, t, style, depth).Some?;
    var least := Least(db, path, t, style, depth);
    OutcomeIs(db, path, t, style, least);
    least
  }

  ghost function Least(db: Db, path: string, t: int, style: Style, depth: nat): (least: nat)
    requires Consistent(db) && Read(db, path, t, style, depth).Some?
    ensures Read(db, path, t, style, least).Some?
    ensures forall less: nat :: less < least ==> Read(db, path, t, style, less).None?
    decreases depth
  {
    if depth > 0 && Read(db, path, t, style, depth - 1).Some? then Least(db, path, t, style, depth - 1) else
    NotBefore(db, path, t, style, depth);
    depth
  }

  lemma NotBefore(db: Db, path: string, t: int, style: Style, depth: nat)
    requires Consistent(db) && (depth > 0 ==> Read(db, path, t, style, depth - 1).None?)
    ensures forall less: nat :: less < depth ==> Read(db, path, t, style, less).None?
  {
    hide Read;
    forall less: nat | less < depth ensures Read(db, path, t, style, less).None? {
      DeeperIsSame(db, path, t, style, less, depth - 1);
    }
  }

  lemma EndsWithin(db: Db, path: string, t: int, style: Style, depth: nat)
    requires Consistent(db) && Read(db, path, t, style, depth).Some?
    ensures Ends(db, path, t, style) && DepthOf(db, path, t, style) <= depth
  {
    hide Read;
    OutcomeIs(db, path, t, style, depth);
  }

  // --------------------------------------------------------------------- the calls

  /** Some depth is enough for the whole, and one less for its parts. */
  lemma WholeDepth(db: Db, path: string, t: int, style: Style)
    requires Consistent(db) && IsComposite(db, path) && Ends(db, path, t, style)
    ensures DepthOf(db, path, t, style) > 0
    ensures Some(Outcome(db, path, t, style)) ==
      if PartsOf(db, path) == [] then Some(Err(UnsupportedType))
      else Enclosed(style, ReadParts(db, PartsOf(db, path), t, style, DepthOf(db, path, t, style) - 1))
  {
    hide PartsOf, ReadParts, Lookup, DepthOf, Outcome;
    SourceKnown(db, path);
    var depth := DepthOf(db, path, t, style);
    assert Read(db, path, t, style, depth) == ReadWhole(db, path, t, style, depth);
  }

  lemma PartsStep(db: Db, parts: seq<string>, i: nat, t: int, style: Style, depth: nat)
    requires Consistent(db) && i < |parts|
    ensures parts[..0] == [] && ReadParts(db, [], t, style, depth) == Some(Ok(""))
    ensures ReadParts(db, parts[..i+1], t, style, depth) ==
      var front := ReadParts(db, parts[..i], t, style, depth);
      if !Fine(front) then front else Joined(style, front.value.value, i, Read(db, parts[i], t, style, depth))
  {
    hide Read;
    assert parts[..i+1][..i] == parts[..i];
  }

  /** The first part that is not finished or fails decides. */
  lemma {:induction false} PartsStop(db: Db, parts: seq<string>, i: nat, t: int, style: Style, depth: nat)
    requires Consistent(db) && i <= |parts| && !Fine(ReadParts(db, parts[..i], t, style, depth))
    ensures ReadParts(db, parts, t, style, depth) == ReadParts(db, parts[..i], t, style, depth)
    decreases |parts| - i
  {
    hide ReadParts;
    if i == |parts| {
      assert parts[..i] == parts;
    } else {
      PartsStep(db, parts, i, t, style, depth);
      PartsStop(db, parts, i + 1, t, style, depth);
    }
  }

  /** The next part of a composite that can be read so far ends too, and does not go as deep. */
  lemma NextPart(db: Db, path: string, i: nat, t: int, style: Style)
    requires Consistent(db) && IsComposite(db, path) && Ends(db, path, t, style) && i < |PartsOf(db, path)|
    requires DepthOf(db, path, t, style) > 0
    requires Fine(ReadParts(db, PartsOf(db, path)[..i], t, style, DepthOf(db, path, t, style) - 1))
    ensures
      var parts, depth := PartsOf(db, path), DepthOf(db, path, t, style);
      var part := parts[i];
      && Ends(db, part, t, style) && DepthOf(db, part, t, style) < depth
      && ReadParts(db, parts[..i+1], t, style, depth - 1)
         == Joined(style, ReadParts(db, parts[..i], t, style, depth - 1).value.value, i, Some(Outcome(db, part, t, style)))
      && (Outcome(db, part, t, style).Err? ==> Outcome(db, path, t, style) == Err(Outcome(db, part, t, style).fault))
  {
    hide PartsOf, Read, ReadParts, DepthOf, Outcome, Ends;
    var parts, depth := PartsOf(db, path), DepthOf(db, path, t, style);
    WholeDepth(db, path, t, style);
    PartsStep(db, parts, i, t, style, depth - 1);
    if !Fine(ReadParts(db, parts[..i+1], t, style, depth - 1)) {
      PartsStop(db, parts, i + 1, t, style, depth - 1);
    }
    EndsWithin(db, parts[i], t, style, depth - 1);
    OutcomeIs(db, parts[i], t, style, depth - 1);
  }

  /** A select of a composite goes as deep as the composite it is a select of. */
  lemma SelectDepth(db: Db, path: string, t: int, style: Style)
    requires Consistent(db) && Ends(db, path, t, style)
    requires Lookup(db, path).Ok? && Lookup(db, path).value.Part? && Lookup(db, path).value.v.id == 0
    ensures
      var d := Lookup(db, path).value;
      && IsComposite(db, d.source)
      && Ends(db, d.source, t, Bits) && DepthOf(db, d.source, t, Bits) <= DepthOf(db, path, t, style)
      && Some(Outcome(db, path, t, style)) == Selected(d.select, style.Base(), Some(Outcome(db, d.source, t, Bits)))
  {
    hide PartsOf, ReadWhole, Lookup, DepthOf, Outcome, Ends, Projected, Converted;
    SourceKnown(db, path);
    var source := Lookup(db, path).value.source;
    SourceKnown(db, source);
    var depth := DepthOf(db, path, t, style);
    assert Read(db, source, t, Bits, depth) == ReadWhole(db, source, t, Bits, depth);
    EndsWithin(db, source, t, Bits, depth);
    OutcomeIs(db, source, t, Bits, depth);
  }

  lemma LeafOutcome(db: Db, path: string, t: int, style: Style)
    requires Consistent(db) && (Lookup(db, path).Ok? ==> Lookup(db, path).value.v.id != 0)
    ensures Ends(db, path, t, style)
    ensures Outcome(db, path, t, style) == SimpleText(db, path, t, style.Base())
  {
    hide Lookup, LeafText, Outcome;
    OutcomeIs(db, path, t, style, 0);
  }

  /** A result with its time. */
  function Timed(t: int, r: Result<string>): Result<Value> {
    if r.Ok? then Ok(Value(t, r.value)) else Err(r.fault)
  }

  method PointQuery(db: Db, path: string, t: int, radix: Radix) returns (r: Result<Value>)
    requires Consistent(db) && Ends(db, path, t, Braces(radix))
    ensures r == Timed(t, Outcome(db, path, t, Braces(radix)))
    decreases DepthOf(db, path, t, Braces(radix)), 1
  {
    hide PartsOf, Converted, Projected, LeafText, Lookup, Ends, Outcome, DepthOf;
    var descriptor := FindSignal(db, path);
    if descriptor.Err? {
      LeafOutcome(db, path, t, Braces(radix));
      return Err(descriptor.fault);
    }
    var d := descriptor.value;
    SourceKnown(db, path);
    if d.v.id != 0 {
      LeafOutcome(db, path, t, Braces(radix));
      r := LeafPoint(db, d, t, radix);
      return;
    }
    if d.Whole? {
      var text := CompositeValue(db, path, t, radix);
      return Timed(t, text);
    }
    SelectDepth(db, path, t, Braces(radix));
    var bits := CompositeBits(db, d.source, t);
    if bits.Err? {
      return Err(bits.fault);
    }
    var part := ProjectSlice(d.select, bits.value);
    if part.None? {
      return Err(SignalNotFound);
    }
    var text := Convert(part.value, radix);
    return Ok(Value(t, text));
  }

  /** Creates the cursor, seeks and reads; the cursor refuses encodings it cannot read. */
  method LeafPoint(db: Db, d: Descriptor, t: int, radix: Radix) returns (r: Result<Value>)
    ensures r == Timed(t, LeafText(db, d, t, radix))
  {
    hide PointSpec;
    if !d.v.readable {
      return Err(UnsupportedType);
    }
    r := Point(db.file, LeafOf(db, d), t, radix);
  }

  method CompositeValue(db: Db, path: string, t: int, radix: Radix) returns (r: Result<string>)
    requires Consistent(db) && IsComposite(db, path) && Ends(db, path, t, Braces(radix))
    ensures r == Outcome(db, path, t, Braces(radix))
    decreases DepthOf(db, path, t, Braces(radix)), 0
  {
    hide PartsOf, Read, ReadParts, Ends, Outcome, DepthOf;
    var style := Braces(radix);
    ghost var depth := DepthOf(db, path, t, style);
    WholeDepth(db, path, t, style);
    var children := CompositeChildren(db, path);
    if children == [] {
      return Err(UnsupportedType);
    }
    var out := "{";
    PartsStep(db, children, 0, t, style, depth - 1);
    for i := 0 to |children|
      invariant Fine(ReadParts(db, children[..i], t, style, depth - 1))
      invariant out == "{" + ReadParts(db, children[..i], t, style, depth - 1).value.value
    {
      NextPart(db, path, i, t, style);
      if i > 0 {
        out := out + ",";
      }
      var v := PointQuery(db, children[i], t, radix);
      if v.Err? {
        return Err(v.fault);
      }
      out := out + v.value.text;
    }
    assert children[..|children|] == children;
    return Ok(out + "}");
  }

  method CompositeBits(db: Db, path: string, t: int) returns (r: Result<string>)
    requires Consistent(db) && IsComposite(db, path) && Ends(db, path, t, Bits)
    ensures r == Outcome(db, path, t, Bits)
    decreases DepthOf(db, path, t, Bits), 0
  {
    hide PartsOf, Read, ReadParts, Ends, Outcome, DepthOf, Lookup;
    ghost var depth := DepthOf(db, path, t, Bits);
    WholeDepth(db, path, t, Bits);
    var children := CompositeChildren(db, path);
    if children == [] {
      return Err(UnsupportedType);
    }
    var result := "";
    PartsStep(db, children, 0, t, Bits, depth - 1);
    for i := 0 to |children|
      invariant ReadParts(db, children[..i], t, Bits, depth - 1) == Some(Ok(result))
    {
      var child := children[i];
      NextPart(db, path, i, t, Bits);
      SourceKnown(db, child);
      var descriptor := FindSignal(db, child);
      var bits: Result<string>;
      if descriptor.Err? {
        LeafOutcome(db, child, t, Bits);
        bits := Err(descriptor.fault);
      } else if descriptor.value.v.id == 0 && descriptor.value.Whole? {
        bits := CompositeBits(db, child, t);
      } else {
        PointInBits(db, child, t);
        var v := PointQuery(db, child, t, Bin);
        bits := if v.Err? then Err(v.fault) else Ok(v.value.text);
      }
      if bits.Err? {
        return Err(bits.fault);
      }
      assert bits == Outcome(db, child, t, Bits);
      assert result + "" + bits.value == result + bits.value;
      result := result + bits.value;
    }
    assert children[..|children|] == children;
    return Ok(result);
  }

  /** For anything but a composite that has an entry, bits are the binary text. */
  lemma PointInBits(db: Db, path: string, t: int)
    requires Consistent(db) && !IsComposite(db, path) && Ends(db, path, t, Bits)
    ensures Ends(db, path, t, Braces(Bin)) && Outcome(db, path, t, Braces(Bin)) == Outcome(db, path, t, Bits)
    ensures DepthOf(db, path, t, Braces(Bin)) == DepthOf(db, path, t, Bits)
  {
    hide PartsOf, ReadWhole, Lookup, DepthOf, Outcome, Ends, LeafText, Projected, Converted;
    SourceKnown(db, path);
    forall depth: nat ensures Read(db, path, t, Braces(Bin), depth) == Read(db, path, t, Bits, depth) {
    }
    var depth := DepthOf(db, path, t, Bits);
    OutcomeIs(db, path, t, Braces(Bin), depth);
    EndsWithin(db, path, t, Braces(Bin), depth);
    EndsWithin(db, path, t, Bits, DepthOf(db, path, t, Braces(Bin)));
  }

  // ------------------------------------------------ composites without parts that lead back

  ghost function Described(db: Db, path: string, t: int, style: Style): Result<string>
    requires Consistent(db) && IsComposite(db, path) && Grounded(db, path)
  {
    if style.Braces? then WholeText(db, path, t, style.radix) else BitsOf(db, path, t)
  }

  ghost function DescribedParts(db: Db, path: string, parts: seq<string>, t: int, style: Style): Result<string>
    requires Consistent(db) && IsComposite(db, path) && Grounded(db, path)
    requires forall p :: p in parts ==> p in PartsOf(db, path)
  {
    if style.Braces? then PartTexts(db, path, parts, t, style.radix) else PartBits(db, path, parts, t)
  }

  /** Reading such a composite ends, no deeper than names can get longer. */
  lemma {:induction false} GroundedEnds(db: Db, path: string, t: int, style: Style)
    requires Consistent(db) && IsComposite(db, path) && Grounded(db, path)
    ensures ReadWhole(db, path, t, style, Room(db, path) + 1) == Some(Described(db, path, t, style))
    decreases Room(db, path), 1
  {
    hide PartsOf, ReadParts, PartTexts, PartBits, Grounded, Room;
    GroundedPartsEnd(db, path, |PartsOf(db, path)|, t, style);
    assert PartsOf(db, path)[..|PartsOf(db, path)|] == PartsOf(db, path);
    BitsStep(db, path, t);
    WholeStep(db, path, t, style.Base());
  }

  lemma {:induction false} GroundedPartsEnd(db: Db, path: string, i: nat, t: int, style: Style)
    requires Consistent(db) && IsComposite(db, path) && Grounded(db, path) && i <= |PartsOf(db, path)|
    ensures var parts := PartsOf(db, path)[..i];
      ReadParts(db, parts, t, style, Room(db, path)) == Some(DescribedParts(db, path, parts, t, style))
    decreases Room(db, path), 0, i
  {
    hide PartsOf, Read, ReadParts, PartTexts, PartBits, SimpleText, Described, Grounded, Room;
    var parts := PartsOf(db, path);
    if i == 0 {
      assert parts[..0] == [];
      NothingRead(db, t, style, Room(db, path));
      NoPartTexts(db, path, t, style.Base());
    } else {
      var part := parts[i-1];
      GroundedPartsEnd(db, path, i - 1, t, style);
      PartsStep(db, parts, i - 1, t, style, Room(db, path));
      DescribedStep(db, path, i - 1, t, style);
      GroundedPart(db, path, part);
      PartEnds(db, path, part, t, style);
    }
  }

  lemma DescribedStep(db: Db, path: string, i: nat, t: int, style: Style)
    requires Consistent(db) && IsComposite(db, path) && Grounded(db, path) && i < |PartsOf(db, path)|
    ensures IsComposite(db, PartsOf(db, path)[i]) ==> Grounded(db, PartsOf(db, path)[i])
    ensures
      var parts := PartsOf(db, path);
      var front := DescribedParts(db, path, parts[..i], t, style);
      var last := if IsComposite(db, parts[i]) then Described(db, parts[i], t, style) else SimpleText(db, parts[i], t, style.Base());
      Some(DescribedParts(db, path, parts[..i+1], t, style)) ==
        if front.Err? then Some(front) else Joined(style, front.value, i, Some(last))
  {
    hide PartsOf, PartTexts, PartBits, SimpleText, WholeText, BitsOf, Grounded;
    var parts := PartsOf(db, path);
    var front := DescribedParts(db, path, parts[..i], t, style);
    if style.Braces? {
      PartTextsStep(db, path, parts, i, t, style.radix);
    } else {
      PartBitsStep(db, path, parts, i, t);
      assert front.Ok? ==> front.value + "" == front.value;
    }
  }

  lemma NothingRead(db: Db, t: int, style: Style, depth: nat)
    requires Consistent(db)
    ensures ReadParts(db, [], t, style, depth) == Some(Ok(""))
  {
  }

  lemma {:induction false} PartEnds(db: Db, path: string, part: string, t: int, style: Style)
    requires Consistent(db) && IsComposite(db, path) && Grounded(db, path) && part in PartsOf(db, path)
    requires !LeadsBack(db, part) && (IsComposite(db, part) ==> Grounded(db, part) && Room(db, part) < Room(db, path))
    ensures Read(db, part, t, style, Room(db, path))
      == Some(if IsComposite(db, part) then Described(db, part, t, style) else SimpleText(db, part, t, style.Base()))
    decreases Room(db, path), 0, 0
  {
    hide PartsOf, ReadWhole, LeafText, WholeText, BitsOf, Grounded, Room, Lookup;
    SourceKnown(db, part);
    if IsComposite(db, part) {
      GroundedEnds(db, part, t, style);
      DeeperWhole(db, part, t, style, Room(db, part) + 1, Room(db, path));
    }
  }

  /** Every answerable path is read to its end, and what is read is as described. */
  lemma AnswerableEnds(db: Db, path: string, t: int, radix: Radix)
    requires Consistent(db) && Answerable(db, path)
    ensures Ends(db, path, t, Braces(radix)) && Outcome(db, path, t, Braces(radix)) == PathText(db, path, t, radix)
  {
    hide PartsOf, ReadWhole, Grounded, Room, Lookup, Outcome, WholeText, BitsOf, LeafText, Projected, Converted;
    BehindIsComposite(db, path);
    SourceKnown(db, path);
    if CompositeBehind(db, path).Some? {
      var base := CompositeBehind(db, path).value;
      GroundedEnds(db, base, t, Braces(radix));
      GroundedEnds(db, base, t, Bits);
      OutcomeIs(db, path, t, Braces(radix), Room(db, base) + 1);
    } else {
      OutcomeIs(db, path, t, Braces(radix), 0);
    }
  }
}
