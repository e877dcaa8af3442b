/**
 The values of composite signals (structures and arrays), put together from their parts by
 recursion over names.

 A part is looked up like any other path. When it is an entry with a longer name, or not to be
 found, or a bit select of a readable signal, the recursion gets nearer to the longest name. A
 part that is a bit select of a composite leads back to a shorter name. Composites without
 such parts are described here; module Reading has the code for all of them.
 */
module Composite {
  import opened CText
  import opened Radix
  import opened Waveform
  import opened Database

  predicate IsComposite(db: Db, path: string) {
    path in db.variables && db.variables[path].id == 0
  }

  function LongestName(names: seq<string>): nat {
    if names == [] then 0 else
    var n := LongestName(names[..|names|-1]);
    if |names[|names|-1]| > n then |names[|names|-1]| else n
  }

  lemma {:induction false} NoLongerName(names: seq<string>, name: string)
    requires name in names
    ensures |name| <= LongestName(names)
    decreases |names|
  {
    var n := |names| - 1;
    assert names == names[..n] + [names[n]];
    if name != names[n] {
      NoLongerName(names[..n], name);
    }
  }

  /** How much longer than path a name in the table can be. */
  function Room(db: Db, path: string): nat {
    if |path| <= LongestName(db.order) then LongestName(db.order) - |path| else 0
  }

  lemma PartHasLessRoom(db: Db, path: string, part: string)
    requires Consistent(db) && path in db.variables && part in PartsOf(db, path)
    ensures part in db.variables ==> Room(db, part) < Room(db, path)
  {
    hide PartsOf, LongestName;
    PartsMembers(db, path);
    NoLongerName(db.order, path);
    var parts := PartsOf(db, path);
    var i :| 0 <= i < |parts| && parts[i] == part;
    if part in db.variables {
      NoLongerName(db.order, part);
    }
  }

  // --------------------------------------------------- where the recursion ends

  /** No entry, but a bit select of a composite. */
  predicate LeadsBack(db: Db, part: string)
    requires Consistent(db)
  {
    part !in db.variables && Lookup(db, part).Ok? && Lookup(db, part).value.v.id == 0
  }

  /** No part at any depth leads back. */
  ghost predicate Grounded(db: Db, path: string)
    requires Consistent(db) && IsComposite(db, path)
    decreases Room(db, path)
  {
    forall part :: part in PartsOf(db, path) ==>
      (!LeadsBack(db, part) && (IsComposite(db, part) ==> (PartHasLessRoom(db, path, part); Grounded(db, part))))
  }

  lemma GroundedPart(db: Db, path: string, part: string)
    requires Consistent(db) && IsComposite(db, path) && Grounded(db, path) && part in PartsOf(db, path)
    ensures !LeadsBack(db, part) && (IsComposite(db, part) ==> Grounded(db, part))
    ensures part in db.variables ==> Room(db, part) < Room(db, path)
  {
    hide PartsOf, Room, LeadsBack;
    PartHasLessRoom(db, path, part);
  }

  /** The composite a path asks for, if it asks for one. */
  function CompositeBehind(db: Db, path: string): Option<string>
    requires Consistent(db)
  {
    match Lookup(db, path)
    case Err(_) => None
    case Ok(d) => if d.v.id != 0 then None else Some(if d.Part? then d.source else path)
  }

  /** No composite behind the path, or one in which no part leads back. */
  ghost predicate Answerable(db: Db, path: string)
    requires Consistent(db)
  {
    BehindIsComposite(db, path);
    CompositeBehind(db, path).Some? ==> Grounded(db, CompositeBehind(db, path).value)
  }

  lemma BehindIsComposite(db: Db, path: string)
    requires Consistent(db)
    ensures CompositeBehind(db, path).Some? ==> IsComposite(db, CompositeBehind(db, path).value)
  {
    hide PartsOf, ParseRange, LongestUpTo;
    SourceKnown(db, path);
  }

  lemma SourceKnown(db: Db, path: string)
    requires Consistent(db)
    ensures Lookup(db, path).Ok? && Lookup(db, path).value.Part? ==>
      var d := Lookup(db, path).value; path !in db.variables && d.source in db.variables && d.v == db.variables[d.source]
    ensures Lookup(db, path).Ok? && Lookup(db, path).value.Whole? ==>
      path in db.variables && Lookup(db, path).value.v == db.variables[path]
    ensures path in db.variables ==> Lookup(db, path) == Ok(Whole(db.variables[path]))
  {
    hide PartsOf, ParseRange;
    LongestIsLongest(db, path, |path|);
  }

  /** A part of a grounded composite can be asked for in its own right. */
  lemma PartAnswerable(db: Db, path: string, part: string)
    requires Consistent(db) && IsComposite(db, path) && Grounded(db, path) && part in PartsOf(db, path)
    ensures Answerable(db, part)
    ensures CompositeBehind(db, part).Some? ==> CompositeBehind(db, part) == Some(part)
  {
    hide PartsOf, Room, Lookup, Grounded;
    GroundedPart(db, path, part);
    SourceKnown(db, part);
  }

  function TraceOf(db: Db, v: Var): seq<Event> {
    if v.id in db.traces then db.traces[v.id] else []
  }

  function SelectFor(d: Descriptor): Option<Select> {
    if d.Part? then Some(d.select) else None
  }

  function LeafOf(db: Db, d: Descriptor): Leaf {
    Leaf(TraceOf(db, d.v), SelectFor(d))
  }

  /** The text of a readable signal, or of a select of one. */
  function LeafText(db: Db, d: Descriptor, t: int, radix: Radix): Result<string> {
    if !d.v.readable then Err(UnsupportedType) else PointSpec(db.file, LeafOf(db, d), t, radix)
  }

  // ---------------------------------------------------------------------- values

  /** The text of a composite. */
  ghost function WholeText(db: Db, path: string, t: int, radix: Radix): Result<string>
    requires Consistent(db) && IsComposite(db, path) && Grounded(db, path)
    decreases Room(db, path), 1
  {
    var parts := PartsOf(db, path);
    if parts == [] then Err(UnsupportedType) else
    match PartTexts(db, path, parts, t, radix)
    case Err(f) => Err(f)
    case Ok(text) => Ok("{" + text + "}")
  }

  /** The texts of the first parts, with commas between them. */
  ghost function PartTexts(db: Db, path: string, parts: seq<string>, t: int, radix: Radix): Result<string>
    requires Consistent(db) && IsComposite(db, path) && Grounded(db, path)
    requires forall p :: p in parts ==> p in PartsOf(db, path)
    decreases Room(db, path), 0, |parts|
  {
    if parts == [] then Ok("") else
    var n := |parts| - 1;
    GroundedPart(db, path, parts[n]);
    match PartTexts(db, path, parts[..n], t, radix)
    case Err(f) => Err(f)
    case Ok(front) =>
      match (if IsComposite(db, parts[n]) then WholeText(db, parts[n], t, radix) else SimpleText(db, parts[n], t, radix))
      case Err(f) => Err(f)
      case Ok(last) => Ok(front + (if n > 0 then "," else "") + last)
  }

  /** The text of a path behind which there is no composite. */
  function SimpleText(db: Db, path: string, t: int, radix: Radix): Result<string>
    requires Consistent(db)
  {
    match Lookup(db, path)
    case Err(f) => Err(f)
    case Ok(d) => LeafText(db, d, t, radix)
  }

  /** The bits of all parts, one behind the other. */
  ghost function BitsOf(db: Db, path: string, t: int): Result<string>
    requires Consistent(db) && IsComposite(db, path) && Grounded(db, path)
    decreases Room(db, path), 1
  {
    var parts := PartsOf(db, path);
    if parts == [] then Err(UnsupportedType) else PartBits(db, path, parts, t)
  }

  ghost function PartBits(db: Db, path: string, parts: seq<string>, t: int): Result<string>
    requires Consistent(db) && IsComposite(db, path) && Grounded(db, path)
    requires forall p :: p in parts ==> p in PartsOf(db, path)
    decreases Room(db, path), 0, |parts|
  {
    if parts == [] then Ok("") else
    var n := |parts| - 1;
    GroundedPart(db, path, parts[n]);
    match PartBits(db, path, parts[..n], t)
    case Err(f) => Err(f)
    case Ok(front) =>
      match (if IsComposite(db, parts[n]) then BitsOf(db, parts[n], t) else SimpleText(db, parts[n], t, Bin))
      case Err(f) => Err(f)
      case Ok(last) => Ok(front + last)
  }

  /** The text of whatever a path names. */
  ghost function PathText(db: Db, path: string, t: int, radix: Radix): Result<string>
    requires Consistent(db) && Answerable(db, path)
  {
    BehindIsComposite(db, path);
    match CompositeBehind(db, path)
    case None => SimpleText(db, path, t, radix)
    case Some(base) =>
      if path in db.variables then WholeText(db, path, t, radix) else
      match BitsOf(db, base, t)
      case Err(f) => Err(f)
      case Ok(bits) =>
        match Projected(SelectBehind(db, path), bits)
        case None => Err(SignalNotFound)
        case Some(part) => Ok(Converted(part, radix))
  }

  /** The bits a path selects from the composite behind it. */
  function SelectBehind(db: Db, path: string): Select
    requires Consistent(db) && CompositeBehind(db, path).Some? && path !in db.variables
  {
    SourceKnown(db, path);
    Lookup(db, path).value.select
  }

  lemma WholeStep(db: Db, path: string, t: int, radix: Radix)
    requires Consistent(db) && IsComposite(db, path) && Grounded(db, path)
    ensures WholeText(db, path, t, radix) ==
      (var parts := PartsOf(db, path);
       if parts == [] then Err(UnsupportedType) else
       match PartTexts(db, path, parts, t, radix)
       case Err(f) => Err(f)
       case Ok(text) => Ok("{" + text + "}"))
  {
    hide PartsOf, PartTexts, Grounded;
  }

  lemma NoPartTexts(db: Db, path: string, t: int, radix: Radix)
    requires Consistent(db) && IsComposite(db, path) && Grounded(db, path)
    ensures PartTexts(db, path, [], t, radix) == Ok("") && PartBits(db, path, [], t) == Ok("")
  {
    hide PartsOf, Grounded;
  }

  lemma PartTextsStep(db: Db, path: string, parts: seq<string>, i: nat, t: int, radix: Radix)
    requires Consistent(db) && IsComposite(db, path) && Grounded(db, path) && parts == PartsOf(db, path) && i < |parts|
    ensures IsComposite(db, parts[i]) ==> Grounded(db, parts[i])
    ensures PartTexts(db, path, parts[..i+1], t, radix) ==
      match PartTexts(db, path, parts[..i], t, radix)
      case Err(f) => Err(f)
      case Ok(front) =>
        match (if IsComposite(db, parts[i]) then WholeText(db, parts[i], t, radix) else SimpleText(db, parts[i], t, radix))
        case Err(f) => Err(f)
        case Ok(last) => Ok(front + (if i > 0 then "," else "") + last)
  {
    hide PartsOf, WholeText, SimpleText, Grounded;
    GroundedPart(db, path, parts[i]);
    assert parts[..i+1][..i] == parts[..i];
  }

  lemma BitsStep(db: Db, path: string, t: int)
    requires Consistent(db) && IsComposite(db, path) && Grounded(db, path)
    ensures BitsOf(db, path, t) ==
      if PartsOf(db, path) == [] then Err(UnsupportedType) else PartBits(db, path, PartsOf(db, path), t)
  {
    hide PartsOf, PartBits, Grounded;
  }

  lemma PartBitsStep(db: Db, path: string, parts: seq<string>, i: nat, t: int)
    requires Consistent(db) && IsComposite(db, path) && Grounded(db, path)
    requires (forall p :: p in parts ==> p in PartsOf(db, path)) && i < |parts|
    ensures IsComposite(db, parts[i]) ==> Grounded(db, parts[i])
    ensures PartBits(db, path, parts[..i+1], t) ==
      match PartBits(db, path, parts[..i], t)
      case Err(f) => Err(f)
      case Ok(front) =>
        match (if IsComposite(db, parts[i]) then BitsOf(db, parts[i], t) else SimpleText(db, parts[i], t, Bin))
        case Err(f) => Err(f)
        case Ok(last) => Ok(front + last)
  {
    hide PartsOf, BitsOf, SimpleText, Grounded;
    GroundedPart(db, path, parts[i]);
    assert parts[..i+1][..i] == parts[..i];
  }

  // ------------------------------------------------------------------------ leaves

  /** The readable signals at the ends of the recursion, in order. */
  ghost function LeavesOf(db: Db, path: string): seq<Descriptor>
    requires Consistent(db) && IsComposite(db, path) && Grounded(db, path)
    decreases Room(db, path), 1
  {
    LeavesIn(db, path, PartsOf(db, path))
  }

  ghost function LeavesIn(db: Db, path: string, parts: seq<string>): seq<Descriptor>
    requires Consistent(db) && IsComposite(db, path) && Grounded(db, path)
    requires forall p :: p in parts ==> p in PartsOf(db, path)
    decreases Room(db, path), 0, |parts|
  {
    if parts == [] then [] else
    var n := |parts| - 1;
    GroundedPart(db, path, parts[n]);
    LeavesIn(db, path, parts[..n]) + (if IsComposite(db, parts[n]) then LeavesOf(db, parts[n]) else SimpleLeaf(db, parts[n]))
  }

  function SimpleLeaf(db: Db, path: string): seq<Descriptor>
    requires Consistent(db)
  {
    match Lookup(db, path)
    case Err(_) => []
    case Ok(d) => [d]
  }
}
