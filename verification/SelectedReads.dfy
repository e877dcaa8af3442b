/**
 Reading a bit select of a signal: the bits its indices name, of the value the signal has then.
 */
module SelectedReads {
  import opened CText
  import opened Radix
  import opened Waveform
  import opened Database
  import opened Indices
  import opened Composite
  import opened Reading

  /** What a select shows of a value, or why it does not. */
  function Cut(select: Select, bits: Result<string>, radix: Radix): Result<string> {
    if bits.Err? then bits else
    var part := Projected(select, bits.value);
    if part.None? then Err(SignalNotFound) else Ok(Converted(part.value, radix))
  }

  lemma LeafCut(db: Db, v: Var, source: string, select: Select, t: int, radix: Radix)
    ensures LeafText(db, Part(source, v, select), t, radix) == Cut(select, LeafText(db, Whole(v), t, Bin), radix)
  {
    hide LastAtOrBefore, Projected;
  }

  /** An entry with an id, its declared range, and a path that is no entry itself. */
  predicate Selects(db: Db, key: string, path: string)
    requires Consistent(db)
  {
    key != "" && key in db.variables && db.variables[key].id != 0 && path !in db.variables
  }

  /**
   Reading key[a:b] gives the bits from a to b of what reading key gives, in any radix; it
   fails when reading key fails, and as not found when the range does not fit the value.
   */
  lemma RangeOfSignal(db: Db, key: string, left: int, right: int, t: int, radix: Radix)
    requires Consistent(db) && Selects(db, key, key + RangeText(left, right)) && Fits32(left) && Fits32(right)
    ensures
      var v, path := db.variables[key], key + RangeText(left, right);
      var select := Select(if v.packed then v.packedLeft else v.left, if v.packed then v.packedRight else v.right, left, right);
      && Ends(db, path, t, Braces(radix)) && Ends(db, key, t, Bits)
      && Outcome(db, path, t, Braces(radix)) == Cut(select, Outcome(db, key, t, Bits), radix)
  {
    hide PartsOf, Lookup, LeafText, Ends, Outcome, IntText, Cut;
    SelectAsWritten(db, key, left, right);
    CutAsRead(db, key, key + RangeText(left, right), t, radix);
  }

  /** And key[i] gives bit i. */
  lemma BitOfSignal(db: Db, key: string, i: int, t: int, radix: Radix)
    requires Consistent(db) && Selects(db, key, key + IndexText(i)) && Fits32(i)
    ensures
      var v, path := db.variables[key], key + IndexText(i);
      var select := Select(if v.packed then v.packedLeft else v.left, if v.packed then v.packedRight else v.right, i, i);
      && Ends(db, path, t, Braces(radix)) && Ends(db, key, t, Bits)
      && Outcome(db, path, t, Braces(radix)) == Cut(select, Outcome(db, key, t, Bits), radix)
  {
    hide PartsOf, Lookup, LeafText, Ends, Outcome, IntText, Cut;
    BitAsWritten(db, key, i);
    CutAsRead(db, key, key + IndexText(i), t, radix);
  }

  lemma CutAsRead(db: Db, key: string, path: string, t: int, radix: Radix)
    requires Consistent(db) && Selects(db, key, path) && Lookup(db, path).Ok?
    requires var d := Lookup(db, path).value; d.Part? && d.source == key && d.v == db.variables[key]
    ensures Ends(db, path, t, Braces(radix)) && Ends(db, key, t, Bits)
    ensures Outcome(db, path, t, Braces(radix)) == Cut(Lookup(db, path).value.select, Outcome(db, key, t, Bits), radix)
  {
    hide PartsOf, Lookup, LeafText, Ends, Outcome, Cut;
    SourceKnown(db, key);
    LeafOutcome(db, path, t, Braces(radix));
    LeafOutcome(db, key, t, Bits);
    LeafCut(db, db.variables[key], key, Lookup(db, path).value.select, t, radix);
  }
}
