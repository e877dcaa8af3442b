/**
 Which parts of composites lead back to a composite, said of the names in the table: only
 parts in brackets that have no entry of their own, and an index that reads as a range.
 */
module Grounding {
  import opened CText
  import opened Database
  import opened Composite

  predicate EndsInBracket(name: string) {
    name != "" && name[|name|-1] == ']'
  }

  /** Only a name that ends in a bracket can be a bit select. */
  lemma SelectEndsInBracket(db: Db, path: string)
    requires Consistent(db)
    ensures LeadsBack(db, path) ==> path !in db.variables && EndsInBracket(path)
  {
    hide PartsOf, LongestUpTo, FindChar;
    LongestIsLongest(db, path, |path|);
    var best := LongestUpTo(db, path, |path|);
    if best > 0 && CandidateAt(db, path, best) {
      RangeEndsInBracket(path, |path[..best]|);
    }
  }

  lemma RangeEndsInBracket(path: string, n: nat)
    requires n <= |path|
    ensures ParseRange(path[n..]).Some? ==> EndsInBracket(path)
  {
    hide FindChar;
  }

  /** No part of any composite is a bit select of a composite. */
  ghost predicate NothingLeadsBack(db: Db)
    requires Consistent(db)
  {
    forall path, part :: IsComposite(db, path) && part in PartsOf(db, path) ==> !LeadsBack(db, part)
  }

  lemma {:induction false} NothingBackIsGrounded(db: Db, path: string)
    requires Consistent(db) && NothingLeadsBack(db) && IsComposite(db, path)
    ensures Grounded(db, path)
    decreases Room(db, path)
  {
    hide PartsOf, Room, LeadsBack;
    forall part | part in PartsOf(db, path)
      ensures !LeadsBack(db, part) && (IsComposite(db, part) ==> Grounded(db, part))
    {
      if IsComposite(db, part) {
        PartHasLessRoom(db, path, part);
        NothingBackIsGrounded(db, part);
      }
    }
  }

  ghost predicate EveryPathAnswerable(db: Db)
    requires Consistent(db)
  {
    forall path :: Answerable(db, path)
  }

  /** Every path is answerable exactly when no part of a composite leads back. */
  lemma EveryPathAnswerableIff(db: Db)
    requires Consistent(db)
    ensures EveryPathAnswerable(db) <==> NothingLeadsBack(db)
  {
    hide PartsOf, Room, Lookup, Grounded, LeadsBack;
    forall path ensures NothingLeadsBack(db) ==> Answerable(db, path) {
      BehindIsComposite(db, path);
      if NothingLeadsBack(db) && CompositeBehind(db, path).Some? {
        NothingBackIsGrounded(db, CompositeBehind(db, path).value);
      }
    }
    forall path, part | IsComposite(db, path) && part in PartsOf(db, path)
      ensures EveryPathAnswerable(db) ==> !LeadsBack(db, part)
    {
      SourceKnown(db, path);
      if EveryPathAnswerable(db) {
        assert Answerable(db, path);
        GroundedPart(db, path, part);
      }
    }
  }

  /** A key that spells a bracketed element of a composite comes with an entry for the element. */
  predicate ElementsEntered(keys: set<string>, composites: set<string>) {
    forall path, key :: path in composites && key in keys && PartNamedBy(path, key).Some? ==>
      (EndsInBracket(PartNamedBy(path, key).value) ==> PartNamedBy(path, key).value in keys)
  }

  predicate ListedEntered(db: Db) {
    forall path :: path in db.listed ==> forall i :: 0 <= i < |db.listed[path]| ==> db.listed[path][i] in db.variables
  }

  function Composites(db: Db): set<string> {
    set path | path in db.variables && db.variables[path].id == 0
  }

  lemma EnteredIsAnswerable(db: Db)
    requires Consistent(db) && ListedEntered(db) && ElementsEntered(db.variables.Keys, Composites(db))
    ensures EveryPathAnswerable(db)
  {
    hide PartsOf, Answerable, LeadsBack, EndsInBracket, PartNamedBy;
    forall path, part | IsComposite(db, path) && part in PartsOf(db, path) ensures !LeadsBack(db, part) {
      PartsMembers(db, path);
      SelectEndsInBracket(db, part);
      if part !in ListedAt(db, path) {
        var key :| key in db.variables && PartNamedBy(path, key) == Some(part);
      }
    }
    EveryPathAnswerableIff(db);
  }

  /** The n-th part has no entry and is a bit select of the composite it is a part of. */
  predicate LeadsBackAt(db: Db, path: string, n: nat)
    requires Consistent(db)
  {
    && IsComposite(db, path) && n < |PartsOf(db, path)|
    && PartsOf(db, path)[n] !in db.variables && CompositeBehind(db, PartsOf(db, path)[n]) == Some(path)
  }

  /**
   A part in brackets leads back to its own composite exactly when it has no entry and its
   index reads as a range.
   */
  lemma ElementLeadsBackIff(db: Db, path: string, index: string, n: nat)
    requires Consistent(db) && IsComposite(db, path) && path != "" && '[' !in index
    requires n < |PartsOf(db, path)| && PartsOf(db, path)[n] == path + "[" + index + "]"
    ensures LeadsBackAt(db, path, n) <==>
      path + "[" + index + "]" !in db.variables && ParseRange("[" + index + "]").Some?
  {
    hide PartsOf, ParseRange, Room, Lookup, Candidate;
    var part := path + "[" + index + "]";
    SourceKnown(db, part);
    LookupChoosesLongest(db, part);
    ElementCandidates(db, path, index);
    if part !in db.variables && ParseRange("[" + index + "]").Some? {
      var source := Lookup(db, part).value.source;
      assert source == path;
    }
  }

  /** The composite itself is the longest key that can carry the index. */
  lemma ElementCandidates(db: Db, path: string, index: string)
    requires Consistent(db) && IsComposite(db, path) && path != "" && '[' !in index && PartsOf(db, path) != []
    ensures
      var part := path + "[" + index + "]";
      && (Candidate(db, part, path) <==> ParseRange("[" + index + "]").Some?)
      && forall key :: Candidate(db, part, key) ==> |key| <= |path| && (|key| == |path| ==> key == path)
  {
    hide PartsOf, ParseRange;
    var part := path + "[" + index + "]";
    assert part == path + ("[" + index + "]") && part[|path|..] == "[" + index + "]";
    forall key | Candidate(db, part, key) ensures |key| <= |path| && (|key| == |path| ==> key == path) {
      if |key| > |path| {
        NoRangeBehind(part, index, |path|, |key|);
      }
      assert |key| == |path| ==> key == part[..|path|] == path;
    }
  }

  lemma NoRangeBehind(part: string, index: string, at: nat, n: nat)
    requires at < n <= |part| && part[at..] == "[" + index + "]" && '[' !in index
    ensures ParseRange(part[n..]).None?
  {
    hide FindChar;
    assert part[n..] == ("[" + index + "]")[n - at..];
    assert n < |part| ==> part[n] == ("[" + index + "]")[n - at];
    assert n < |part| - 1 ==> part[n] == index[n - at - 1] && index[n - at - 1] in index;
  }

  lemma ZeroInBrackets()
    ensures ParseRange("[0]") == Some((0, 0))
  {
    assert "[0]"[1..2] == "0";
    assert SkipSpaces("0") == "0" && "0"[1..] == "";
    assert DigitPrefix("0") == "0";
    assert DigitsValue("0") == 0 by { assert "0"[..0] == ""; }
    assert FindChar("[0]", ':', 1) == 3;
  }
}
