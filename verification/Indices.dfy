/**
 What the names in brackets mean: the ends of a bit select are the numbers written in it, and
 the elements of an array stand in the order of the numbers in their names.
 */
module Indices {
  import opened CText
  import opened Radix
  import opened Database

  predicate Fits32(i: int) {
    INT32_MIN <= i <= INT32_MAX
  }

  /** An index as it is written: a number, or two with a colon. */
  function IndexText(i: int): string {
    "[" + IntText(i) + "]"
  }

  function RangeText(left: int, right: int): string {
    "[" + IntText(left) + ":" + IntText(right) + "]"
  }

  // ------------------------------------------------------------------- reading numbers

  /** The number is read back, whatever follows it that is not a digit. */
  lemma StoiReadsIntText(i: int)
    requires Fits32(i)
    ensures Stoi(IntText(i)) == Some(i)
  {
    var n: nat := if i < 0 then -i else i;
    NatTextValue(n);
    SignedDigitsOf(NatText(n));
  }

  lemma NumberIsPlain(i: int)
    ensures IntText(i) != "" && forall k :: 0 <= k < |IntText(i)| ==> IntText(i)[k] in "-0123456789"
  {
    var digits := NatText(if i < 0 then -i else i);
    forall k | 0 <= k < |digits| ensures digits[k] in "-0123456789" {
      DigitIsPlain(digits[k]);
    }
  }

  lemma DigitIsPlain(c: char)
    requires IsDigit(c)
    ensures c in "-0123456789"
  {
    assert c == "-0123456789"[c as int - '0' as int + 1];
  }

  lemma NoSuchChar(s: string, c: char)
    requires c !in "-0123456789" && forall k :: 0 <= k < |s| ==> s[k] in "-0123456789"
    ensures c !in s
  {
  }

  lemma ColonAt(a: string, rest: string)
    requires ':' !in a
    ensures FindChar("[" + a + rest, ':', 1) >= 1 + |a|
    ensures rest != "" && rest[0] == ':' ==> FindChar("[" + a + rest, ':', 1) == 1 + |a|
    ensures ':' !in rest ==> FindChar("[" + a + rest, ':', 1) == |"[" + a + rest|
  {
    var s := "[" + a + rest;
    assert forall k :: 1 <= k < 1 + |a| ==> s[k] == a[k-1] && a[k-1] in a;
    assert forall k :: 1 + |a| <= k < |s| ==> s[k] == rest[k-1-|a|] && rest[k-1-|a|] in rest;
    assert rest != "" ==> s[1 + |a|] == rest[0];
  }

  /** One index reads as both ends. */
  lemma ReadsIndex(i: int)
    requires Fits32(i)
    ensures ParseRange(IndexText(i)) == Some((i, i)) && SortKey(IndexText(i)) == i
  {
    hide FindChar, Stoi, IntText;
    var a := IntText(i);
    StoiReadsIntText(i);
    NumberIsPlain(i);
    assert ':' !in "-0123456789";
    NoSuchChar(a, ':');
    ColonAt(a, "]");
    assert IndexText(i)[1..|IndexText(i)|-1] == a;
  }

  /** Two indices read as they are written. */
  lemma ReadsRange(left: int, right: int)
    requires Fits32(left) && Fits32(right)
    ensures ParseRange(RangeText(left, right)) == Some((left, right)) && SortKey(RangeText(left, right)) == right
  {
    hide FindChar, Stoi, IntText;
    var a, b := IntText(left), IntText(right);
    var text := RangeText(left, right);
    StoiReadsIntText(left);
    StoiReadsIntText(right);
    NumberIsPlain(left);
    assert ':' !in "-0123456789";
    NoSuchChar(a, ':');
    ColonAt(a, ":" + b + "]");
    assert text == "[" + a + (":" + b + "]");
    assert text[1..1+|a|] == a && text[1+|a|+1..|text|-1] == b;
  }

  // ----------------------------------------------------------------------- bit selects

  /** Where a select of an entry counts from. */
  predicate CountsFrom(v: Var, select: Select) {
    && select.baseLeft == (if v.packed then v.packedLeft else v.left)
    && select.baseRight == (if v.packed then v.packedRight else v.right)
  }

  /** No text in brackets behind a key can be split further into a longer key and a range. */
  lemma OnlyKey(key: string, suffix: string, n: nat)
    requires suffix != "" && |key| < n <= |key + suffix| && '[' !in suffix[1..]
    ensures ParseRange((key + suffix)[n..]).None?
  {
    hide FindChar;
    var rest := (key + suffix)[n..];
    assert rest == suffix[n - |key|..];
    assert rest != "" ==> rest[0] == suffix[1..][n - |key| - 1] && rest[0] in suffix[1..];
  }

  predicate CanBeSelected(db: Db, key: string)
    requires Consistent(db)
  {
    key != "" && key in db.variables && (db.variables[key].id != 0 || PartsOf(db, key) != [])
  }

  lemma SelectFound(db: Db, key: string, suffix: string, left: int, right: int)
    requires Consistent(db) && CanBeSelected(db, key) && key + suffix !in db.variables
    requires suffix != "" && '[' !in suffix[1..] && ParseRange(suffix) == Some((left, right))
    ensures Lookup(db, key + suffix).Ok?
    ensures var d := Lookup(db, key + suffix).value;
      && d.Part? && d.source == key && d.v == db.variables[key]
      && d.select.left == left && d.select.right == right && CountsFrom(d.v, d.select)
  {
    hide PartsOf, ParseRange, LongestUpTo, CandidateAt;
    var path := key + suffix;
    assert path[..|key|] == key && path[|key|..] == suffix;
    LookupChoosesLongest(db, path);
    assert Candidate(db, path, key);
    LongestIsLongest(db, path, |path|);
    CandidatesAreKeys(db, path);
    var best := LongestUpTo(db, path, |path|);
    if best > |key| {
      OnlyKey(key, suffix, best);
    } else if best < |key| {
      CandidateAtKey(db, path, key);
    }
  }

  /**
   A path that ends in two indices, behind an entry that has an id or parts, selects from the
   left to the right index of that entry, unless it is an entry itself.
   */
  lemma SelectAsWritten(db: Db, key: string, left: int, right: int)
    requires Consistent(db) && CanBeSelected(db, key) && Fits32(left) && Fits32(right)
    requires key + RangeText(left, right) !in db.variables
    ensures Lookup(db, key + RangeText(left, right)).Ok?
    ensures var d := Lookup(db, key + RangeText(left, right)).value;
      && d.Part? && d.source == key && d.v == db.variables[key]
      && d.select.left == left && d.select.right == right && CountsFrom(d.v, d.select)
  {
    hide PartsOf, ParseRange, Lookup, IntText, CanBeSelected, CountsFrom;
    ReadsRange(left, right);
    var inner := IntText(left) + ":" + IntText(right);
    PlainInside(left, right);
    BracketsOnlyOutside(inner);
    assert RangeText(left, right) == "[" + inner + "]";
    SelectFound(db, key, RangeText(left, right), left, right);
  }

  /** With one index it selects that bit. */
  lemma BitAsWritten(db: Db, key: string, i: int)
    requires Consistent(db) && CanBeSelected(db, key) && Fits32(i)
    requires key + IndexText(i) !in db.variables
    ensures Lookup(db, key + IndexText(i)).Ok?
    ensures var d := Lookup(db, key + IndexText(i)).value;
      && d.Part? && d.source == key && d.v == db.variables[key]
      && d.select.left == i && d.select.right == i && CountsFrom(d.v, d.select)
  {
    hide PartsOf, ParseRange, Lookup, IntText, CanBeSelected, CountsFrom;
    ReadsIndex(i);
    NumberIsPlain(i);
    assert '[' !in "-0123456789";
    NoSuchChar(IntText(i), '[');
    BracketsOnlyOutside(IntText(i));
    SelectFound(db, key, IndexText(i), i, i);
  }

  lemma BracketsOnlyOutside(inner: string)
    ensures '[' !in inner ==> '[' !in ("[" + inner + "]")[1..]
  {
    assert ("[" + inner + "]")[1..] == inner + "]";
  }

  lemma PlainInside(left: int, right: int)
    ensures '[' !in IntText(left) + ":" + IntText(right)
  {
    hide IntText;
    NumberIsPlain(left);
    NumberIsPlain(right);
    assert '[' !in "-0123456789";
    NoSuchChar(IntText(left), '[');
    NoSuchChar(IntText(right), '[');
  }

  // ------------------------------------------------------------------ order of elements

  /** The parts are the elements with these numbers. */
  predicate AreElements(path: string, parts: seq<string>, indices: seq<int>) {
    |parts| == |indices| && forall k :: 0 <= k < |parts| ==> Fits32(indices[k]) && parts[k] == path + IndexText(indices[k])
  }

  /**
   The elements of an array that is declared with two different indices stand in the order of
   their numbers: falling when the left index is the greater one, rising otherwise.
   */
  lemma ElementsInIndexOrder(db: Db, path: string, indices: seq<int>)
    requires Consistent(db) && path in db.variables && db.variables[path].left != db.variables[path].right
    requires AreElements(path, PartsOf(db, path), indices)
    ensures forall j, k :: 0 <= j < k < |indices| ==>
      if db.variables[path].left > db.variables[path].right then indices[j] > indices[k] else indices[j] < indices[k]
  {
    hide UnsortedParts, SortParts, SortKey, IntText;
    var parts := PartsOf(db, path);
    var descending := db.variables[path].left > db.variables[path].right;
    PartsMembers(db, path);
    UnsortedLonger(db, path);
    SortPartsInOrder(path, descending, UnsortedParts(db, path));
    forall j, k | 0 <= j < k < |indices|
      ensures if descending then indices[j] > indices[k] else indices[j] < indices[k]
    {
      ElementKey(path, indices[j]);
      ElementKey(path, indices[k]);
      assert parts[j] != parts[k];
      assert !ComesBefore(path, descending, parts[k], parts[j]);
    }
  }

  lemma ElementKey(path: string, i: int)
    requires Fits32(i)
    ensures SortKey((path + IndexText(i))[|path|..]) == i
  {
    hide SortKey;
    ReadsIndex(i);
    assert (path + IndexText(i))[|path|..] == IndexText(i);
  }

  // ------------------------------------------------------------------ order of members

  lemma {:induction false} AddPartsKeeps(found: seq<string>, path: string, keys: seq<string>)
    ensures found <= AddParts(found, path, keys)
  {
    hide PartNamedBy;
    if keys != [] {
      AddPartsKeeps(found, path, keys[..|keys|-1]);
    }
  }

  lemma {:induction false} AddAllOfDistinct(values: seq<string>)
    requires Distinct(values)
    ensures AddAll([], values) == values
  {
    if values != [] {
      var front := values[..|values|-1];
      AddAllOfDistinct(front);
      assert values == front + [values[|values|-1]];
    }
  }

  /** The members of a structure stand as they are listed in its scope, in front of all other parts. */
  lemma MembersAsListed(db: Db, path: string)
    requires Consistent(db) && Distinct(ListedAt(db, path))
    requires path in db.variables ==> db.variables[path].left == db.variables[path].right
    ensures ListedAt(db, path) <= PartsOf(db, path)
  {
    hide PartNamedBy, AddAll, AddParts;
    AddAllOfDistinct(ListedAt(db, path));
    AddPartsKeeps(ListedAt(db, path), path, db.order);
  }

  // ------------------------------------------------------------------ what is no select

  lemma WideIndexRefused(i: int)
    requires !Fits32(i)
    ensures ParseRange(IndexText(i)) == None
  {
    hide FindChar, IntText, LeadingNumber;
    var a := IntText(i);
    var n: nat := if i < 0 then -i else i;
    ReadsAnyNumber(i);
    NumberIsPlain(i);
    assert ':' !in "-0123456789";
    NoSuchChar(a, ':');
    ColonAt(a, "]");
    assert IndexText(i)[1..|IndexText(i)|-1] == a;
  }

  lemma ReadsAnyNumber(i: int)
    ensures LeadingNumber(IntText(i)) == Some(i)
  {
    var n: nat := if i < 0 then -i else i;
    NatTextValue(n);
    SignedDigitsOf(NatText(n));
  }

  /** What is found under a path without an entry is always a select of a key in front of it that can be selected. */
  lemma LookupSound(db: Db, path: string)
    requires Consistent(db) && path !in db.variables && Lookup(db, path).Ok?
    ensures var d := Lookup(db, path).value;
      && d.Part? && CanBeSelected(db, d.source) && d.source <= path && |d.source| < |path|
      && d.v == db.variables[d.source] && CountsFrom(d.v, d.select)
      && ParseRange(path[|d.source|..]) == Some((d.select.left, d.select.right))
  {
    hide PartsOf, ParseRange, LongestUpTo;
    LookupChoosesLongest(db, path);
    var range := ParseRange(path[|Lookup(db, path).value.source|..]).value;
    assert range == (range.0, range.1);
  }

  /**
   The k-th bit of a select [left:right] is the one with the k-th index on the way from left to
   right; indices count down from the left end of the text when the base range falls, and up
   otherwise, also when it is a single index.
   */
  lemma BitsSelected(baseLeft: int, baseRight: int, left: int, right: int, bits: string, k: nat)
    requires Projected(Select(baseLeft, baseRight, left, right), bits).Some?
    ensures var text := Projected(Select(baseLeft, baseRight, left, right), bits).value;
      && |text| == (if left <= right then right - left else left - right) + 1
      && (k < |text| ==>
            var index := if left <= right then left + k else left - k;
            var place := if baseLeft > baseRight then baseLeft - index else index - baseLeft;
            0 <= place < |bits| && text[k] == bits[place])
  {
  }
}
