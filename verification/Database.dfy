/**
 The tables of signals: which parts a composite signal has, and which signal a path names.

 The tables are hash maps; order is the order in which they happen to be iterated.
 */
module Database {
  import opened CText
  import opened Radix
  import opened Waveform

  /** One entry of the signal table; id 0 marks a composite. */
  datatype Var = Var(
    id: nat,
    left: int, right: int,
    packed: bool, packedLeft: int, packedRight: int,
    readable: bool)           // the reader supports the encoding

  datatype Db = Db(
    variables: map<string, Var>,
    order: seq<string>,                   // the keys of variables, in hash order
    listed: map<string, seq<string>>,     // full names of the signals listed in each scope
    traces: map<nat, seq<Event>>,
    file: File)

  predicate Distinct(s: seq<string>) {
    forall i, j :: 0 <= i < j < |s| ==> s[i] != s[j]
  }

  /** The order really iterates the table, and listed signals lie under their scope. */
  predicate Consistent(db: Db) {
    && (forall k :: k in db.variables ==> k in db.order)
    && (forall i :: 0 <= i < |db.order| ==> db.order[i] in db.variables)
    && (forall p :: p in db.listed ==> forall i :: 0 <= i < |db.listed[p]| ==> |db.listed[p][i]| > |p|)
  }

  // --------------------------------------------------------------------- text

  /** std::string::find for one character; the length of the text when it is absent. */
  function FindChar(s: string, c: char, from: nat): (i: nat)
    requires from <= |s|
    ensures from <= i <= |s|
    ensures forall k :: from <= k < i ==> s[k] != c
    ensures i < |s| ==> s[i] == c
    decreases |s| - from
  {
    if from == |s| || s[from] == c then from else FindChar(s, c, from + 1)
  }

  function ParseRange(text: string): Option<(int, int)> {
    if |text| < 3 || text[0] != '[' || text[|text|-1] != ']' then None else
    var colon := FindChar(text, ':', 1);
    if colon == |text| then
      match Stoi(text[1..|text|-1])
      case None => None
      case Some(n) => Some((n, n))
    else
      match Stoi(text[1..colon])
      case None => None
      case Some(l) =>
        match Stoi(text[colon+1..|text|-1])
        case None => None
        case Some(r) => Some((l, r))
  }

  /** The index by which parts of an array are sorted: the last number that could be read. */
  function SortKey(text: string): int {
    if |text| < 3 || text[0] != '[' || text[|text|-1] != ']' then 0 else
    var colon := FindChar(text, ':', 1);
    if colon == |text| then Stoi(text[1..|text|-1]).GetOr(0) else
    match Stoi(text[1..colon])
    case None => 0
    case Some(l) => Stoi(text[colon+1..|text|-1]).GetOr(l)
  }

  // ----------------------------------------------------------- parts of a composite

  /** The direct part of path that a longer key belongs to. */
  function PartNamedBy(path: string, key: string): (r: Option<string>)
    ensures r.Some? ==> |r.value| > |path| && path <= r.value
  {
    if path + "." <= key then
      var rest := key[|path|+1..];
      var dot, bracket := FindChar(rest, '.', 0), FindChar(rest, '[', 0);
      Some(path + "." + rest[..if dot <= bracket then dot else bracket])
    else if path + "[" <= key then
      var end := FindChar(key, ']', |path| + 1);
      if end < |key| then Some(key[..end+1]) else None
    else None
  }

  lemma FindsNothing(s: string, c: char, n: nat)
    requires n <= |s| && forall i :: 0 <= i < n ==> s[i] != c
    ensures FindChar(s, c, 0) >= n && (n < |s| && s[n] == c ==> FindChar(s, c, 0) == n)
  {
  }

  /** A name behind a dot, up to the next dot or bracket, is a part. */
  lemma DottedPart(path: string, name: string, tail: string)
    requires '.' !in name && '[' !in name && (tail == "" || tail[0] == '.' || tail[0] == '[')
    ensures PartNamedBy(path, path + "." + name + tail) == Some(path + "." + name)
  {
    hide FindChar;
    var key := path + "." + name + tail;
    var rest := key[|path|+1..];
    assert rest == name + tail && rest[..|name|] == name;
    assert key[..|path|+1] == path + ".";
    forall i | 0 <= i < |name| ensures rest[i] != '.' && rest[i] != '[' {
      assert rest[i] == name[i] && name[i] in name;
    }
    FindsNothing(rest, '.', |name|);
    FindsNothing(rest, '[', |name|);
  }

  /** A bracket behind the path, up to the closing one, is a part. */
  lemma BracketPart(path: string, index: string, tail: string)
    requires ']' !in index
    ensures PartNamedBy(path, path + "[" + index + "]" + tail) == Some(path + "[" + index + "]")
  {
    var key := path + "[" + index + "]" + tail;
    assert key[|path|] == '[' && key[..|path|+1] == path + "[";
    assert forall i :: |path| + 1 <= i < |path| + 1 + |index| ==> key[i] == index[i-|path|-1] && key[i] in index;
    assert key[|path|+1+|index|] == ']';
    assert key[..|path|+2+|index|] == path + "[" + index + "]";
  }

  lemma NoLongerNoPart(path: string, key: string)
    requires |key| <= |path|
    ensures PartNamedBy(path, key).None?
  {
  }

  lemma OnlyPart(db: Db, path: string, part: string)
    requires Consistent(db) && forall v :: IsPart(db, path, v) <==> v == part
    ensures PartsOf(db, path) == [part]
  {
    hide PartsOf, IsPart;
    var parts := PartsOf(db, path);
    var first, second := if parts != [] then parts[0] else part, if |parts| > 1 then parts[1] else part;
    PartsMembers(db, path);
    assert part in parts;
    forall i | 0 <= i < |parts| ensures parts[i] == part {
      assert parts[i] in parts && IsPart(db, path, parts[i]);
    }
    assert |parts| < 2 || first != second;
  }

  function AddOnce(found: seq<string>, value: string): seq<string> {
    if value in found then found else found + [value]
  }

  function AddAll(found: seq<string>, values: seq<string>): seq<string> {
    if values == [] then found else AddOnce(AddAll(found, values[..|values|-1]), values[|values|-1])
  }

  function AddParts(found: seq<string>, path: string, keys: seq<string>): seq<string> {
    if keys == [] then found else
    var sofar := AddParts(found, path, keys[..|keys|-1]);
    match PartNamedBy(path, keys[|keys|-1])
    case None => sofar
    case Some(part) => AddOnce(sofar, part)
  }

  predicate ComesBefore(path: string, descending: bool, a: string, b: string)
    requires |a| >= |path| && |b| >= |path|
  {
    if descending then SortKey(a[|path|..]) > SortKey(b[|path|..]) else SortKey(a[|path|..]) < SortKey(b[|path|..])
  }

  predicate AllLonger(s: seq<string>, n: nat) {
    forall i :: 0 <= i < |s| ==> |s[i]| > n
  }

  /** Inserts behind everything that does not come later. */
  function InsertPart(path: string, descending: bool, sorted: seq<string>, part: string): (r: seq<string>)
    requires AllLonger(sorted, |path|) && |part| > |path|
    ensures AllLonger(r, |path|)
  {
    if sorted == [] || !ComesBefore(path, descending, part, sorted[|sorted|-1]) then sorted + [part]
    else InsertPart(path, descending, sorted[..|sorted|-1], part) + [sorted[|sorted|-1]]
  }

  /** std::sort by index. */
  function SortParts(path: string, descending: bool, parts: seq<string>): (r: seq<string>)
    requires AllLonger(parts, |path|)
    ensures AllLonger(r, |path|)
  {
    if parts == [] then []
    else InsertPart(path, descending, SortParts(path, descending, parts[..|parts|-1]), parts[|parts|-1])
  }

  lemma {:induction false} InsertPartMembers(path: string, descending: bool, sorted: seq<string>, part: string)
    requires AllLonger(sorted, |path|) && |part| > |path|
    ensures var r := InsertPart(path, descending, sorted, part);
      && (forall v :: v in r <==> v in sorted || v == part)
      && (Distinct(sorted) && part !in sorted ==> Distinct(r))
    decreases |sorted|
  {
    hide ComesBefore;
    if sorted != [] {
      var front, last := sorted[..|sorted|-1], sorted[|sorted|-1];
      assert sorted == front + [last];
      InsertPartMembers(path, descending, front, part);
      if Distinct(sorted) {
        assert last !in front;
      }
      DistinctAppend(sorted, part);
      DistinctAppend(InsertPart(path, descending, front, part), last);
    }
  }

  lemma DistinctAppend(s: seq<string>, v: string)
    ensures forall w :: w in s + [v] <==> w in s || w == v
    ensures Distinct(s) && v !in s ==> Distinct(s + [v])
  {
  }

  lemma {:induction false} SortPartsMembers(path: string, descending: bool, parts: seq<string>)
    requires AllLonger(parts, |path|)
    ensures var r := SortParts(path, descending, parts);
      && (forall v :: v in r <==> v in parts)
      && (Distinct(parts) ==> Distinct(r))
    decreases |parts|
  {
    hide InsertPart;
    if parts != [] {
      var front, last := parts[..|parts|-1], parts[|parts|-1];
      assert parts == front + [last];
      SortPartsMembers(path, descending, front);
      InsertPartMembers(path, descending, SortParts(path, descending, front), last);
    }
  }

  /** Sorting really sorts: no part comes before one that stands in front of it. */
  predicate InOrder(path: string, descending: bool, parts: seq<string>)
    requires AllLonger(parts, |path|)
  {
    forall i, j :: 0 <= i < j < |parts| ==> !ComesBefore(path, descending, parts[j], parts[i])
  }

  lemma {:induction false} InsertPartInOrder(path: string, descending: bool, sorted: seq<string>, part: string)
    requires AllLonger(sorted, |path|) && |part| > |path| && InOrder(path, descending, sorted)
    ensures InOrder(path, descending, InsertPart(path, descending, sorted, part))
    decreases |sorted|
  {
    hide SortKey;
    if sorted != [] && ComesBefore(path, descending, part, sorted[|sorted|-1]) {
      var front, last := sorted[..|sorted|-1], sorted[|sorted|-1];
      InsertPartInOrder(path, descending, front, part);
      InsertPartMembers(path, descending, front, part);
      var r := InsertPart(path, descending, front, part);
      forall i | 0 <= i < |r| ensures !ComesBefore(path, descending, last, r[i]) {
        assert r[i] in r;
        if r[i] != part {
          var k :| 0 <= k < |front| && front[k] == r[i];
          assert sorted[k] == front[k];
        }
      }
    }
  }

  lemma {:induction false} SortPartsInOrder(path: string, descending: bool, parts: seq<string>)
    requires AllLonger(parts, |path|)
    ensures InOrder(path, descending, SortParts(path, descending, parts))
    decreases |parts|
  {
    hide InsertPart, ComesBefore;
    if parts != [] {
      SortPartsInOrder(path, descending, parts[..|parts|-1]);
      InsertPartInOrder(path, descending, SortParts(path, descending, parts[..|parts|-1]), parts[|parts|-1]);
    }
  }

  function ListedAt(db: Db, path: string): seq<string> {
    if path in db.listed then db.listed[path] else []
  }

  function UnsortedParts(db: Db, path: string): seq<string> {
    AddParts(AddAll([], ListedAt(db, path)), path, db.order)
  }

  /** The direct parts of a composite signal, each once. */
  function PartsOf(db: Db, path: string): seq<string>
    requires Consistent(db)
  {
    UnsortedLonger(db, path);
    var parts := UnsortedParts(db, path);
    if path in db.variables && db.variables[path].left != db.variables[path].right
    then SortParts(path, db.variables[path].left > db.variables[path].right, parts)
    else parts
  }

  method CompositeChildren(db: Db, path: string) returns (result: seq<string>)
    requires Consistent(db)
    ensures result == PartsOf(db, path)
  {
    hide PartNamedBy, SortParts;
    result := [];
    var listed := ListedAt(db, path);
    for i := 0 to |listed|
      invariant result == AddAll([], listed[..i])
    {
      assert listed[..i+1][..i] == listed[..i];
      if listed[i] !in result {
        result := result + [listed[i]];
      }
    }
    assert listed[..|listed|] == listed;
    ghost var first := result;
    for i := 0 to |db.order|
      invariant result == AddParts(first, path, db.order[..i])
    {
      assert db.order[..i+1][..i] == db.order[..i];
      var part := PartNamedBy(path, db.order[i]);
      if part.Some? && part.value !in result {
        result := result + [part.value];
      }
    }
    assert db.order[..|db.order|] == db.order;
    UnsortedLonger(db, path);
    if path in db.variables && db.variables[path].left != db.variables[path].right {
      result := SortParts(path, db.variables[path].left > db.variables[path].right, result);
    }
  }

  lemma {:induction false} AddAllMembers(found: seq<string>, values: seq<string>)
    ensures forall v :: v in AddAll(found, values) <==> v in found || v in values
    ensures Distinct(found) ==> Distinct(AddAll(found, values))
    decreases |values|
  {
    if values != [] {
      AddAllMembers(found, values[..|values|-1]);
      assert values == values[..|values|-1] + [values[|values|-1]];
    }
  }

  /** Some key spells the name as a part of path. */
  predicate SpelledBy(path: string, keys: seq<string>, name: string) {
    exists i :: 0 <= i < |keys| && PartNamedBy(path, keys[i]) == Some(name)
  }

  lemma {:induction false} AddPartsMembers(found: seq<string>, path: string, keys: seq<string>)
    ensures forall v :: v in AddParts(found, path, keys) <==> (v in found || SpelledBy(path, keys, v))
    ensures Distinct(found) ==> Distinct(AddParts(found, path, keys))
    decreases |keys|
  {
    hide PartNamedBy;
    if keys != [] {
      var front := keys[..|keys|-1];
      AddPartsMembers(found, path, front);
      forall v ensures SpelledBy(path, keys, v) <==> (SpelledBy(path, front, v) || PartNamedBy(path, keys[|keys|-1]) == Some(v)) {
        if SpelledBy(path, front, v) {
          var i :| 0 <= i < |front| && PartNamedBy(path, front[i]) == Some(v);
          assert keys[i] == front[i];
        }
        if SpelledBy(path, keys, v) {
          var i :| 0 <= i < |keys| && PartNamedBy(path, keys[i]) == Some(v);
          assert i < |front| ==> front[i] == keys[i];
        }
      }
    }
  }

  lemma UnsortedLonger(db: Db, path: string)
    requires Consistent(db)
    ensures AllLonger(UnsortedParts(db, path), |path|)
  {
    hide PartNamedBy;
    AddAllMembers([], ListedAt(db, path));
    AddPartsMembers(AddAll([], ListedAt(db, path)), path, db.order);
    var parts := UnsortedParts(db, path);
    forall i | 0 <= i < |parts| ensures |parts[i]| > |path| {
      assert parts[i] in parts;
    }
  }

  /** Whether name is a direct part of path, said without any order. */
  predicate IsPart(db: Db, path: string, name: string) {
    name in ListedAt(db, path) || exists k :: k in db.variables && PartNamedBy(path, k) == Some(name)
  }

  /** The parts are the names listed under the path or spelled by longer keys, each once, all longer. */
  lemma PartsMembers(db: Db, path: string)
    requires Consistent(db)
    ensures forall v :: v in PartsOf(db, path) <==> IsPart(db, path, v)
    ensures Distinct(PartsOf(db, path)) && AllLonger(PartsOf(db, path), |path|)
  {
    hide PartNamedBy;
    AddAllMembers([], ListedAt(db, path));
    AddPartsMembers(AddAll([], ListedAt(db, path)), path, db.order);
    UnsortedLonger(db, path);
    var unsorted := UnsortedParts(db, path);
    if path in db.variables {
      SortPartsMembers(path, db.variables[path].left > db.variables[path].right, unsorted);
    }
    forall v ensures v in PartsOf(db, path) <==> IsPart(db, path, v) {
      SpelledInOrder(db, path, v);
    }
  }

  lemma SpelledInOrder(db: Db, path: string, name: string)
    requires Consistent(db)
    ensures SpelledBy(path, db.order, name) <==> exists k :: k in db.variables && PartNamedBy(path, k) == Some(name)
  {
    hide PartNamedBy;
    if k :| k in db.variables && PartNamedBy(path, k) == Some(name) {
      var i :| 0 <= i < |db.order| && db.order[i] == k;
    }
  }

  // ---------------------------------------------------------------------- lookup

  /** The signal itself, or a bit select of a shorter key. */
  datatype Descriptor = Whole(v: Var) | Part(source: string, v: Var, select: Select)

  /** The key can carry the rest of the path as a bit select. */
  predicate Candidate(db: Db, path: string, key: string)
    requires Consistent(db)
  {
    && key in db.variables && 0 < |key| < |path| && key <= path
    && (db.variables[key].id != 0 || PartsOf(db, key) != [])
    && ParseRange(path[|key|..]).Some?
  }

  predicate CandidateAt(db: Db, path: string, n: nat)
    requires Consistent(db)
  {
    n <= |path| && Candidate(db, path, path[..n])
  }

  /** The length of the longest candidate no longer than n; 0 when there is none. */
  function LongestUpTo(db: Db, path: string, n: nat): nat
    requires Consistent(db) && n <= |path|
  {
    if n == 0 || CandidateAt(db, path, n) then n else LongestUpTo(db, path, n - 1)
  }

  lemma {:induction false} LongestIsLongest(db: Db, path: string, n: nat)
    requires Consistent(db) && n <= |path|
    ensures var best := LongestUpTo(db, path, n);
      best <= n && (best > 0 ==> CandidateAt(db, path, best))
      && forall m: nat :: best < m <= n ==> !CandidateAt(db, path, m)
  {
    hide CandidateAt;
    if n != 0 && !CandidateAt(db, path, n) {
      LongestIsLongest(db, path, n - 1);
    }
  }

  function SelectOf(db: Db, path: string, key: string): Descriptor
    requires Consistent(db) && Candidate(db, path, key)
  {
    var v := db.variables[key];
    var (left, right) := ParseRange(path[|key|..]).value;
    Part(key, v, Select(if v.packed then v.packedLeft else v.left, if v.packed then v.packedRight else v.right, left, right))
  }

  function Lookup(db: Db, path: string): Result<Descriptor>
    requires Consistent(db)
  {
    if path in db.variables then Ok(Whole(db.variables[path])) else
    LongestIsLongest(db, path, |path|);
    var best := LongestUpTo(db, path, |path|);
    if best == 0 then Err(SignalNotFound) else Ok(SelectOf(db, path, path[..best]))
  }

  method FindSignal(db: Db, path: string) returns (r: Result<Descriptor>)
    requires Consistent(db)
    ensures r == Lookup(db, path)
  {
    hide PartsOf, ParseRange, LongestUpTo, CandidateAt;
    if path in db.variables {
      return Ok(Whole(db.variables[path]));
    }
    var best := 0;
    var i := 0;
    while i < |db.order|
      invariant 0 <= i <= |db.order| && 0 <= best <= |path|
      invariant best > 0 ==> CandidateAt(db, path, best)
      invariant forall m: nat :: best < m <= |path| && CandidateAt(db, path, m) ==> path[..m] !in db.order[..i]
    {
      var key := db.order[i];
      assert db.order[..i+1] == db.order[..i] + [key];
      i := i + 1;
      CandidateAtKey(db, path, key);
      if |path| <= |key| || !(key <= path) {
        continue;
      }
      if db.variables[key].id == 0 {
        var parts := CompositeChildren(db, key);
        if parts == [] {
          continue;
        }
      }
      if ParseRange(path[|key|..]).None? || |key| <= best {
        continue;
      }
      best := |key|;
    }
    assert db.order[..i] == db.order;
    LongestIsLongest(db, path, |path|);
    CandidatesAreKeys(db, path);
    if best == 0 {
      return Err(SignalNotFound);
    }
    return Ok(SelectOf(db, path, path[..best]));
  }

  lemma CandidateAtKey(db: Db, path: string, key: string)
    requires Consistent(db)
    ensures key <= path ==> (CandidateAt(db, path, |key|) <==> Candidate(db, path, key))
    ensures forall m: nat :: m <= |path| && CandidateAt(db, path, m) && path[..m] == key ==> m == |key| && key <= path
  {
    hide PartsOf, ParseRange;
    assert key <= path ==> path[..|key|] == key;
  }

  lemma CandidatesAreKeys(db: Db, path: string)
    requires Consistent(db)
    ensures forall m: nat :: CandidateAt(db, path, m) ==> m <= |path| && 0 < m && path[..m] in db.order
    ensures forall m: nat :: CandidateAt(db, path, m) ==> Candidate(db, path, path[..m])
  {
    hide PartsOf, ParseRange;
  }

  /**
   An exact key wins; otherwise the longest key that can carry the rest of the path as a
   select is chosen, there is only one, and the look-up fails only when there is none.
   */
  lemma LookupChoosesLongest(db: Db, path: string)
    requires Consistent(db)
    ensures
      var r := Lookup(db, path);
      && (path in db.variables ==> r == Ok(Whole(db.variables[path])))
      && (path !in db.variables && r.Err? ==> forall key :: !Candidate(db, path, key))
      && (path !in db.variables && r.Ok? ==>
            && r.value.Part? && Candidate(db, path, r.value.source)
            && forall key :: Candidate(db, path, key) && key != r.value.source ==> |key| < |r.value.source|)
  {
    hide PartsOf, ParseRange, LongestUpTo, CandidateAt;
    LongestIsLongest(db, path, |path|);
    CandidatesAreKeys(db, path);
    var best := LongestUpTo(db, path, |path|);
    forall key | Candidate(db, path, key) ensures |key| <= best && (|key| == best ==> key == path[..best]) {
      CandidateAtKey(db, path, key);
      assert key == path[..|key|];
    }
  }

  lemma SamePartsInAnyOrder(db: Db, other: Db, path: string)
    requires Consistent(db) && Consistent(other)
    requires other.variables == db.variables && other.listed == db.listed
    ensures forall v :: v in PartsOf(db, path) <==> v in PartsOf(other, path)
    ensures PartsOf(db, path) == [] <==> PartsOf(other, path) == []
  {
    hide PartsOf, PartNamedBy;
    PartsMembers(db, path);
    PartsMembers(other, path);
    forall v ensures v in PartsOf(db, path) <==> v in PartsOf(other, path) {
      assert IsPart(db, path, v) <==> IsPart(other, path, v);
    }
    if PartsOf(db, path) != [] { assert PartsOf(db, path)[0] in PartsOf(db, path); }
    if PartsOf(other, path) != [] { assert PartsOf(other, path)[0] in PartsOf(other, path); }
  }

  /** Which signal a path names does not depend on how the hash table is iterated. */
  lemma LookupIgnoresOrder(db: Db, other: Db, path: string)
    requires Consistent(db) && Consistent(other)
    requires other.variables == db.variables && other.listed == db.listed
    ensures Lookup(db, path) == Lookup(other, path)
  {
    hide PartsOf, ParseRange, LongestUpTo;
    forall key ensures Candidate(db, path, key) <==> Candidate(other, path, key) {
      SamePartsInAnyOrder(db, other, key);
    }
    LongestIgnoresOrder(db, other, path, |path|);
  }

  lemma {:induction false} LongestIgnoresOrder(db: Db, other: Db, path: string, n: nat)
    requires Consistent(db) && Consistent(other) && n <= |path|
    requires forall key :: Candidate(db, path, key) <==> Candidate(other, path, key)
    ensures LongestUpTo(db, path, n) == LongestUpTo(other, path, n)
  {
    hide Candidate;
    if n > 0 {
      LongestIgnoresOrder(db, other, path, n - 1);
    }
  }
}
