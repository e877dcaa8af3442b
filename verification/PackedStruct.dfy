/**
 Bit ranges of packed structures. A packed structure is declared without a range; once all
 signals are known, each one is given the range [width-1:0], the width being the sum over its
 parts. The table is walked in hash order, so a packed part may still be without its range
 when the structure around it is summed up.
 */
module PackedStruct {
  import opened Waveform
  import opened Database
  import opened Composite

  function Distance(left: int, right: int): nat {
    if left <= right then right - left else left - right
  }

  /** The width a declaration gives. */
  function Span(v: Var): nat {
    Distance(v.left, v.right) + 1
  }

  /** The width a part contributes, going by its current entry. */
  function CountedWidth(v: Var): nat {
    if v.packed && v.packedLeft != v.packedRight then Distance(v.packedLeft, v.packedRight) + 1 else Span(v)
  }

  function SumWidths(table: map<string, Var>, parts: seq<string>): nat
    decreases |parts|
  {
    if parts == [] then 0 else
    var last := parts[|parts|-1];
    SumWidths(table, parts[..|parts|-1]) + (if last in table then CountedWidth(table[last]) else 0)
  }

  /** What is done with one entry. */
  function WithRange(table: map<string, Var>, key: string, parts: seq<string>): map<string, Var>
    requires key in table
  {
    var width := SumWidths(table, parts);
    if !table[key].packed || width == 0 then table
    else table[key := table[key].(packedLeft := width - 1, packedRight := 0)]
  }

  /** The table after the first n entries. */
  function Finalized(db: Db, n: nat): (table: map<string, Var>)
    requires Consistent(db) && n <= |db.order|
    ensures table.Keys == db.variables.Keys
  {
    if n == 0 then db.variables
    else WithRange(Finalized(db, n - 1), db.order[n-1], PartsOf(db, db.order[n-1]))
  }

  /** Two entries differ at most in the range of a packed structure. */
  predicate Redeclared(v: Var, w: Var) {
    w == v.(packedLeft := w.packedLeft, packedRight := w.packedRight) && (!v.packed ==> w == v)
  }

  lemma {:induction false} FinalizedRedeclares(db: Db, n: nat, key: string)
    requires Consistent(db) && n <= |db.order| && key in db.variables
    ensures Redeclared(db.variables[key], Finalized(db, n)[key])
  {
    hide PartsOf, SumWidths;
    if n > 0 {
      FinalizedRedeclares(db, n - 1, key);
    }
  }

  lemma SamePartsAfter(db: Db, table: map<string, Var>, path: string)
    requires Consistent(db) && table.Keys == db.variables.Keys
    requires forall key :: key in table ==> Redeclared(db.variables[key], table[key])
    ensures Consistent(db.(variables := table)) && PartsOf(db.(variables := table), path) == PartsOf(db, path)
  {
    hide SortParts, AddAll, AddParts;
  }

  /** The reader's signal table, as it stands after the tree has been read. */
  class SignalTable {
    var db: Db

    constructor (db: Db)
      ensures this.db == db
    {
      this.db := db;
    }

    method FinalizePackedStructRanges()
      requires Consistent(db)
      modifies this
      ensures db == old(db).(variables := Finalized(old(db), |old(db).order|))
    {
      hide PartsOf, WithRange, SumWidths;
      ghost var was := db;
      for i := 0 to |db.order|
        invariant db == was.(variables := Finalized(was, i))
      {
        var key := db.order[i];
        forall k | k in was.variables ensures Redeclared(was.variables[k], Finalized(was, i)[k]) {
          FinalizedRedeclares(was, i, k);
        }
        SamePartsAfter(was, db.variables, key);
        WithRangeIs(db.variables, key, PartsOf(was, key));
        if !db.variables[key].packed {
          continue;
        }
        var children := CompositeChildren(db, key);
        var width := 0;
        NoWidths(db.variables);
        for k := 0 to |children|
          invariant db == was.(variables := Finalized(was, i))
          invariant width == SumWidths(db.variables, children[..k])
        {
          WidthsStep(db.variables, children, k);
          if children[k] !in db.variables {
            continue;
          }
          var child := db.variables[children[k]];
          width := width + if child.packed && child.packedLeft != child.packedRight
            then Distance(child.packedLeft, child.packedRight) + 1
            else Distance(child.left, child.right) + 1;
        }
        assert children[..|children|] == children;
        if width != 0 {
          var v := db.variables[key];
          db := db.(variables := db.variables[key := v.(packedLeft := width - 1, packedRight := 0)]);
        }
      }
    }
  }

  lemma WithRangeIs(table: map<string, Var>, key: string, parts: seq<string>)
    requires key in table
    ensures WithRange(table, key, parts) ==
      var width := SumWidths(table, parts);
      if !table[key].packed || width == 0 then table
      else table[key := table[key].(packedLeft := width - 1, packedRight := 0)]
  {
    hide SumWidths;
  }

  lemma NoWidths(table: map<string, Var>)
    ensures SumWidths(table, []) == 0
  {
  }

  lemma WidthsStep(table: map<string, Var>, parts: seq<string>, k: nat)
    requires k < |parts|
    ensures SumWidths(table, parts[..k+1])
      == SumWidths(table, parts[..k]) + (if parts[k] in table then CountedWidth(table[parts[k]]) else 0)
    ensures parts[..0] == []
  {
    hide CountedWidth;
    assert parts[..k+1][..k] == parts[..k];
  }

  // ------------------------------------------------------------------ real widths

  /** The width really below a path: the sum over its parts for a packed structure, at any depth. */
  ghost function TrueWidth(db: Db, path: string): nat
    requires Consistent(db) && path in db.variables
    decreases Room(db, path), 1
  {
    var sum := if db.variables[path].packed then TrueWidths(db, path, PartsOf(db, path)) else 0;
    if sum == 0 then Span(db.variables[path]) else sum
  }

  ghost function TrueWidths(db: Db, path: string, parts: seq<string>): nat
    requires Consistent(db) && path in db.variables
    requires forall p :: p in parts ==> p in PartsOf(db, path)
    decreases Room(db, path), 0, |parts|
  {
    if parts == [] then 0 else
    var last := parts[|parts|-1];
    PartHasLessRoom(db, path, last);
    TrueWidths(db, path, parts[..|parts|-1]) + (if last in db.variables then TrueWidth(db, last) else 0)
  }

  lemma {:induction false} TrueWidthPositive(db: Db, path: string)
    requires Consistent(db) && path in db.variables
    ensures TrueWidth(db, path) >= 1
  {
    hide PartsOf, Room, LongestName, TrueWidths;
  }

  /** How the tree callbacks leave the table: packed structures have neither an id nor a range. */
  predicate Unranged(db: Db) {
    forall k :: k in db.variables && db.variables[k].packed ==>
      var v := db.variables[k];
      v.id == 0 && v.left == v.right && v.packedLeft == v.packedRight == 0
  }

  lemma FinalizedStep(db: Db, n: nat, key: string)
    requires Consistent(db) && 0 < n <= |db.order| && key in db.variables && key != db.order[n-1]
    ensures Finalized(db, n)[key] == Finalized(db, n - 1)[key]
  {
    hide PartsOf, SumWidths;
  }

  /** The entry in force for key once all of them are done is the one given when its turn came. */
  lemma {:induction false} SettledAfterTurn(db: Db, i: nat, n: nat)
    requires Consistent(db) && Distinct(db.order) && i < n <= |db.order|
    ensures Finalized(db, n)[db.order[i]] == Finalized(db, i + 1)[db.order[i]]
    decreases n
  {
    hide PartsOf, Finalized;
    if n > i + 1 {
      FinalizedStep(db, n, db.order[i]);
      SettledAfterTurn(db, i, n - 1);
    }
  }

  lemma {:induction false} UntouchedBeforeTurn(db: Db, i: nat, n: nat)
    requires Consistent(db) && Distinct(db.order) && n <= i < |db.order|
    ensures Finalized(db, n)[db.order[i]] == db.variables[db.order[i]]
  {
    hide PartsOf, Finalized;
    if n == 0 {
      NothingFinalized(db);
    } else {
      FinalizedStep(db, n, db.order[i]);
      UntouchedBeforeTurn(db, i, n - 1);
    }
  }

  lemma NothingFinalized(db: Db)
    requires Consistent(db)
    ensures Finalized(db, 0) == db.variables
  {
    hide PartsOf, WithRange;
  }

  function Final(db: Db): map<string, Var>
    requires Consistent(db)
  {
    Finalized(db, |db.order|)
  }

  function FinalWidth(db: Db, path: string): nat
    requires Consistent(db) && path in db.variables
  {
    CountedWidth(Final(db)[path])
  }

  /** The entry ends up with the width that is really below it. */
  ghost predicate Exact(db: Db, path: string)
    requires Consistent(db) && path in db.variables
  {
    FinalWidth(db, path) == TrueWidth(db, path)
  }

  predicate Earlier(order: seq<string>, a: string, b: string) {
    exists j :: 0 <= j < |order| && order[j] == b && a in order[..j]
  }

  /** A packed part whose turn comes only after that of the structure around it. */
  predicate Late(db: Db, path: string, part: string) {
    part in db.variables && db.variables[part].packed && !Earlier(db.order, part, path)
  }

  lemma EarlierAt(order: seq<string>, a: string, i: nat)
    requires Distinct(order) && i < |order|
    ensures Earlier(order, a, order[i]) <==> a in order[..i]
  {
  }

  lemma RangeAtTurn(db: Db, i: nat)
    requires Consistent(db) && i < |db.order|
    ensures Finalized(db, i + 1) == WithRange(Finalized(db, i), db.order[i], PartsOf(db, db.order[i]))
  {
    hide PartsOf, WithRange;
  }

  lemma {:induction false} KeepsItsEntry(db: Db, path: string, n: nat)
    requires Consistent(db) && path in db.variables && !db.variables[path].packed && n <= |db.order|
    ensures Finalized(db, n)[path] == db.variables[path]
  {
    hide PartsOf, Finalized;
    FinalizedRedeclares(db, n, path);
  }

  /** What a part counts when the turn of the i-th entry comes. */
  lemma CountsAtTurn(db: Db, i: nat, part: string)
    requires Consistent(db) && Distinct(db.order) && Unranged(db) && i < |db.order| && part in db.variables
    ensures CountedWidth(Finalized(db, i)[part]) == if Late(db, db.order[i], part) then 1 else FinalWidth(db, part)
  {
    hide PartsOf, WithRange, Finalized;
    EarlierAt(db.order, part, i);
    if !db.variables[part].packed {
      KeepsItsEntry(db, part, i);
      KeepsItsEntry(db, part, |db.order|);
    } else if part in db.order[..i] {
      var j :| 0 <= j < i && db.order[j] == part;
      SettledAfterTurn(db, j, i);
      SettledAfterTurn(db, j, |db.order|);
    } else {
      assert forall j :: 0 <= j < i ==> db.order[..i][j] == db.order[j];
      var j :| 0 <= j < |db.order| && db.order[j] == part;
      UntouchedBeforeTurn(db, j, i);
    }
  }

  /** What a part counts at the turn of path is what is really below it. */
  ghost predicate CountsRight(db: Db, path: string, part: string)
    requires Consistent(db) && part in db.variables
  {
    if Late(db, path, part) then TrueWidth(db, part) == 1 else Exact(db, part)
  }

  /** The sum at a structure's turn never exceeds the real one, and meets it part by part. */
  lemma {:induction false} SumAtTurn(db: Db, i: nat, parts: seq<string>)
    requires Consistent(db) && Distinct(db.order) && Unranged(db) && i < |db.order|
    requires forall p :: p in parts ==> p in PartsOf(db, db.order[i])
    requires forall p :: p in parts && p in db.variables ==> FinalWidth(db, p) <= TrueWidth(db, p)
    ensures
      var sum, all := SumWidths(Finalized(db, i), parts), TrueWidths(db, db.order[i], parts);
      && sum <= all && (sum == 0 <==> all == 0)
      && (sum == all <==> forall p :: p in parts && p in db.variables ==> CountsRight(db, db.order[i], p))
    decreases |parts|
  {
    hide PartsOf, TrueWidth, Room, LongestName, Finalized, CountedWidth, FinalWidth, Late;
    if parts != [] {
      var front, last := parts[..|parts|-1], parts[|parts|-1];
      assert parts == front + [last];
      SumAtTurn(db, i, front);
      if last in db.variables {
        PartHasLessRoom(db, db.order[i], last);
        CountsAtTurn(db, i, last);
        TrueWidthPositive(db, last);
        FinalPositive(db, last);
      }
    }
  }

  lemma FinalPositive(db: Db, path: string)
    requires Consistent(db) && path in db.variables
    ensures FinalWidth(db, path) >= 1
  {
    hide Finalized;
  }

  /** What a packed structure ends up with, in terms of its parts. */
  lemma WidthFromParts(db: Db, path: string)
    requires Consistent(db) && Distinct(db.order) && Unranged(db) && path in db.variables && db.variables[path].packed
    requires forall p :: p in PartsOf(db, path) && p in db.variables ==> FinalWidth(db, p) <= TrueWidth(db, p)
    ensures FinalWidth(db, path) <= TrueWidth(db, path)
    ensures Exact(db, path) <==> forall p :: p in PartsOf(db, path) && p in db.variables ==> CountsRight(db, path, p)
    ensures Final(db)[path].packedRight == 0 && Final(db)[path].packedLeft == FinalWidth(db, path) - 1
  {
    hide PartsOf, TrueWidths, Room, LongestName, Finalized, SumWidths, CountsRight;
    var i :| 0 <= i < |db.order| && db.order[i] == path;
    SumAtTurn(db, i, PartsOf(db, path));
    RangeAtTurn(db, i);
    SettledAfterTurn(db, i, |db.order|);
    UntouchedBeforeTurn(db, i, i);
  }

  /** No entry ever ends up wider than it is. */
  lemma {:induction false} NeverWider(db: Db, path: string)
    requires Consistent(db) && Distinct(db.order) && Unranged(db) && path in db.variables
    ensures FinalWidth(db, path) <= TrueWidth(db, path)
    ensures !db.variables[path].packed ==> Exact(db, path)
    decreases Room(db, path)
  {
    hide PartsOf, TrueWidths, Room, LongestName, Finalized;
    if db.variables[path].packed {
      forall p | p in PartsOf(db, path) && p in db.variables ensures FinalWidth(db, p) <= TrueWidth(db, p) {
        PartHasLessRoom(db, path, p);
        NeverWider(db, p);
      }
      WidthFromParts(db, path);
    } else {
      KeepsItsEntry(db, path, |db.order|);
    }
  }

  /**
   A packed structure ends up with its real width exactly when every part that has its turn
   later is a single bit wide and every other part ends up with its own real width.
   */
  lemma ExactIffPartsCountRight(db: Db, path: string)
    requires Consistent(db) && Distinct(db.order) && Unranged(db) && path in db.variables && db.variables[path].packed
    ensures Exact(db, path) <==> forall p :: p in PartsOf(db, path) && p in db.variables ==> CountsRight(db, path, p)
    ensures Final(db)[path].packedRight == 0 && Final(db)[path].packedLeft == FinalWidth(db, path) - 1
  {
    hide PartsOf, TrueWidth, Room, LongestName, Finalized, CountsRight, FinalWidth;
    forall p | p in PartsOf(db, path) && p in db.variables ensures FinalWidth(db, p) <= TrueWidth(db, p) {
      NeverWider(db, p);
    }
    WidthFromParts(db, path);
  }

  /** The same, down to the leaves, said of the tables and the order they are walked in. */
  ghost predicate InPlace(db: Db, path: string)
    requires Consistent(db) && path in db.variables
    decreases Room(db, path)
  {
    db.variables[path].packed ==>
      forall p :: p in PartsOf(db, path) && p in db.variables ==>
        (PartHasLessRoom(db, path, p); if Late(db, path, p) then TrueWidth(db, p) == 1 else InPlace(db, p))
  }

  lemma {:induction false} ExactIffInPlace(db: Db, path: string)
    requires Consistent(db) && Distinct(db.order) && Unranged(db) && path in db.variables
    ensures Exact(db, path) <==> InPlace(db, path)
    decreases Room(db, path)
  {
    hide PartsOf, TrueWidth, Room, LongestName, FinalWidth, Late;
    if db.variables[path].packed {
      ExactIffPartsCountRight(db, path);
      forall p | p in PartsOf(db, path) && p in db.variables ensures Exact(db, p) <==> InPlace(db, p) {
        PartHasLessRoom(db, path, p);
        ExactIffInPlace(db, p);
      }
    } else {
      NeverWider(db, path);
    }
  }

  /** In an order that visits inner structures first all widths are right, at any depth. */
  lemma {:induction false} InnerFirstIsExact(db: Db, path: string)
    requires Consistent(db) && Distinct(db.order) && Unranged(db) && path in db.variables
    requires forall outer, p :: outer in db.variables && p in PartsOf(db, outer) ==> !Late(db, outer, p)
    ensures Exact(db, path)
    decreases Room(db, path)
  {
    hide PartsOf, TrueWidth, Room, LongestName, FinalWidth, Late;
    if db.variables[path].packed {
      ExactIffPartsCountRight(db, path);
      forall p | p in PartsOf(db, path) && p in db.variables ensures CountsRight(db, path, p) {
        PartHasLessRoom(db, path, p);
        InnerFirstIsExact(db, p);
      }
    } else {
      NeverWider(db, path);
    }
  }

  /** A packed structure without packed structures inside gets its real width in every order. */
  lemma FlatIsExact(db: Db, path: string)
    requires Consistent(db) && Distinct(db.order) && Unranged(db) && path in db.variables
    requires forall p :: p in PartsOf(db, path) && p in db.variables ==> !db.variables[p].packed
    ensures Exact(db, path)
  {
    hide PartsOf, TrueWidth, Room, LongestName, FinalWidth;
    NeverWider(db, path);
    if db.variables[path].packed {
      ExactIffPartsCountRight(db, path);
      forall p | p in PartsOf(db, path) && p in db.variables ensures CountsRight(db, path, p) {
        NeverWider(db, p);
      }
    }
  }

  // --------------------------------------------------------- an order that goes wrong

  /** A packed structure o around a packed structure o.i with two bits o.i.a, walked in some order. */
  function NestedStruct(order: seq<string>): Db {
    Db(map["o" := Var(0, 0, 0, true, 0, 0, false), "o.i" := Var(0, 0, 0, true, 0, 0, false),
           "o.i.a" := Var(1, 1, 0, false, 0, 0, true)],
       order, map[], map[], File(0, 0, false))
  }

  lemma NestedParts(order: seq<string>)
    requires order == ["o.i", "o", "o.i.a"] || order == ["o", "o.i", "o.i.a"]
    ensures var db := NestedStruct(order);
      && Consistent(db) && Distinct(db.order) && Unranged(db)
      && PartsOf(db, "o") == ["o.i"] && PartsOf(db, "o.i") == ["o.i.a"]
  {
    hide PartNamedBy, PartsOf;
    var db := NestedStruct(order);
    assert |"o"| == 1 && |"o.i"| == 3 && |"o.i.a"| == 5;
    assert order[0] in order && order[1] in order && order[2] in order;
    NoLongerNoPart("o", "o");
    NoLongerNoPart("o.i", "o");
    NoLongerNoPart("o.i", "o.i");
    DottedPart("o", "i", "");
    DottedPart("o", "i", ".a");
    DottedPart("o.i", "a", "");
    assert "o" + "." + "i" + "" == "o.i" == "o" + "." + "i";
    assert "o" + "." + "i" + ".a" == "o.i.a" == "o.i" + "." + "a" == "o.i" + "." + "a" + "";
    assert forall v :: IsPart(db, "o", v) <==> v == "o.i";
    assert forall v :: IsPart(db, "o.i", v) <==> v == "o.i.a";
    OnlyPart(db, "o", "o.i");
    OnlyPart(db, "o.i", "o.i.a");
  }

  lemma NestedWidths(order: seq<string>)
    requires order == ["o.i", "o", "o.i.a"] || order == ["o", "o.i", "o.i.a"]
    ensures var db := NestedStruct(order);
      Consistent(db) && TrueWidth(db, "o") == 2 && TrueWidth(db, "o.i") == 2 && TrueWidth(db, "o.i.a") == 2
  {
    hide PartsOf, Room, TrueWidths;
    var db := NestedStruct(order);
    NestedParts(order);
    OnePartWidth(db, "o.i", "o.i.a");
    OnePartWidth(db, "o", "o.i");
  }

  lemma OnePartWidth(db: Db, path: string, part: string)
    requires Consistent(db) && path in db.variables && PartsOf(db, path) == [part] && part in db.variables
    ensures TrueWidths(db, path, [part]) == TrueWidth(db, part)
  {
    hide PartsOf, Room, TrueWidth;
    assert [part][..0] == [];
    assert TrueWidths(db, path, []) == 0;
  }

  /** The same tables in two hash orders: in one the outer structure is right, in the other it is not. */
  lemma OrderMatters()
    ensures var db := NestedStruct(["o.i", "o", "o.i.a"]); Consistent(db) && FinalWidth(db, "o") == TrueWidth(db, "o") == 2
    ensures var db := NestedStruct(["o", "o.i", "o.i.a"]); Consistent(db) && FinalWidth(db, "o") == 1 && TrueWidth(db, "o") == 2
  {
    hide PartsOf, Room, TrueWidth, FinalWidth;
    var right, wrong := ["o.i", "o", "o.i.a"], ["o", "o.i", "o.i.a"];
    NestedParts(right);
    NestedWidths(right);
    assert right[..1] == ["o.i"] && wrong[..0] == [];
    EarlierAt(right, "o.i", 1);
    FlatIsExact(NestedStruct(right), "o.i");
    ExactIffPartsCountRight(NestedStruct(right), "o");
    NestedParts(wrong);
    NestedWidths(wrong);
    EarlierAt(wrong, "o.i", 0);
    ExactIffPartsCountRight(NestedStruct(wrong), "o");
    NeverWider(NestedStruct(wrong), "o");
    FinalPositive(NestedStruct(wrong), "o");
  }
}
