/**
 Opening a file: the callbacks fill the tables, and the queries then work on those tables.
 */
module OpenedFile {
  import opened CText
  import opened Waveform
  import opened Database
  import opened Composite
  import opened Reading
  import opened Grounding
  import opened Endless
  import opened PackedStruct
  import opened ScopeTree
  import opened ScopeForest

  function VarOf(e: Entry): Var {
    Var(e.id, e.info.left, e.info.right, e.packed, 0, 0, e.readable)
  }

  function FullNames(infos: seq<Info>): seq<string> {
    seq(|infos|, i requires 0 <= i < |infos| => infos[i].fullName)
  }

  /** The tables as the queries see them; order is the hash order, traces what the file records. */
  function TablesOf(ix: Index, order: seq<string>, traces: map<nat, seq<Event>>, file: File): Db {
    Db(map k | k in ix.variables :: VarOf(ix.variables[k]),
       order,
       map p | p in ix.signals :: FullNames(ix.signals[p]),
       traces,
       file)
  }

  predicate Iterates(order: seq<string>, ix: Index) {
    && Distinct(order)
    && (forall i :: 0 <= i < |order| ==> order[i] in ix.variables)
    && (forall k :: k in ix.variables ==> k in order)
  }

  /**
   Whatever callbacks come, the tables are fit for the queries, in any hash order; the one
   exception is a nameless variable at the top, which would be listed under itself.
   */
  lemma OpenedTablesConsistent(callbacks: seq<Callback>, order: seq<string>, traces: map<nat, seq<Event>>, file: File)
    requires Iterates(order, Run(EMPTY, callbacks)) && "" !in Run(EMPTY, callbacks).variables
    ensures var db := TablesOf(Run(EMPTY, callbacks), order, traces, file);
      Consistent(db) && Unranged(db) && Distinct(db.order)
  {
    hide Run, Forest, StacksKnown;
    var ix := Run(EMPTY, callbacks);
    ClosedForest(callbacks);
    var db := TablesOf(ix, order, traces, file);
    forall p, i | p in db.listed && 0 <= i < |db.listed[p]| ensures |db.listed[p][i]| > |p| {
      assert ix.signals[p][i].fullName in ix.variables;
    }
  }

  function CompositeKeys(ix: Index): set<string> {
    set k | k in ix.variables && ix.variables[k].id == 0
  }

  /**
   Whatever callbacks come, every read of every path ends once each bracketed element that a
   longer name spells has been entered too.
   */
  lemma OpenedPathsAnswerable(callbacks: seq<Callback>, order: seq<string>, traces: map<nat, seq<Event>>, file: File)
    requires Iterates(order, Run(EMPTY, callbacks)) && "" !in Run(EMPTY, callbacks).variables
    requires ElementsEntered(Run(EMPTY, callbacks).variables.Keys, CompositeKeys(Run(EMPTY, callbacks)))
    ensures var db := TablesOf(Run(EMPTY, callbacks), order, traces, file);
      && Consistent(db) && EveryPathAnswerable(db)
      && forall path, t, radix :: Ends(db, path, t, Braces(radix))
  {
    hide Run, Forest, StacksKnown, PartNamedBy, EveryPathAnswerable, EndsInBracket, NothingLeadsBack, Ends;
    var ix := Run(EMPTY, callbacks);
    var db := TablesOf(ix, order, traces, file);
    OpenedTablesConsistent(callbacks, order, traces, file);
    ClosedForest(callbacks);
    assert db.variables.Keys == ix.variables.Keys;
    assert Composites(db) == CompositeKeys(ix);
    forall p, i | p in db.listed && 0 <= i < |db.listed[p]| ensures db.listed[p][i] in db.variables {
      assert ix.signals[p][i].fullName in ix.variables;
    }
    EnteredIsAnswerable(db);
    EveryPathAnswerableIff(db);
    forall path, t, radix ensures Ends(db, path, t, Braces(radix)) {
      EveryReadEnds(db, path, t, radix);
    }
  }

  // --------------------------------------------------- when the reading never ends

  const STRAY: seq<Callback> := [ArrayBegin("m[0]", false), Declare("m[0][1]", 0, 0, Undirected, 1, true)]

  lemma StrayArray()
    ensures ArrayPrefixes(EMPTY, "m[0]", "") == Entered(EMPTY, "", CompositeEntry("m", "m", 0, 0, false), true)
  {
    hide ParseRange, RangesFrom, Entered;
    ZeroInBrackets();
    assert FindChar("m[0]", '[', 0) == 1;
    assert "m[0]"[..1] == "m" && "m[0]"[1..] == "[0]";
    OneRange();
    assert LeafName("m") == "m";
  }

  lemma StrayFirst()
    ensures var ix := Step(EMPTY, STRAY[0]);
      && ix.variables == map["m" := CompositeEntry("m", "m", 0, 0, false)]
      && ix.aggregates == [] && ix.stack == [] && ix.hidden == [] && ix.unpacked == [true] && ix.signals.Keys == {""}
  {
    hide ArrayPrefixes, FindChar, ParseRange, RangesFrom;
    StrayArray();
    assert Step(EMPTY, STRAY[0]) == OpenArray(EMPTY, "m[0]", false);
  }

  lemma OneRange()
    ensures RangesFrom("[0]", 0) == ["[0]"]
  {
    assert FindChar("[0]", '[', 0) == 0 && FindChar("[0]", ']', 0) == 2;
    assert "[0]"[0..3] == "[0]";
    assert FindChar("[0]", '[', 3) == 3;
    assert RangesFrom("[0]", 3) == [];
  }

  lemma StraySecond(ix: Index)
    requires ix.aggregates == [] && ix.stack == [] && ix.hidden == [] && ix.unpacked == [true]
    requires "m[0][1]" !in ix.variables
    ensures Step(ix, STRAY[1]).signals == ix.signals
    ensures Step(ix, STRAY[1]).variables.Keys == ix.variables.Keys + {"m[0][1]"}
    ensures forall k :: k in ix.variables ==> Step(ix, STRAY[1]).variables[k] == ix.variables[k]
  {
    hide ShownName, OpenScope, OpenArray, OpenStruct, Appended;
    NoBusRange();
    assert Step(ix, STRAY[1]) == DeclareVar(ix, STRAY[1]);
  }

  lemma StrayTables()
    ensures Run(EMPTY, STRAY).variables.Keys == {"m", "m[0][1]"}
    ensures Run(EMPTY, STRAY).variables["m"].id == 0 && Run(EMPTY, STRAY).signals.Keys == {""}
  {
    hide Step;
    StrayFirst();
    var first := Step(EMPTY, STRAY[0]);
    assert |"m"| != |"m[0][1]"|;
    StraySecond(first);
    assert STRAY[1..] == [STRAY[1]] && STRAY[1..][1..] == [];
    assert Run(first, STRAY[1..]) == Run(Step(first, STRAY[1]), []);
  }

  lemma NoBusRange()
    ensures ShownName("m[0][1]", 0, 0) == "m[0][1]"
  {
    assert IntText(0) == "0";
    assert !EndsWith("m[0][1]", "[0:0]") by { assert "m[0][1]"[2..][0] == '0' && "[0:0]"[0] == '['; }
    assert "[" + "0" + ":" + "0" + "]" == "[0:0]";
  }

  /**
   A name with two indices whose first element is not entered makes that element a select of
   the array it belongs to: neither the array nor the element is ever read to an end, at any
   time and in any form.
   */
  lemma StrayElementNeverEnds(order: seq<string>, traces: map<nat, seq<Event>>, file: File)
    requires Iterates(order, Run(EMPTY, STRAY))
    ensures var db := TablesOf(Run(EMPTY, STRAY), order, traces, file);
      && Consistent(db) && IsComposite(db, "m") && PartsOf(db, "m") == ["m[0]"]
      && forall t, style :: !Ends(db, "m", t, style) && !Ends(db, "m[0]", t, style)
  {
    hide Run, PartsOf, ParseRange, Ends, Read, CompositeBehind;
    StrayParts(order, traces, file);
    var db := TablesOf(Run(EMPTY, STRAY), order, traces, file);
    ZeroInBrackets();
    assert "m" + "[" + "0" + "]" == "m[0]" && "[" + "0" + "]" == "[0]";
    ElementLeadsBackIff(db, "m", "0", 0);
    forall t, style ensures !Ends(db, "m", t, style) && !Ends(db, "m[0]", t, style) {
      NothingInFront(db, "m", t, style);
      ElementEndsIff(db, "m", 0, t, style);
      NothingInFront(db, "m", t, Bits);
      ElementEndsIff(db, "m", 0, t, Bits);
      ElementEndsWithWhole(db, "m", 0, t, style);
    }
  }

  lemma StrayParts(order: seq<string>, traces: map<nat, seq<Event>>, file: File)
    requires Iterates(order, Run(EMPTY, STRAY))
    ensures var db := TablesOf(Run(EMPTY, STRAY), order, traces, file);
      && Consistent(db) && IsComposite(db, "m") && PartsOf(db, "m") == ["m[0]"] && "m[0]" !in db.variables
  {
    hide Run, PartsOf, PartNamedBy;
    StrayTables();
    OpenedTablesConsistent(STRAY, order, traces, file);
    var db := TablesOf(Run(EMPTY, STRAY), order, traces, file);
    assert |""| == 0 && |"m"| == 1 && |"m[0]"| == 4 && |"m[0][1]"| == 7;
    assert db.variables.Keys == {"m", "m[0][1]"};
    assert db.listed.Keys == {""};
    BracketPart("m", "0", "[1]");
    NoLongerNoPart("m", "m");
    assert "m" + "[" + "0" + "]" == "m[0]";
    assert "m" + "[" + "0" + "]" + "[1]" == "m[0][1]";
    forall v ensures IsPart(db, "m", v) <==> v == "m[0]" {
      assert ListedAt(db, "m") == [];
    }
    OnlyPart(db, "m", "m[0]");
  }

  // ----------------------------------------------------------- what the queries are given

  /** A visible variable with a new name is found by the queries as it was declared, whatever comes later. */
  lemma DeclaredIsFound(before: seq<Callback>, cb: Callback, after: seq<Callback>, order: seq<string>,
                        traces: map<nat, seq<Event>>, file: File)
    requires cb.Declare? && !Run(EMPTY, before).Hidden()
    requires Join(Run(EMPTY, before).Parent(), ShownName(cb.name, cb.left, cb.right)) !in Run(EMPTY, before).variables
    ensures
      var full := Join(Run(EMPTY, before).Parent(), ShownName(cb.name, cb.left, cb.right));
      var db := TablesOf(Run(Step(Run(EMPTY, before), cb), after), order, traces, file);
      && full in db.variables
      && (var v := db.variables[full];
          v.id == cb.id && v.left == cb.left && v.right == cb.right && v.readable == cb.readable && !v.packed)
      && db.traces == traces && db.file == file && db.order == order
  {
    hide Run, Step, Join, ShownName;
    DeclarationSurvives(before, cb, after);
  }

  /** Composites keep their range and whether they are packed, and scopes their lists. */
  lemma EntriesKept(ix: Index, order: seq<string>, traces: map<nat, seq<Event>>, file: File)
    ensures var db := TablesOf(ix, order, traces, file);
      && db.variables.Keys == ix.variables.Keys && db.listed.Keys == ix.signals.Keys
      && (forall k :: k in ix.variables ==>
            var v, e := db.variables[k], ix.variables[k];
            v.id == e.id && v.left == e.info.left && v.right == e.info.right && v.packed == e.packed && v.readable == e.readable)
      && (forall p :: p in ix.signals ==> |db.listed[p]| == |ix.signals[p]|)
      && (forall p, i :: p in ix.signals && 0 <= i < |ix.signals[p]| ==> db.listed[p][i] == ix.signals[p][i].fullName)
  {
  }
}
