/**
 What the tables look like after any sequence of callbacks: a closed forest of scopes, every
 listed signal declared, nothing listed twice and nothing listed from inside a hidden scope.
 */
module ScopeForest {
  import opened Database
  import opened ScopeTree

  // ------------------------------------------------------------- the invariant

  /** Every listed child has an entry of its own and a longer name, and is listed once. */
  predicate Forest(children: map<string, seq<string>>) {
    && "" in children
    && (forall p, i :: p in children && 0 <= i < |children[p]| ==>
          children[p][i] in children && |children[p][i]| > |p|)
    && (forall p, q, i, j :: p in children && q in children && 0 <= i < |children[p]| && 0 <= j < |children[q]| ==>
          (children[p][i] == children[q][j] ==> p == q && i == j))
  }

  /** A listed signal lies under its scope; only a nameless one at the top shares the name "". */
  predicate Under(fullName: string, p: string) {
    |fullName| > |p| || (fullName == "" == p)
  }

  /** Every listed signal is declared as it is listed, and is listed once. */
  predicate Declared(signals: map<string, seq<Info>>, variables: map<string, Entry>) {
    && (forall p, i :: p in signals && 0 <= i < |signals[p]| ==>
          var s := signals[p][i];
          s.fullName in variables && variables[s.fullName].info == s && Under(s.fullName, p))
    && (forall p, q, i, j :: p in signals && q in signals && 0 <= i < |signals[p]| && 0 <= j < |signals[q]| ==>
          (signals[p][i].fullName == signals[q][j].fullName ==> p == q && i == j))
  }

  /** Entries carry their own name; packed structures have neither an id nor a range. */
  predicate Named(variables: map<string, Entry>) {
    forall k :: k in variables ==>
      var e := variables[k];
      e.info.fullName == k && (e.packed ==> e.id == 0 && e.info.left == 0 && e.info.right == 0)
  }

  /** What is open and not hidden can be asked for. */
  predicate StacksKnown(ix: Index) {
    && |ix.stack| == |ix.hidden|
    && (forall i :: 0 <= i < |ix.stack| && !ix.hidden[i] ==> ix.stack[i] in ix.children)
    && (forall i :: 0 <= i < |ix.aggregates| ==> ix.aggregates[i] in ix.signals)
    && ix.children.Keys <= ix.signals.Keys
  }

  predicate WellFormed(ix: Index) {
    Forest(ix.children) && Declared(ix.signals, ix.variables) && Named(ix.variables) && StacksKnown(ix)
  }

  /** A later index only adds: nothing listed or declared is taken back or changed. */
  predicate Grown(ix: Index, later: Index) {
    && (forall p :: p in ix.children ==> p in later.children && ix.children[p] <= later.children[p])
    && (forall p :: p in ix.signals ==> p in later.signals && ix.signals[p] <= later.signals[p])
    && (forall k :: k in ix.variables ==> k in later.variables && later.variables[k] == ix.variables[k])
  }

  lemma GrownTrans(a: Index, b: Index, c: Index)
    requires Grown(a, b) && Grown(b, c)
    ensures Grown(a, c)
  {
    forall p | p in a.children ensures a.children[p] <= c.children[p] {
      assert a.children[p] <= b.children[p] <= c.children[p];
    }
    forall p | p in a.signals ensures a.signals[p] <= c.signals[p] {
      assert a.signals[p] <= b.signals[p] <= c.signals[p];
    }
  }

  // ------------------------------------------------------------ one callback at a time

  lemma ListedScopeForest(children: map<string, seq<string>>, p: string, full: string)
    requires Forest(children) && full !in children && |full| > |p|
    ensures Forest(Touched(Appended(children, p, full), full))
  {
    var r := Touched(Appended(children, p, full), full);
    assert r[full] == [] && r[p] == At(children, p) + [full];
    assert forall q :: q in children && q != p ==> r[q] == children[q];
    forall q, i | q in r && 0 <= i < |r[q]|
      ensures r[q][i] in r && |r[q][i]| > |q|
      ensures r[q][i] == full ==> q == p && i == |At(children, p)|
    {
      assert (q == p && i == |At(children, p)|) || (q in children && i < |children[q]| && r[q][i] == children[q][i]);
    }
    forall q, u, i, j | q in r && u in r && 0 <= i < |r[q]| && 0 <= j < |r[u]| && r[q][i] == r[u][j]
      ensures q == u && i == j
    {
      if r[q][i] != full {
        assert q in children && i < |children[q]| && r[q][i] == children[q][i];
        assert u in children && j < |children[u]| && r[u][j] == children[u][j];
      }
    }
  }

  lemma ParentKnown(ix: Index)
    requires WellFormed(ix) && !ix.Hidden()
    ensures ix.Parent() in ix.signals
  {
    hide Forest, Declared, Named;
    assert "" in ix.children by { TopKnown(ix.children); }
  }

  lemma TopKnown(children: map<string, seq<string>>)
    requires Forest(children)
    ensures "" in children
  {
  }

  lemma JoinLonger(parent: string, name: string)
    ensures parent <= Join(parent, name) && Under(Join(parent, name), parent)
    ensures Join(parent, name) != "" ==> |Join(parent, name)| > |parent|
  {
  }

  lemma ScopeKeeps(ix: Index, name: string, isHidden: bool)
    requires WellFormed(ix)
    ensures WellFormed(OpenScope(ix, name, isHidden)) && Grown(ix, OpenScope(ix, name, isHidden))
  {
    hide Forest, Declared, Named, Join;
    var p, full := ix.Parent(), Join(ix.Parent(), name);
    JoinLonger(p, name);
    TopKnown(ix.children);
    if !(isHidden || ix.Hidden()) && full !in ix.children {
      ListedScopeForest(ix.children, p, full);
      ParentKnown(ix);
      TouchedDeclared(ix.signals, ix.variables, full);
    }
  }

  lemma TouchedDeclared(signals: map<string, seq<Info>>, variables: map<string, Entry>, key: string)
    requires Declared(signals, variables)
    ensures Declared(Touched(signals, key), variables)
  {
    var r := Touched(signals, key);
    assert forall p :: p in r && r[p] != [] ==> p in signals && r[p] == signals[p];
  }

  lemma EnteredDeclared(ix: Index, parent: string, entry: Entry, listed: bool)
    requires Declared(ix.signals, ix.variables) && Named(ix.variables)
    requires entry.packed ==> entry.id == 0 && entry.info.left == 0 && entry.info.right == 0
    requires listed ==> Under(entry.info.fullName, parent)
    ensures var r := Entered(ix, parent, entry, listed); Declared(r.signals, r.variables) && Named(r.variables)
  {
    var full := entry.info.fullName;
    var r := Entered(ix, parent, entry, listed);
    if full !in ix.variables && listed {
      assert forall p :: p in ix.signals && p != parent ==> r.signals[p] == ix.signals[p];
      assert r.signals[parent] == At(ix.signals, parent) + [entry.info];
      forall p, i | p in r.signals && 0 <= i < |r.signals[p]|
        ensures var s := r.signals[p][i];
          s.fullName in r.variables && r.variables[s.fullName].info == s && Under(s.fullName, p)
          && (s.fullName == full ==> p == parent && i == |At(ix.signals, parent)|)
          && (s.fullName != full ==> p in ix.signals && i < |ix.signals[p]| && s == ix.signals[p][i])
      {
        assert (p == parent && i == |At(ix.signals, parent)|)
          || (p in ix.signals && i < |ix.signals[p]| && r.signals[p][i] == ix.signals[p][i]);
      }
    }
  }

  lemma EnteredKeeps(ix: Index, parent: string, entry: Entry, listed: bool)
    requires WellFormed(ix) && (listed ==> parent in ix.signals && Under(entry.info.fullName, parent))
    requires entry.packed ==> entry.id == 0 && entry.info.left == 0 && entry.info.right == 0
    ensures var r := Entered(ix, parent, entry, listed);
      WellFormed(r) && Grown(ix, r) && r.signals.Keys == ix.signals.Keys
  {
    hide Forest, Declared, Named;
    EnteredDeclared(ix, parent, entry, listed);
  }

  lemma {:induction false} DimensionsKeep(ix: Index, key: string, parts: seq<string>)
    requires WellFormed(ix)
    ensures WellFormed(Dimensions(ix, key, parts)) && Grown(ix, Dimensions(ix, key, parts))
    decreases |parts|
  {
    hide WellFormed, Grown, ParseRange, LeafName, Dimensions, Entered;
    DimensionsStep(ix, key, parts);
    if |parts| < 2 {
      GrownSelf(ix);
    } else {
      var next := key + parts[0];
      match ParseRange(parts[1])
      case None => DimensionsKeep(ix, next, parts[1..]);
      case Some((left, right)) =>
        var entry := CompositeEntry(next, LeafName(next), left, right, false);
        var mid := Entered(ix, "", entry, false);
        EnteredKeeps(ix, "", entry, false);
        DimensionsKeep(mid, next, parts[1..]);
        GrownTrans(ix, mid, Dimensions(mid, next, parts[1..]));
    }
  }

  lemma GrownSelf(ix: Index)
    ensures Grown(ix, ix)
  {
  }

  lemma ArrayPrefixesKeep(ix: Index, raw: string, parent: string)
    requires WellFormed(ix) && parent in ix.signals
    ensures WellFormed(ArrayPrefixes(ix, raw, parent)) && Grown(ix, ArrayPrefixes(ix, raw, parent))
  {
    hide WellFormed, Grown, ParseRange, LeafName, Dimensions, Entered, RangesFrom, Join;
    GrownSelf(ix);
    var first := FindChar(raw, '[', 0);
    if first < |raw| {
      var full := Join(parent, raw[..first]);
      var parts := RangesFrom(raw[first..], 0);
      JoinLonger(parent, raw[..first]);
      DimensionsKeep(ix, full, parts);
      if |parts| == 1 && ParseRange(parts[0]).Some? {
        var (left, right) := ParseRange(parts[0]).value;
        EnteredKeeps(ix, parent, CompositeEntry(full, LeafName(full), left, right, false), true);
      }
    }
  }

  lemma StructKeeps(ix: Index, name: string, isPacked: bool)
    requires WellFormed(ix)
    ensures WellFormed(OpenStruct(ix, name, isPacked)) && Grown(ix, OpenStruct(ix, name, isPacked))
  {
    hide Forest, Declared, Named, Join, Entered;
    if !ix.Hidden() {
      var full := Join(ix.Parent(), name);
      ParentKnown(ix);
      JoinLonger(ix.Parent(), name);
      var entry := CompositeEntry(full, name, 0, 0, isPacked);
      var next := Entered(ix, ix.Parent(), entry, true);
      EnteredKeeps(ix, ix.Parent(), entry, true);
      SameStacks(ix, ix.Parent(), entry, true);
      TouchedDeclared(next.signals, next.variables, full);
    }
  }

  lemma SameStacks(ix: Index, parent: string, entry: Entry, listed: bool)
    ensures var r := Entered(ix, parent, entry, listed);
      r.stack == ix.stack && r.hidden == ix.hidden && r.aggregates == ix.aggregates && r.unpacked == ix.unpacked
  {
  }

  lemma DeclareKeeps(ix: Index, cb: Callback)
    requires WellFormed(ix) && cb.Declare?
    ensures WellFormed(DeclareVar(ix, cb)) && Grown(ix, DeclareVar(ix, cb))
  {
    hide WellFormed, Grown, Join, Entered, LeafName, ShownName;
    GrownSelf(ix);
    if !ix.Hidden() {
      var parent := ix.Parent();
      var name := ShownName(cb.name, cb.left, cb.right);
      var shown := if ix.aggregates != [] then LeafName(parent) + "." + name else name;
      ParentKnown(ix);
      JoinLonger(parent, name);
      EnteredKeeps(ix, parent, Entry(Info(shown, Join(parent, name), cb.left, cb.right, cb.direction), cb.id, cb.readable, false),
                   true !in ix.unpacked);
    }
  }

  /** Every callback keeps the tables well formed and takes nothing back. */
  lemma StepKeeps(ix: Index, cb: Callback)
    requires WellFormed(ix)
    ensures WellFormed(Step(ix, cb)) && Grown(ix, Step(ix, cb))
  {
    hide Forest, Declared, Named, OpenScope, OpenStruct, DeclareVar, ArrayPrefixes;
    match cb
    case Scope(name, isHidden) => ScopeKeeps(ix, name, isHidden);
    case StructBegin(name, isPacked) => StructKeeps(ix, name, isPacked);
    case Declare(_, _, _, _, _, _) => DeclareKeeps(ix, cb);
    case ArrayBegin(name, isPacked) =>
      if !isPacked && !ix.Hidden() {
        ParentKnown(ix);
        ArrayPrefixesKeep(ix, name, ix.Parent());
      }
    case Upscope =>
    case ArrayEnd =>
    case StructEnd =>
    case Other =>
  }

  lemma {:induction false} RunKeeps(ix: Index, callbacks: seq<Callback>)
    requires WellFormed(ix)
    ensures WellFormed(Run(ix, callbacks)) && Grown(ix, Run(ix, callbacks))
    decreases |callbacks|
  {
    hide WellFormed, Grown, Step;
    if callbacks == [] {
      GrownSelf(ix);
    } else {
      StepKeeps(ix, callbacks[0]);
      RunKeeps(Step(ix, callbacks[0]), callbacks[1..]);
      GrownTrans(ix, Step(ix, callbacks[0]), Run(ix, callbacks));
    }
  }

  /** After any sequence of callbacks the tables are a closed forest. */
  lemma ClosedForest(callbacks: seq<Callback>)
    ensures WellFormed(Run(EMPTY, callbacks))
  {
    hide Run;
    RunKeeps(EMPTY, callbacks);
  }

  // ------------------------------------------------------------------ hidden scopes

  /** The callbacks never close the scope that was the depth-th to be opened. */
  predicate StayInside(ix: Index, callbacks: seq<Callback>, depth: nat)
    decreases |callbacks|
  {
    |ix.stack| >= depth && (callbacks == [] || StayInside(Step(ix, callbacks[0]), callbacks[1..], depth))
  }

  predicate SameTables(a: Index, b: Index) {
    a.children == b.children && a.signals == b.signals && a.variables == b.variables
  }

  predicate HiddenFrom(ix: Index, depth: nat) {
    |ix.stack| == |ix.hidden| && forall i :: 0 < depth <= i + 1 <= |ix.hidden| ==> ix.hidden[i]
  }

  lemma HiddenStep(ix: Index, cb: Callback, depth: nat)
    requires 0 < depth <= |ix.stack| && HiddenFrom(ix, depth)
    ensures SameTables(ix, Step(ix, cb)) && HiddenFrom(Step(ix, cb), depth)
  {
    hide Join, ArrayPrefixes;
    assert ix.Hidden();
  }

  lemma {:induction false} HiddenRun(ix: Index, callbacks: seq<Callback>, depth: nat)
    requires depth > 0 && HiddenFrom(ix, depth) && StayInside(ix, callbacks, depth)
    ensures SameTables(ix, Run(ix, callbacks))
    decreases |callbacks|
  {
    hide Step, HiddenFrom;
    if callbacks != [] {
      HiddenStep(ix, callbacks[0], depth);
      HiddenRun(Step(ix, callbacks[0]), callbacks[1..], depth);
    }
  }

  /** From a hidden scope nothing is listed or declared, however deep, until it is closed. */
  lemma NothingFromHiddenScope(before: seq<Callback>, name: string, inside: seq<Callback>)
    requires
      var within := Step(Run(EMPTY, before), Scope(name, true));
      StayInside(within, inside, |within.stack|)
    ensures SameTables(Run(EMPTY, before), Run(Step(Run(EMPTY, before), Scope(name, true)), inside))
  {
    hide Run, Join, WellFormed;
    var ix := Run(EMPTY, before);
    ClosedForest(before);
    BalancedStacks(ix);
    var next := Step(ix, Scope(name, true));
    HiddenRun(next, inside, |next.stack|);
  }

  lemma BalancedStacks(ix: Index)
    requires WellFormed(ix)
    ensures |ix.stack| == |ix.hidden|
  {
    hide Forest, Declared, Named;
  }

  // ------------------------------------------------------- nothing visible is missed

  predicate ListedUnder(signals: map<string, seq<Info>>, p: string, full: string) {
    p in signals && exists i :: 0 <= i < |signals[p]| && signals[p][i].fullName == full
  }

  lemma StillListed(ix: Index, later: Index, p: string, full: string)
    requires Grown(ix, later) && ListedUnder(ix.signals, p, full)
    ensures ListedUnder(later.signals, p, full)
  {
    var i :| 0 <= i < |ix.signals[p]| && ix.signals[p][i].fullName == full;
    assert later.signals[p][i] == ix.signals[p][i];
  }

  /**
   A variable declared outside hidden scopes is in the table when all callbacks are done; if
   its name was new and no unpacked array was open, it is listed in its scope.
   */
  lemma DeclarationSurvives(before: seq<Callback>, cb: Callback, after: seq<Callback>)
    requires cb.Declare? && !Run(EMPTY, before).Hidden()
    ensures
      var ix := Run(EMPTY, before);
      var full := Join(ix.Parent(), ShownName(cb.name, cb.left, cb.right));
      var end := Run(Step(ix, cb), after);
      && full in end.variables
      && (full !in ix.variables ==>
            var e := end.variables[full];
            && e.id == cb.id && e.readable == cb.readable && !e.packed
            && e.info.fullName == full && e.info.left == cb.left && e.info.right == cb.right && e.info.direction == cb.direction)
      && (full !in ix.variables && true !in ix.unpacked ==> ListedUnder(end.signals, ix.Parent(), full))
  {
    hide Run, Join, WellFormed, ShownName, LeafName, Grown, ListedUnder;
    var ix := Run(EMPTY, before);
    ClosedForest(before);
    StepKeeps(ix, cb);
    RunKeeps(Step(ix, cb), after);
    var full := Join(ix.Parent(), ShownName(cb.name, cb.left, cb.right));
    GrownKeepsEntry(Step(ix, cb), Run(Step(ix, cb), after), full);
    if full !in ix.variables && true !in ix.unpacked {
      JustListed(ix, cb);
      StillListed(Step(ix, cb), Run(Step(ix, cb), after), ix.Parent(), full);
    }
  }

  lemma GrownKeepsEntry(ix: Index, later: Index, full: string)
    requires Grown(ix, later) && full in ix.variables
    ensures full in later.variables && later.variables[full] == ix.variables[full]
  {
  }

  lemma JustListed(ix: Index, cb: Callback)
    requires cb.Declare? && !ix.Hidden() && true !in ix.unpacked
    requires Join(ix.Parent(), ShownName(cb.name, cb.left, cb.right)) !in ix.variables
    ensures ListedUnder(Step(ix, cb).signals, ix.Parent(), Join(ix.Parent(), ShownName(cb.name, cb.left, cb.right)))
  {
    hide Join, ShownName, LeafName;
    var end := Step(ix, cb).signals[ix.Parent()];
    assert end[|end|-1].fullName == Join(ix.Parent(), ShownName(cb.name, cb.left, cb.right));
  }

  /** A scope opened outside hidden scopes can be asked for when all callbacks are done. */
  lemma ScopeSurvives(before: seq<Callback>, name: string, after: seq<Callback>)
    requires !Run(EMPTY, before).Hidden()
    ensures
      var ix := Run(EMPTY, before);
      var full := Join(ix.Parent(), name);
      var end := Run(Step(ix, Scope(name, false)), after);
      && full in end.children && full in end.signals
      && (full !in ix.children ==> ix.Parent() in end.children && full in end.children[ix.Parent()])
  {
    hide Run, Join, WellFormed;
    var ix := Run(EMPTY, before);
    var next := Step(ix, Scope(name, false));
    var full := Join(ix.Parent(), name);
    ClosedForest(before);
    StepKeeps(ix, Scope(name, false));
    RunKeeps(next, after);
    ClosedKeys(next);
    ClosedKeys(Run(next, after));
    if full !in ix.children {
      JoinLonger(ix.Parent(), name);
      TopOf(ix);
      assert full in next.children[ix.Parent()];
    }
  }

  lemma ClosedKeys(ix: Index)
    requires WellFormed(ix)
    ensures ix.children.Keys <= ix.signals.Keys
  {
    hide Forest, Declared, Named;
  }

  lemma TopOf(ix: Index)
    requires WellFormed(ix)
    ensures "" in ix.children
  {
    hide Declared, Named;
  }
}
