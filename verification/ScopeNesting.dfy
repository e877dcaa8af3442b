/**
 What is closed leaves no trace on the stacks: behind a scope, a structure or an array the
 parent is what it was in front of it, and every variable gets the name that its place in the
 tree gives it. The exception is a structure inside a hidden scope: its begin is skipped, its
 end is not, and it takes a structure around it off the stack.
 */
module ScopeNesting {
  import opened Database
  import opened ScopeTree

  lemma {:induction false} RunConcat(ix: Index, a: seq<Callback>, b: seq<Callback>)
    ensures Run(ix, a + b) == Run(Run(ix, a), b)
    decreases |a|
  {
    hide Step;
    if a == [] {
      assert a + b == b;
    } else {
      assert (a + b)[1..] == a[1..] + b;
      RunConcat(Step(ix, a[0]), a[1..], b);
    }
  }

  lemma RunOne(ix: Index, cb: Callback)
    ensures Run(ix, [cb]) == Step(ix, cb)
  {
    hide Step;
    assert [cb][1..] == [];
  }

  // ---------------------------------------------------------- one kind of bracket at a time

  datatype Kind = Scopes | Arrays | Structures

  predicate Opens(kind: Kind, cb: Callback) {
    match kind
    case Scopes => cb.Scope?
    case Arrays => cb.ArrayBegin?
    case Structures => cb.StructBegin?
  }

  predicate Closes(kind: Kind, cb: Callback) {
    match kind
    case Scopes => cb.Upscope?
    case Arrays => cb.ArrayEnd?
    case Structures => cb.StructEnd?
  }

  /** All that is opened is closed again, and as many as that of what was open before. */
  predicate Balanced(kind: Kind, callbacks: seq<Callback>, depth: nat)
    decreases |callbacks|
  {
    if callbacks == [] then depth == 0
    else if Opens(kind, callbacks[0]) then Balanced(kind, callbacks[1..], depth + 1)
    else if Closes(kind, callbacks[0]) then depth > 0 && Balanced(kind, callbacks[1..], depth - 1)
    else Balanced(kind, callbacks[1..], depth)
  }

  /** No callback comes while a hidden scope is open. */
  predicate NeverHidden(ix: Index, callbacks: seq<Callback>)
    decreases |callbacks|
  {
    !ix.Hidden() && (callbacks == [] || NeverHidden(Step(ix, callbacks[0]), callbacks[1..]))
  }

  /** What one callback does to the stacks. */
  lemma StepStacks(ix: Index, cb: Callback)
    ensures var r := Step(ix, cb);
      && (!cb.Scope? && !cb.Upscope? ==> r.stack == ix.stack && r.hidden == ix.hidden)
      && (!cb.ArrayBegin? && !cb.ArrayEnd? ==> r.unpacked == ix.unpacked)
      && (!cb.StructBegin? && !cb.StructEnd? ==> r.aggregates == ix.aggregates)
      && (cb.Scope? ==> r.stack == ix.stack + [Join(ix.Parent(), cb.name)] && r.hidden == ix.hidden + [cb.isHidden || ix.Hidden()])
      && (cb.Upscope? ==> r.stack == DropLast(ix.stack) && r.hidden == DropLast(ix.hidden))
      && (cb.ArrayBegin? ==> r.unpacked == ix.unpacked + [!cb.isPacked])
      && (cb.ArrayEnd? ==> r.unpacked == DropLast(ix.unpacked))
      && (cb.StructBegin? ==> r.aggregates == if ix.Hidden() then ix.aggregates else ix.aggregates + [Join(ix.Parent(), cb.name)])
      && (cb.StructEnd? ==> r.aggregates == DropLast(ix.aggregates))
  {
    hide Join, ShownName, LeafName, Appended, Touched;
    if cb.ArrayBegin? {
      ArrayStacks(ix, cb.name, ix.Parent());
    }
  }

  lemma {:induction false} DimensionsStacks(ix: Index, key: string, parts: seq<string>)
    ensures var r := Dimensions(ix, key, parts);
      r.stack == ix.stack && r.hidden == ix.hidden && r.aggregates == ix.aggregates && r.unpacked == ix.unpacked
    decreases |parts|
  {
    hide ParseRange, LeafName, Dimensions;
    DimensionsStep(ix, key, parts);
    if |parts| >= 2 {
      var next := key + parts[0];
      if ParseRange(parts[1]).None? {
        DimensionsStacks(ix, next, parts[1..]);
      } else {
        var (left, right) := ParseRange(parts[1]).value;
        DimensionsStacks(Entered(ix, "", CompositeEntry(next, LeafName(next), left, right, false), false), next, parts[1..]);
      }
    }
  }

  lemma ArrayStacks(ix: Index, raw: string, parent: string)
    ensures var r := ArrayPrefixes(ix, raw, parent);
      r.stack == ix.stack && r.hidden == ix.hidden && r.aggregates == ix.aggregates && r.unpacked == ix.unpacked
  {
    hide Join, LeafName, Dimensions, ParseRange, RangesFrom;
    var first := FindChar(raw, '[', 0);
    DimensionsStacks(ix, Join(parent, raw[..first]), RangesFrom(raw[first..], 0));
  }

  function Shortened<T>(s: seq<T>, n: nat): seq<T> {
    if n <= |s| then s[..|s|-n] else []
  }

  lemma {:induction false} ScopesBehind(ix: Index, callbacks: seq<Callback>, depth: nat)
    requires Balanced(Scopes, callbacks, depth) && depth <= |ix.stack| && depth <= |ix.hidden|
    ensures var r := Run(ix, callbacks);
      r.stack == Shortened(ix.stack, depth) && r.hidden == Shortened(ix.hidden, depth)
    decreases |callbacks|
  {
    hide Step;
    if callbacks != [] {
      var cb := callbacks[0];
      StepStacks(ix, cb);
      ScopesBehind(Step(ix, cb), callbacks[1..], if cb.Scope? then depth + 1 else if cb.Upscope? then depth - 1 else depth);
    }
  }

  lemma {:induction false} ArraysBehind(ix: Index, callbacks: seq<Callback>, depth: nat)
    requires Balanced(Arrays, callbacks, depth) && depth <= |ix.unpacked|
    ensures Run(ix, callbacks).unpacked == Shortened(ix.unpacked, depth)
    decreases |callbacks|
  {
    hide Step;
    if callbacks != [] {
      var cb := callbacks[0];
      StepStacks(ix, cb);
      ArraysBehind(Step(ix, cb), callbacks[1..], if cb.ArrayBegin? then depth + 1 else if cb.ArrayEnd? then depth - 1 else depth);
    }
  }

  lemma {:induction false} StructsBehind(ix: Index, callbacks: seq<Callback>, depth: nat)
    requires Balanced(Structures, callbacks, depth) && depth <= |ix.aggregates| && NeverHidden(ix, callbacks)
    ensures Run(ix, callbacks).aggregates == Shortened(ix.aggregates, depth)
    decreases |callbacks|
  {
    hide Step;
    if callbacks != [] {
      var cb := callbacks[0];
      StepStacks(ix, cb);
      StructsBehind(Step(ix, cb), callbacks[1..], if cb.StructBegin? then depth + 1 else if cb.StructEnd? then depth - 1 else depth);
    }
  }

  lemma {:induction false} BalancedSnoc(kind: Kind, callbacks: seq<Callback>, depth: nat, cb: Callback)
    requires Balanced(kind, callbacks, depth) && Closes(kind, cb)
    ensures Balanced(kind, callbacks + [cb], depth + 1)
    decreases |callbacks|
  {
    if callbacks == [] {
      assert (callbacks + [cb])[1..] == [];
    } else {
      assert (callbacks + [cb])[1..] == callbacks[1..] + [cb];
      BalancedSnoc(kind, callbacks[1..],
        if Opens(kind, callbacks[0]) then depth + 1 else if Closes(kind, callbacks[0]) then depth - 1 else depth, cb);
    }
  }

  lemma GroupBalanced(kind: Kind, begin: Callback, inside: seq<Callback>, end: Callback)
    requires Opens(kind, begin) && Balanced(kind, inside, 0) && Closes(kind, end)
    ensures Balanced(kind, [begin] + inside + [end], 0)
  {
    BalancedSnoc(kind, inside, 0, end);
    assert ([begin] + inside + [end])[1..] == inside + [end];
  }

  /** Behind a scope that has been closed the scopes in front of it are open again, hidden or not. */
  lemma ScopeClosed(ix: Index, name: string, isHidden: bool, inside: seq<Callback>)
    requires Balanced(Scopes, inside, 0)
    ensures var r := Run(ix, [Scope(name, isHidden)] + inside + [Upscope]);
      r.stack == ix.stack && r.hidden == ix.hidden
  {
    hide Run;
    GroupBalanced(Scopes, Scope(name, isHidden), inside, Upscope);
    ScopesBehind(ix, [Scope(name, isHidden)] + inside + [Upscope], 0);
  }

  lemma ArrayClosed(ix: Index, name: string, isPacked: bool, inside: seq<Callback>)
    requires Balanced(Arrays, inside, 0)
    ensures Run(ix, [ArrayBegin(name, isPacked)] + inside + [ArrayEnd]).unpacked == ix.unpacked
  {
    hide Run;
    GroupBalanced(Arrays, ArrayBegin(name, isPacked), inside, ArrayEnd);
    ArraysBehind(ix, [ArrayBegin(name, isPacked)] + inside + [ArrayEnd], 0);
  }

  lemma StructClosed(ix: Index, name: string, isPacked: bool, inside: seq<Callback>)
    requires Balanced(Structures, inside, 0) && NeverHidden(ix, [StructBegin(name, isPacked)] + inside + [StructEnd])
    ensures Run(ix, [StructBegin(name, isPacked)] + inside + [StructEnd]).aggregates == ix.aggregates
  {
    hide Run;
    GroupBalanced(Structures, StructBegin(name, isPacked), inside, StructEnd);
    StructsBehind(ix, [StructBegin(name, isPacked)] + inside + [StructEnd], 0);
  }

  // ------------------------------------------------------------- trees of declarations

  /** What the reader goes through, as a tree. */
  datatype Node =
    | InScope(name: string, isHidden: bool, kids: seq<Node>)
    | InArray(name: string, isPacked: bool, kids: seq<Node>)
    | InStruct(name: string, isPacked: bool, kids: seq<Node>)
    | Variable(name: string, left: int, right: int, direction: Direction, id: nat, readable: bool)

  function CallbacksOf(n: Node): seq<Callback>
    decreases n, 0
  {
    match n
    case InScope(name, isHidden, kids) => [Scope(name, isHidden)] + Callbacks(kids) + [Upscope]
    case InArray(name, isPacked, kids) => [ArrayBegin(name, isPacked)] + Callbacks(kids) + [ArrayEnd]
    case InStruct(name, isPacked, kids) => [StructBegin(name, isPacked)] + Callbacks(kids) + [StructEnd]
    case Variable(name, left, right, direction, id, readable) => [Declare(name, left, right, direction, id, readable)]
  }

  /** The callbacks of a row of trees. */
  function Callbacks(nodes: seq<Node>): seq<Callback>
    decreases nodes, 1
  {
    if nodes == [] then [] else CallbacksOf(nodes[0]) + Callbacks(nodes[1..])
  }

  /** How many structures lie inside hidden scopes. */
  function LostIn(n: Node, hidden: bool): nat
    decreases n, 0
  {
    match n
    case InScope(_, isHidden, kids) => Lost(kids, hidden || isHidden)
    case InArray(_, _, kids) => Lost(kids, hidden)
    case InStruct(_, _, kids) => Lost(kids, hidden) + (if hidden then 1 else 0)
    case Variable(_, _, _, _, _, _) => 0
  }

  function Lost(nodes: seq<Node>, hidden: bool): nat
    decreases nodes, 1
  {
    if nodes == [] then 0 else LostIn(nodes[0], hidden) + Lost(nodes[1..], hidden)
  }

  /** A row of trees leaves the stacks as they were, but for the structures lost in hidden scopes. */
  lemma {:induction false} StacksBehind(ix: Index, nodes: seq<Node>)
    ensures var r := Run(ix, Callbacks(nodes));
      && r.stack == ix.stack && r.hidden == ix.hidden && r.unpacked == ix.unpacked
      && r.aggregates == Shortened(ix.aggregates, Lost(nodes, ix.Hidden()))
    decreases nodes, 1
  {
    hide Step, CallbacksOf, LostIn;
    if nodes != [] {
      var mid := Run(ix, CallbacksOf(nodes[0]));
      RunConcat(ix, CallbacksOf(nodes[0]), Callbacks(nodes[1..]));
      StacksBehindOne(ix, nodes[0]);
      StacksBehind(mid, nodes[1..]);
    }
  }

  lemma {:induction false} StacksBehindOne(ix: Index, n: Node)
    ensures var r := Run(ix, CallbacksOf(n));
      && r.stack == ix.stack && r.hidden == ix.hidden && r.unpacked == ix.unpacked
      && r.aggregates == Shortened(ix.aggregates, LostIn(n, ix.Hidden()))
    decreases n, 0
  {
    hide Step, Run, Callbacks, Lost, Join;
    if n.Variable? {
      RunOne(ix, CallbacksOf(n)[0]);
      StepStacks(ix, CallbacksOf(n)[0]);
    } else {
      var begin, end := CallbacksOf(n)[0], if n.InScope? then Upscope else if n.InArray? then ArrayEnd else StructEnd;
      var inside := Step(ix, begin);
      AroundKids(ix, begin, Callbacks(n.kids), end);
      StacksBehind(inside, n.kids);
      StacksAround(ix, n, Run(inside, Callbacks(n.kids)), end);
    }
  }

  lemma StacksAround(ix: Index, n: Node, last: Index, end: Callback)
    requires !n.Variable? && end == if n.InScope? then Upscope else if n.InArray? then ArrayEnd else StructEnd
    requires
      var inside := Step(ix, CallbacksOf(n)[0]);
      && last.stack == inside.stack && last.hidden == inside.hidden && last.unpacked == inside.unpacked
      && last.aggregates == Shortened(inside.aggregates, Lost(n.kids, inside.Hidden()))
    ensures var r := Step(last, end);
      && r.stack == ix.stack && r.hidden == ix.hidden && r.unpacked == ix.unpacked
      && r.aggregates == Shortened(ix.aggregates, LostIn(n, ix.Hidden()))
  {
    hide Step, Callbacks, Lost, Join, Shortened, DropLast;
    StepStacks(ix, CallbacksOf(n)[0]);
    StepStacks(last, end);
    if n.InScope? {
      PushedAndDropped(ix.stack, Join(ix.Parent(), n.name), 0);
      PushedAndDropped(ix.hidden, n.isHidden || ix.Hidden(), 0);
    } else if n.InArray? {
      PushedAndDropped(ix.unpacked, !n.isPacked, 0);
    } else {
      PushedAndDropped(ix.aggregates, Join(ix.Parent(), n.name), Lost(n.kids, ix.Hidden()));
    }
  }

  lemma PushedAndDropped<T>(s: seq<T>, x: T, n: nat)
    ensures DropLast(s + [x]) == s
    ensures DropLast(Shortened(s, n)) == Shortened(s, n + 1)
    ensures DropLast(Shortened(s + [x], n)) == Shortened(s, n)
  {
    if n <= |s| {
      assert (s + [x])[..|s| + 1 - n] == s[..|s| - n] + [(s + [x])[|s| - n]];
    }
  }

  lemma AroundKids(ix: Index, begin: Callback, inside: seq<Callback>, end: Callback)
    ensures Run(ix, [begin] + inside + [end]) == Step(Run(Step(ix, begin), inside), end)
  {
    hide Run, Step;
    RunConcat(ix, [begin] + inside, [end]);
    RunConcat(ix, [begin], inside);
    RunOne(ix, begin);
    RunOne(Run(Step(ix, begin), inside), end);
  }

  /** The structures that are open are the same again exactly when none was lost, or none was open. */
  lemma StructsRestoredIff(ix: Index, nodes: seq<Node>)
    ensures Run(ix, Callbacks(nodes)).aggregates == ix.aggregates <==> Lost(nodes, ix.Hidden()) == 0 || ix.aggregates == []
  {
    hide Run, Callbacks, Lost;
    StacksBehind(ix, nodes);
  }

  /** Then a scope or variable behind them is entered under the parent from in front of them. */
  lemma ParentBehind(ix: Index, nodes: seq<Node>)
    requires Lost(nodes, ix.Hidden()) == 0 || ix.aggregates == []
    ensures var r := Run(ix, Callbacks(nodes)); r.Parent() == ix.Parent() && r.Hidden() == ix.Hidden() && r.unpacked == ix.unpacked
  {
    hide Run, Callbacks, Lost;
    StacksBehind(ix, nodes);
  }

  /** An open structure can be lost: a variable behind a hidden scope is then entered at the top. */
  lemma StructLost()
    ensures
      var hidden := InScope("h", true, [InStruct("t", false, [])]);
      var ix := Step(EMPTY, StructBegin("s", false));
      && ix.Parent() == "s" && Run(ix, CallbacksOf(hidden)).Parent() == ""
  {
    hide Run, Join;
    var ix := Step(EMPTY, StructBegin("s", false));
    StepStacks(EMPTY, StructBegin("s", false));
    assert Join("", "s") == "s" by { JoinText("", "s"); }
    var inner := InStruct("t", false, []);
    var hidden := InScope("h", true, [inner]);
    assert LostIn(inner, true) == 1;
    assert [inner][1..] == [];
    assert Lost([inner], true) == 1;
    StacksBehindOne(ix, hidden);
  }

  /** A name stands behind its parent and a dot, and alone at the top. */
  lemma JoinText(parent: string, name: string)
    ensures Join(parent, name) == if parent == "" then name else parent + "." + name
  {
  }
}
