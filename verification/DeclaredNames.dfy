/**
 What the signal table holds for a tree of declarations: one entry for each structure, array
 and variable that is not hidden, under the name its place in the tree gives it.
 */
module DeclaredNames {
  import opened CText
  import opened Database
  import opened Indices
  import opened ScopeTree
  import opened ScopeForest
  import opened ScopeNesting

  // ------------------------------------------------------------------- single names

  lemma {:induction false} LeafNameBehindDot(front: string, name: string)
    requires '.' !in name
    ensures LeafName(name) == name && LeafName(front + "." + name) == name
    decreases |front|
  {
    var full := front + "." + name;
    assert full[|front|] == '.';
    if front == "" {
      assert full[1..] == name;
    } else {
      assert full[1..] == front[1..] + "." + name;
      LeafNameBehindDot(front[1..], name);
    }
  }

  /** A bus is shown without its declared range; other plain names are shown as they are. */
  lemma BusNameShown(name: string, left: int, right: int)
    requires name != "" && name[0] != '\\'
    ensures ShownName(name + RangeText(left, right), left, right) == name
    ensures !EndsWith(name, RangeText(left, right)) ==> ShownName(name, left, right) == name
  {
    hide IntText;
    var full := name + RangeText(left, right);
    assert full[|full|-|RangeText(left, right)|..] == RangeText(left, right);
    assert full[..|name|] == name && full[0] == name[0];
  }

  /** An escaped name is shown with one blank at its end. */
  lemma EscapedNameShown(name: string, left: int, right: int)
    requires name == "" || name[|name|-1] != ' '
    ensures ShownName("\\" + name, left, right) == "\\" + name + " "
    ensures ShownName("\\" + name + " ", left, right) == "\\" + name + " "
  {
    hide IntText;
  }

  /** A member of a structure is one of its parts. */
  lemma MemberIsPart(parent: string, name: string)
    requires parent != "" && '.' !in name && '[' !in name
    ensures PartNamedBy(parent, Join(parent, name)) == Some(Join(parent, name))
  {
    DottedPart(parent, name, "");
    assert parent + "." + name + "" == parent + "." + name;
  }

  // ----------------------------------------------------------------- names of arrays

  /** A text in brackets, without brackets inside. */
  predicate Bracketed(piece: string) {
    |piece| >= 2 && piece[0] == '[' && piece[|piece|-1] == ']'
    && forall i :: 0 < i < |piece| - 1 ==> piece[i] != '[' && piece[i] != ']'
  }

  function Concat(pieces: seq<string>): string {
    if pieces == [] then "" else pieces[0] + Concat(pieces[1..])
  }

  predicate AllBracketed(pieces: seq<string>) {
    forall i :: 0 <= i < |pieces| ==> Bracketed(pieces[i])
  }

  /** The pieces of a text put together from bracketed pieces are these. */
  lemma {:induction false} RangesUndoConcat(front: string, pieces: seq<string>)
    requires AllBracketed(pieces)
    ensures RangesFrom(front + Concat(pieces), |front|) == pieces
    decreases |pieces|
  {
    hide FindChar, RangesFrom, Bracketed, Concat, AllBracketed;
    ConcatStep(pieces);
    var text := front + Concat(pieces);
    if pieces == [] {
      assert text == front;
      NothingFound(text, '[');
      RangesStep(text, |front|);
    } else {
      var piece, more := pieces[0], Concat(pieces[1..]);
      FirstBracketed(pieces);
      assert text == front + piece + more;
      assert text[|front|..|front| + |piece|] == piece;
      PieceAt(text, |front|, piece);
      RangesUndoConcat(front + piece, pieces[1..]);
      assert |front + piece| == |front| + |piece|;
      assert [piece] + pieces[1..] == pieces;
    }
  }

  lemma FirstBracketed(pieces: seq<string>)
    requires AllBracketed(pieces) && pieces != []
    ensures Bracketed(pieces[0]) && AllBracketed(pieces[1..])
  {
    hide Bracketed;
  }

  lemma ConcatStep(pieces: seq<string>)
    ensures Concat(pieces) == if pieces == [] then "" else pieces[0] + Concat(pieces[1..])
  {
  }

  lemma NothingFound(text: string, c: char)
    ensures FindChar(text, c, |text|) == |text|
  {
  }

  lemma FoundAt(text: string, c: char, from: nat, at: nat)
    requires from <= at < |text| && text[at] == c && forall k :: from <= k < at ==> text[k] != c
    ensures FindChar(text, c, from) == at
  {
  }

  lemma InsidePiece(piece: string, i: nat)
    requires Bracketed(piece) && i < |piece|
    ensures piece[i] == '[' <==> i == 0
    ensures piece[i] == ']' <==> i == |piece| - 1
  {
  }

  /** Where a piece stands in a text, the search for pieces finds it and goes on behind it. */
  lemma PieceAt(text: string, n: nat, piece: string)
    requires Bracketed(piece) && n + |piece| <= |text| && text[n..n + |piece|] == piece
    ensures RangesFrom(text, n) == [piece] + RangesFrom(text, n + |piece|)
  {
    hide FindChar, Bracketed, RangesFrom;
    BracketedLong(piece);
    var last := |piece| - 1;
    assert text[n] == text[n..n + |piece|][0] && text[n + last] == text[n..n + |piece|][last];
    InsidePiece(piece, 0);
    InsidePiece(piece, last);
    forall k | n <= k < n + last ensures text[k] != ']' {
      assert text[k] == text[n..n + |piece|][k - n];
      InsidePiece(piece, k - n);
    }
    FoundAt(text, '[', n, n);
    FoundAt(text, ']', n, n + last);
    RangesStep(text, n);
  }

  lemma BracketedLong(piece: string)
    requires Bracketed(piece)
    ensures |piece| >= 2
  {
  }

  /** An array as the reader names it: a base and a range or index for each dimension. */
  lemma ArrayPieces(base: string, pieces: seq<string>)
    requires '[' !in base && AllBracketed(pieces) && pieces != []
    ensures var raw := base + Concat(pieces);
      && FindChar(raw, '[', 0) == |base| && |base| < |raw| && raw[..|base|] == base
      && RangesFrom(raw[|base|..], 0) == pieces
  {
    hide FindChar, RangesFrom;
    var raw := base + Concat(pieces);
    assert Bracketed(pieces[0]) && Concat(pieces) == pieces[0] + Concat(pieces[1..]);
    assert Concat(pieces)[0] == pieces[0][0] == '[';
    forall k | 0 <= k < |base| ensures raw[k] != '[' {
      assert raw[k] == base[k] && base[k] in base;
    }
    assert raw[|base|] == Concat(pieces)[0];
    FoundAt(raw, '[', 0, |base|);
    assert raw[|base|..] == Concat(pieces) && "" + Concat(pieces) == Concat(pieces) && raw[..|base|] == base;
    RangesUndoConcat("", pieces);
  }

  lemma IndexIsBracketed(left: int, right: int)
    ensures Bracketed(IndexText(left)) && Bracketed(RangeText(left, right))
  {
    hide IntText;
    NumberIsPlain(left);
    NumberIsPlain(right);
    var plain := "-0123456789";
    assert '[' !in plain && ']' !in plain;
    var text, one := RangeText(left, right), IndexText(left);
    forall i | 0 < i < |text| - 1 ensures text[i] != '[' && text[i] != ']' {
      assert text[i] == ':' || text[i] in IntText(left) || text[i] in IntText(right);
    }
    forall i | 0 < i < |one| - 1 ensures one[i] != '[' && one[i] != ']' {
      assert one[i] == IntText(left)[i-1];
    }
  }

  /** The entry of an array. */
  predicate IsArrayEntry(e: Entry, full: string, left: int, right: int) {
    && e.info.fullName == full && e.info.left == left && e.info.right == right && e.info.direction == Undirected
    && e.id == 0 && !e.packed && !e.readable
  }

  /** An array of one dimension is entered with its range, and listed under its parent. */
  lemma ArrayEntered(ix: Index, base: string, left: int, right: int, parent: string)
    requires '[' !in base && Fits32(left) && Fits32(right) && Join(parent, base) !in ix.variables
    ensures
      var full := Join(parent, base);
      var r := ArrayPrefixes(ix, base + RangeText(left, right), parent);
      && r.variables.Keys == ix.variables.Keys + {full} && IsArrayEntry(r.variables[full], full, left, right)
      && r.signals == ix.signals[parent := At(ix.signals, parent) + [r.variables[full].info]]
  {
    hide ParseRange, RangesFrom, FindChar, Join, LeafName, IntText;
    var piece := RangeText(left, right);
    IndexIsBracketed(left, right);
    ReadsRange(left, right);
    ArrayPieces(base, [piece]);
    assert [piece][1..] == [] && Concat([]) == "" && Concat([piece]) == piece + "" == piece;
  }

  /** Of an array of two dimensions an element is entered with the range of the second, and not listed. */
  lemma InnerArrayEntered(ix: Index, base: string, i: int, left: int, right: int, parent: string)
    requires '[' !in base && Fits32(left) && Fits32(right) && Join(parent, base) + IndexText(i) !in ix.variables
    ensures
      var full := Join(parent, base) + IndexText(i);
      var r := ArrayPrefixes(ix, base + (IndexText(i) + RangeText(left, right)), parent);
      && r.variables.Keys == ix.variables.Keys + {full} && IsArrayEntry(r.variables[full], full, left, right)
      && r.signals == ix.signals
  {
    hide ParseRange, RangesFrom, FindChar, Join, LeafName, IntText, Dimensions;
    var first, second := IndexText(i), RangeText(left, right);
    var pieces := [first, second];
    var full := Join(parent, base) + first;
    DimensionsStep(ix, Join(parent, base), pieces);
    DimensionsStep(Entered(ix, "", CompositeEntry(full, LeafName(full), left, right, false), false), full, [second]);
    IndexIsBracketed(i, right);
    IndexIsBracketed(left, right);
    ReadsRange(left, right);
    ArrayPieces(base, pieces);
    assert pieces[1..] == [second] && [second][1..] == [] && Concat([]) == "";
    assert Concat([second]) == second + "" == second && Concat(pieces) == first + second;
  }

  // --------------------------------------------------------------- the table of a tree

  /** The first entry under a name stays. */
  function EnterAll(table: map<string, Entry>, entries: seq<Entry>): map<string, Entry>
    decreases |entries|
  {
    if entries == [] then table else
    var e := entries[0];
    EnterAll(if e.info.fullName in table then table else table[e.info.fullName := e], entries[1..])
  }

  lemma {:induction false} EnterAllConcat(table: map<string, Entry>, a: seq<Entry>, b: seq<Entry>)
    ensures EnterAll(table, a + b) == EnterAll(EnterAll(table, a), b)
    decreases |a|
  {
    if a == [] {
      assert a + b == b;
    } else {
      assert (a + b)[1..] == a[1..] + b;
      var e := a[0];
      EnterAllConcat(if e.info.fullName in table then table else table[e.info.fullName := e], a[1..], b);
    }
  }

  function DimensionEntries(key: string, parts: seq<string>): seq<Entry>
    decreases |parts|
  {
    if |parts| < 2 then [] else
    var next := key + parts[0];
    var range := ParseRange(parts[1]);
    (if range.None? then [] else [CompositeEntry(next, LeafName(next), range.value.0, range.value.1, false)])
    + DimensionEntries(next, parts[1..])
  }

  /** What the name of an unpacked array enters. */
  function ArrayEntries(raw: string, parent: string): seq<Entry> {
    var first := FindChar(raw, '[', 0);
    if first == |raw| then [] else
    var full := Join(parent, raw[..first]);
    var parts := RangesFrom(raw[first..], 0);
    if |parts| != 1 then DimensionEntries(full, parts) else
    var range := ParseRange(parts[0]);
    if range.None? then [] else [CompositeEntry(full, LeafName(full), range.value.0, range.value.1, false)]
  }

  /** What one tree enters below a parent, which may be a structure. */
  function EntriesOf(n: Node, parent: string, inStruct: bool): seq<Entry>
    decreases n, 0
  {
    match n
    case InScope(name, isHidden, kids) =>
      if isHidden then [] else Entries(kids, if inStruct then parent else Join(parent, name), inStruct)
    case InArray(name, isPacked, kids) =>
      (if isPacked then [] else ArrayEntries(name, parent)) + Entries(kids, parent, inStruct)
    case InStruct(name, isPacked, kids) =>
      [CompositeEntry(Join(parent, name), name, 0, 0, isPacked)] + Entries(kids, Join(parent, name), true)
    case Variable(name, left, right, direction, id, readable) =>
      var shown := ShownName(name, left, right);
      [Entry(Info(if inStruct then LeafName(parent) + "." + shown else shown, Join(parent, shown), left, right, direction),
             id, readable, false)]
  }

  function Entries(nodes: seq<Node>, parent: string, inStruct: bool): seq<Entry>
    decreases nodes, 1
  {
    if nodes == [] then [] else EntriesOf(nodes[0], parent, inStruct) + Entries(nodes[1..], parent, inStruct)
  }

  /** No structure is lost while one around it is open. */
  predicate KeptIn(n: Node, inStruct: bool)
    decreases n, 0
  {
    match n
    case InScope(_, isHidden, kids) => if isHidden then inStruct ==> Lost(kids, true) == 0 else Kept(kids, inStruct)
    case InArray(_, _, kids) => Kept(kids, inStruct)
    case InStruct(_, _, kids) => Kept(kids, true)
    case Variable(_, _, _, _, _, _) => true
  }

  predicate Kept(nodes: seq<Node>, inStruct: bool)
    decreases nodes, 1
  {
    nodes == [] || (KeptIn(nodes[0], inStruct) && Kept(nodes[1..], inStruct))
  }

  lemma {:induction false} KeptLosesNothing(nodes: seq<Node>)
    requires Kept(nodes, true)
    ensures Lost(nodes, false) == 0
    decreases nodes, 1
  {
    hide KeptIn, LostIn;
    if nodes != [] {
      KeptInLosesNothing(nodes[0]);
      KeptLosesNothing(nodes[1..]);
    }
  }

  lemma {:induction false} KeptInLosesNothing(n: Node)
    requires KeptIn(n, true)
    ensures LostIn(n, false) == 0
    decreases n, 0
  {
    hide Kept, Lost;
    if !n.Variable? && !(n.InScope? && n.isHidden) {
      KeptLosesNothing(n.kids);
    }
  }

  /** From inside a hidden scope nothing is entered. */
  lemma {:induction false} HiddenTrees(ix: Index, nodes: seq<Node>)
    requires ix.Hidden()
    ensures SameTables(ix, Run(ix, Callbacks(nodes))) && Run(ix, Callbacks(nodes)).Hidden()
    decreases nodes, 1
  {
    hide Step, CallbacksOf;
    if nodes != [] {
      RunConcat(ix, CallbacksOf(nodes[0]), Callbacks(nodes[1..]));
      HiddenTree(ix, nodes[0]);
      HiddenTrees(Run(ix, CallbacksOf(nodes[0])), nodes[1..]);
    }
  }

  lemma HiddenCallback(ix: Index, cb: Callback)
    requires ix.Hidden()
    ensures SameTables(ix, Step(ix, cb))
  {
    hide Join, ArrayPrefixes;
  }

  lemma {:induction false} HiddenTree(ix: Index, n: Node)
    requires ix.Hidden()
    ensures SameTables(ix, Run(ix, CallbacksOf(n))) && Run(ix, CallbacksOf(n)).Hidden()
    decreases n, 0
  {
    hide Step, Run, Callbacks, Lost, Join;
    StacksBehindOne(ix, n);
    if n.Variable? {
      RunOne(ix, CallbacksOf(n)[0]);
      HiddenCallback(ix, CallbacksOf(n)[0]);
    } else {
      var begin, end := CallbacksOf(n)[0], if n.InScope? then Upscope else if n.InArray? then ArrayEnd else StructEnd;
      AroundKids(ix, begin, Callbacks(n.kids), end);
      StepStacks(ix, begin);
      HiddenCallback(ix, begin);
      HiddenTrees(Step(ix, begin), n.kids);
      ClosingKeeps(Run(Step(ix, begin), Callbacks(n.kids)), end);
    }
  }

  lemma ClosingKeeps(ix: Index, cb: Callback)
    requires cb.Upscope? || cb.ArrayEnd? || cb.StructEnd?
    ensures SameTables(ix, Step(ix, cb))
  {
  }

  lemma {:induction false} DimensionsEnter(ix: Index, key: string, parts: seq<string>)
    ensures Dimensions(ix, key, parts).variables == EnterAll(ix.variables, DimensionEntries(key, parts))
    decreases |parts|
  {
    hide ParseRange, LeafName, Dimensions;
    DimensionsStep(ix, key, parts);
    if |parts| >= 2 {
      var next := key + parts[0];
      if ParseRange(parts[1]).None? {
        DimensionsEnter(ix, next, parts[1..]);
        assert [] + DimensionEntries(next, parts[1..]) == DimensionEntries(next, parts[1..]);
      } else {
        var (left, right) := ParseRange(parts[1]).value;
        var e := CompositeEntry(next, LeafName(next), left, right, false);
        DimensionsEnter(Entered(ix, "", e, false), next, parts[1..]);
        assert ([e] + DimensionEntries(next, parts[1..]))[1..] == DimensionEntries(next, parts[1..]);
      }
    }
  }

  lemma EnterOne(table: map<string, Entry>, e: Entry)
    ensures EnterAll(table, [e]) == if e.info.fullName in table then table else table[e.info.fullName := e]
  {
    assert [e][1..] == [];
  }

  lemma ArrayEnters(ix: Index, raw: string, parent: string)
    ensures ArrayPrefixes(ix, raw, parent).variables == EnterAll(ix.variables, ArrayEntries(raw, parent))
  {
    hide ParseRange, LeafName, Dimensions, DimensionEntries, RangesFrom, Join, EnterAll;
    NoneEntered(ix.variables);
    var first := FindChar(raw, '[', 0);
    if first < |raw| {
      var full, parts := Join(parent, raw[..first]), RangesFrom(raw[first..], 0);
      DimensionsEnter(ix, full, parts);
      if |parts| == 1 && ParseRange(parts[0]).Some? {
        var (left, right) := ParseRange(parts[0]).value;
        EnterOne(ix.variables, CompositeEntry(full, LeafName(full), left, right, false));
      }
    }
  }

  lemma NoneEntered(table: map<string, Entry>)
    ensures EnterAll(table, []) == table
  {
  }

  /** What the callback that opens a tree, or declares a variable, enters by itself. */
  lemma OpeningEnters(ix: Index, n: Node)
    requires !ix.Hidden()
    ensures
      var own := match n
        case InScope(_, _, _) => []
        case InArray(name, isPacked, _) => if isPacked then [] else ArrayEntries(name, ix.Parent())
        case InStruct(name, isPacked, _) => [CompositeEntry(Join(ix.Parent(), name), name, 0, 0, isPacked)]
        case Variable(_, _, _, _, _, _) => EntriesOf(n, ix.Parent(), ix.aggregates != []);
      Step(ix, CallbacksOf(n)[0]).variables == EnterAll(ix.variables, own)
  {
    hide ArrayPrefixes, ArrayEntries, Callbacks, Join, ShownName, LeafName, EnterAll;
    NoneEntered(ix.variables);
    match n
    case InScope(_, _, _) =>
    case InArray(name, isPacked, _) => ArrayEnters(ix, name, ix.Parent());
    case InStruct(name, isPacked, _) => EnterOne(ix.variables, CompositeEntry(Join(ix.Parent(), name), name, 0, 0, isPacked));
    case Variable(_, _, _, _, _, _) => EnterOne(ix.variables, EntriesOf(n, ix.Parent(), ix.aggregates != [])[0]);
  }

  /**
   Outside hidden scopes the table holds what the trees declare, below the parent that is open,
   unless a structure is lost inside another one; the first entry under a name stays.
   */
  lemma {:induction false} TableOfTrees(ix: Index, nodes: seq<Node>)
    requires !ix.Hidden() && Kept(nodes, ix.aggregates != [])
    ensures Run(ix, Callbacks(nodes)).variables == EnterAll(ix.variables, Entries(nodes, ix.Parent(), ix.aggregates != []))
    ensures Run(ix, Callbacks(nodes)).aggregates == ix.aggregates
    decreases nodes, 1
  {
    hide Step, CallbacksOf, EntriesOf, KeptIn, EnterAll;
    if nodes == [] {
      NoneEntered(ix.variables);
    } else {
      var mid := Run(ix, CallbacksOf(nodes[0]));
      RunConcat(ix, CallbacksOf(nodes[0]), Callbacks(nodes[1..]));
      TableOfTree(ix, nodes[0]);
      StacksBehindOne(ix, nodes[0]);
      TableOfTrees(mid, nodes[1..]);
      EnterAllConcat(ix.variables, EntriesOf(nodes[0], ix.Parent(), ix.aggregates != []),
        Entries(nodes[1..], ix.Parent(), ix.aggregates != []));
    }
  }

  lemma {:induction false} TableOfTree(ix: Index, n: Node)
    requires !ix.Hidden() && KeptIn(n, ix.aggregates != [])
    ensures Run(ix, CallbacksOf(n)).variables == EnterAll(ix.variables, EntriesOf(n, ix.Parent(), ix.aggregates != []))
    ensures Run(ix, CallbacksOf(n)).aggregates == ix.aggregates
    decreases n, 0
  {
    hide Step, Run, Callbacks, Join, ShownName, LeafName, Entries, ArrayEntries, EnterAll, Kept, Lost;
    var inStruct := ix.aggregates != [];
    var begin := CallbacksOf(n)[0];
    OpeningEnters(ix, n);
    StepStacks(ix, begin);
    StacksBehindOne(ix, n);
    if inStruct {
      KeptInLosesNothing(n);
    }
    if n.Variable? {
      RunOne(ix, begin);
    } else {
      var end := if n.InScope? then Upscope else if n.InArray? then ArrayEnd else StructEnd;
      var inside := Step(ix, begin);
      AroundKids(ix, begin, Callbacks(n.kids), end);
      ClosingKeeps(Run(inside, Callbacks(n.kids)), end);
      if n.InScope? && n.isHidden {
        HiddenTrees(inside, n.kids);
        NoneEntered(ix.variables);
      } else {
        TableOfTrees(inside, n.kids);
        NoneEntered(ix.variables);
        JoinNotOpen(ix, n);
        EnterKids(ix, n, Entries(n.kids, inside.Parent(), inside.aggregates != []));
      }
    }
  }

  /** Inside a scope the parent is the scope, unless a structure is open; inside a structure it is the structure. */
  lemma JoinNotOpen(ix: Index, n: Node)
    requires !n.Variable? && !ix.Hidden()
    ensures var inside := Step(ix, CallbacksOf(n)[0]);
      && inside.Parent() == (if n.InStruct? || (n.InScope? && ix.aggregates == []) then Join(ix.Parent(), n.name) else ix.Parent())
      && (inside.aggregates != [] <==> n.InStruct? || ix.aggregates != [])
  {
    hide Step, Callbacks, Join;
    StepStacks(ix, CallbacksOf(n)[0]);
  }

  lemma EnterKids(ix: Index, n: Node, kids: seq<Entry>)
    requires !n.Variable? && !(n.InScope? && n.isHidden) && !ix.Hidden()
    requires kids == Entries(n.kids, Step(ix, CallbacksOf(n)[0]).Parent(), Step(ix, CallbacksOf(n)[0]).aggregates != [])
    ensures EnterAll(ix.variables, EntriesOf(n, ix.Parent(), ix.aggregates != []))
      == EnterAll(Step(ix, CallbacksOf(n)[0]).variables, kids)
  {
    hide Step, Callbacks, Join, Entries, ArrayEntries, EnterAll;
    OpeningEnters(ix, n);
    JoinNotOpen(ix, n);
    NoneEntered(ix.variables);
    match n
    case InScope(_, _, _) =>
    case InArray(name, isPacked, _) =>
      EnterAllConcat(ix.variables, if isPacked then [] else ArrayEntries(name, ix.Parent()), kids);
    case InStruct(name, isPacked, _) =>
      EnterAllConcat(ix.variables, [CompositeEntry(Join(ix.Parent(), name), name, 0, 0, isPacked)], kids);
    case Variable(_, _, _, _, _, _) =>
  }

  /** A variable inside an unpacked array is entered but not listed. */
  lemma NotListedInArray(ix: Index, cb: Callback)
    requires cb.Declare? && true in ix.unpacked
    ensures Step(ix, cb).signals == ix.signals
  {
    hide Join, ShownName, LeafName;
  }

  // --------------------------------------------------------------- structures and variables

  /** A structure is entered without id or range, listed under its parent, and then is the parent. */
  lemma StructEntered(ix: Index, name: string, isPacked: bool)
    requires !ix.Hidden() && Join(ix.Parent(), name) !in ix.variables
    ensures
      var full := Join(ix.Parent(), name);
      var r := Step(ix, StructBegin(name, isPacked));
      && r.variables.Keys == ix.variables.Keys + {full} && r.Parent() == full && full in r.signals
      && (var e := r.variables[full];
          && e.id == 0 && !e.readable && e.packed == isPacked
          && e.info == Info(name, full, 0, 0, Undirected)
          && (full != ix.Parent() ==> ix.Parent() in r.signals && r.signals[ix.Parent()] == At(ix.signals, ix.Parent()) + [e.info]))
  {
    hide Join;
  }

  /** A variable is shown under its own name, and behind the name of the structure it is declared in. */
  lemma VariableShown(ix: Index, cb: Callback)
    requires cb.Declare? && !ix.Hidden() && Join(ix.Parent(), ShownName(cb.name, cb.left, cb.right)) !in ix.variables
    ensures
      var shown := ShownName(cb.name, cb.left, cb.right);
      var full := Join(ix.Parent(), shown);
      var r := Step(ix, cb);
      && r.variables.Keys == ix.variables.Keys + {full}
      && r.variables[full].info.name == (if ix.aggregates == [] then shown else LeafName(ix.Parent()) + "." + shown)
      && (true !in ix.unpacked ==>
            ix.Parent() in r.signals && r.signals[ix.Parent()] == At(ix.signals, ix.Parent()) + [r.variables[full].info])
  {
    hide Join, ShownName, LeafName;
  }

  /** A scope is listed under its parent when it is new, and then is the parent unless a structure is open. */
  lemma ScopeEntered(ix: Index, name: string)
    requires !ix.Hidden() && Join(ix.Parent(), name) !in ix.children && Join(ix.Parent(), name) != ix.Parent()
    ensures
      var full := Join(ix.Parent(), name);
      var r := Step(ix, Scope(name, false));
      && full in r.children && r.children[full] == [] && full in r.signals
      && ix.Parent() in r.children && r.children[ix.Parent()] == At(ix.children, ix.Parent()) + [full]
      && r.Parent() == (if ix.aggregates == [] then full else ix.Parent()) && r.variables == ix.variables
  {
    hide Join;
  }

  /** Which parent counts: the innermost structure, else the innermost scope, else the top. */
  lemma ParentIs(ix: Index)
    ensures ix.aggregates != [] ==> ix.Parent() == ix.aggregates[|ix.aggregates|-1]
    ensures ix.aggregates == [] && ix.stack != [] ==> ix.Parent() == ix.stack[|ix.stack|-1]
    ensures ix.aggregates == [] && ix.stack == [] ==> ix.Parent() == ""
  {
  }
}
