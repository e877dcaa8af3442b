/**
 Building the scope and signal tables from the reader's tree callbacks.

 The callbacks open and close scopes, arrays and structures and declare variables. Stacks
 remember what is open; three tables collect what may be asked for later.
 */
module ScopeTree {
  import opened CText
  import opened Database

  datatype Direction = Input | Output | Inout | Undirected

  datatype Info = Info(name: string, fullName: string, left: int, right: int, direction: Direction)

  /** An entry of the variable table; id 0 marks a composite. */
  datatype Entry = Entry(info: Info, id: nat, readable: bool, packed: bool)

  datatype Callback =
    | Scope(name: string, isHidden: bool)
    | Upscope
    | ArrayBegin(name: string, isPacked: bool)
    | ArrayEnd
    | StructBegin(name: string, isPacked: bool)
    | StructEnd
    | Declare(name: string, left: int, right: int, direction: Direction, id: nat, readable: bool)
    | Other

  /** The stacks and tables as values. */
  datatype Index = Index(
    stack: seq<string>,
    hidden: seq<bool>,
    aggregates: seq<string>,
    unpacked: seq<bool>,
    children: map<string, seq<string>>,
    signals: map<string, seq<Info>>,
    variables: map<string, Entry>)
  {
    function Parent(): string {
      if aggregates != [] then aggregates[|aggregates|-1]
      else if stack == [] then "" else stack[|stack|-1]
    }

    predicate Hidden() {
      hidden != [] && hidden[|hidden|-1]
    }
  }

  const EMPTY := Index([], [], [], [], map["" := []], map["" := []], map[])

  function Join(parent: string, name: string): string {
    if parent == "" then name else parent + "." + name
  }

  /** The text behind the last dot. */
  function LeafName(full: string): string
    decreases |full|
  {
    if '.' !in full then full else LeafName(full[1..])
  }

  function DropLast<T>(s: seq<T>): seq<T> {
    if s == [] then [] else s[..|s|-1]
  }

  /** operator[] of a map of lists: a missing key is created with an empty list. */
  function At<T>(table: map<string, seq<T>>, key: string): seq<T> {
    if key in table then table[key] else []
  }

  function Touched<T>(table: map<string, seq<T>>, key: string): map<string, seq<T>> {
    if key in table then table else table[key := []]
  }

  function Appended<T>(table: map<string, seq<T>>, key: string, value: T): map<string, seq<T>> {
    table[key := At(table, key) + [value]]
  }

  // ------------------------------------------------------------- single callbacks

  function ListScope(ix: Index, full: string): Index {
    var p := ix.Parent();
    ix.(children := Touched(Appended(ix.children, p, full), full), signals := Touched(ix.signals, full))
  }

  function OpenScope(ix: Index, name: string, isHidden: bool): Index {
    var full := Join(ix.Parent(), name);
    var hidden := isHidden || ix.Hidden();
    var next := if hidden || full in ix.children then ix else ListScope(ix, full);
    next.(stack := ix.stack + [full], hidden := ix.hidden + [hidden])
  }

  /** emplace: the first entry under a name stays; a new one may be listed in the scope. */
  function Entered(ix: Index, parent: string, entry: Entry, listed: bool): Index {
    if entry.info.fullName in ix.variables then ix else
    ix.(variables := ix.variables[entry.info.fullName := entry],
        signals := if listed then Appended(ix.signals, parent, entry.info) else ix.signals)
  }

  function CompositeEntry(full: string, name: string, left: int, right: int, packed: bool): Entry {
    Entry(Info(name, full, left, right, Undirected), 0, false, packed)
  }

  /** All bracketed pieces of the text from a position on. */
  function RangesFrom(text: string, from: nat): seq<string>
    requires from <= |text|
    decreases |text| - from
  {
    var pos := FindChar(text, '[', from);
    if pos == |text| then [] else
    var end := FindChar(text, ']', pos);
    if end == |text| then [] else [text[pos..end+1]] + RangesFrom(text, end + 1)
  }

  /** Enters the inner nodes of an array with several dimensions; they are not listed. */
  function Dimensions(ix: Index, key: string, parts: seq<string>): Index
    decreases |parts|
  {
    if |parts| < 2 then ix else
    var next := key + parts[0];
    match ParseRange(parts[1])
    case None => Dimensions(ix, next, parts[1..])
    case Some((left, right)) =>
      Dimensions(Entered(ix, "", CompositeEntry(next, LeafName(next), left, right, false), false), next, parts[1..])
  }

  function ArrayPrefixes(ix: Index, raw: string, parent: string): Index {
    var first := FindChar(raw, '[', 0);
    if first == |raw| then ix else
    var full := Join(parent, raw[..first]);
    var parts := RangesFrom(raw[first..], 0);
    if |parts| != 1 then Dimensions(ix, full, parts) else
    match ParseRange(parts[0])
    case None => ix
    case Some((left, right)) => Entered(ix, parent, CompositeEntry(full, LeafName(full), left, right, false), true)
  }

  function OpenArray(ix: Index, name: string, isPacked: bool): Index {
    var next := if !isPacked && !ix.Hidden() then ArrayPrefixes(ix, name, ix.Parent()) else ix;
    next.(unpacked := ix.unpacked + [!isPacked])
  }

  function OpenStruct(ix: Index, name: string, isPacked: bool): Index {
    if ix.Hidden() then ix else
    var full := Join(ix.Parent(), name);
    var next := Entered(ix, ix.Parent(), CompositeEntry(full, name, 0, 0, isPacked), true);
    next.(signals := Touched(next.signals, full), aggregates := ix.aggregates + [full])
  }

  predicate EndsWith(s: string, suffix: string) {
    |s| >= |suffix| && s[|s|-|suffix|..] == suffix
  }

  /** The name as it is shown: an escaped name ends in a blank, a bus range is cut off. */
  function ShownName(name: string, left: int, right: int): string {
    var range := "[" + IntText(left) + ":" + IntText(right) + "]";
    if name == "" then name
    else if name[0] == '\\' then (if name[|name|-1] != ' ' then name + " " else name)
    else if EndsWith(name, range) then name[..|name|-|range|]
    else name
  }

  function DeclareVar(ix: Index, cb: Callback): Index
    requires cb.Declare?
  {
    if ix.Hidden() then ix else
    var parent := ix.Parent();
    var name := ShownName(cb.name, cb.left, cb.right);
    var shown := if ix.aggregates != [] then LeafName(parent) + "." + name else name;
    Entered(ix, parent, Entry(Info(shown, Join(parent, name), cb.left, cb.right, cb.direction), cb.id, cb.readable, false),
            true !in ix.unpacked)
  }

  function Step(ix: Index, cb: Callback): Index {
    match cb
    case Scope(name, isHidden) => OpenScope(ix, name, isHidden)
    case Upscope => ix.(stack := DropLast(ix.stack), hidden := DropLast(ix.hidden))
    case ArrayBegin(name, isPacked) => OpenArray(ix, name, isPacked)
    case ArrayEnd => ix.(unpacked := DropLast(ix.unpacked))
    case StructBegin(name, isPacked) => OpenStruct(ix, name, isPacked)
    case StructEnd => ix.(aggregates := DropLast(ix.aggregates))
    case Declare(_, _, _, _, _, _) => DeclareVar(ix, cb)
    case Other => ix
  }

  function Run(ix: Index, callbacks: seq<Callback>): Index
    decreases |callbacks|
  {
    if callbacks == [] then ix else Run(Step(ix, callbacks[0]), callbacks[1..])
  }

  // ------------------------------------------------------------------ the reader

  class TreeReader {
    var stack: seq<string>
    var hidden: seq<bool>
    var aggregates: seq<string>
    var unpacked: seq<bool>
    var children: map<string, seq<string>>
    var signals: map<string, seq<Info>>
    var variables: map<string, Entry>

    constructor ()
      ensures State() == EMPTY
    {
      stack, hidden, aggregates, unpacked := [], [], [], [];
      children, signals, variables := map["" := []], map["" := []], map[];
    }

    function State(): Index
      reads this
    {
      Index(stack, hidden, aggregates, unpacked, children, signals, variables)
    }

    function Parent(): string
      reads this
    {
      if aggregates != [] then aggregates[|aggregates|-1]
      else if stack == [] then "" else stack[|stack|-1]
    }

    /** emplace, and the listing that follows when the entry is new. */
    method Enter(parent: string, entry: Entry, listed: bool)
      modifies this`variables, this`signals
      ensures State() == Entered(old(State()), parent, entry, listed)
    {
      hide Appended;
      var inserted := entry.info.fullName !in variables;
      if inserted {
        variables := variables[entry.info.fullName := entry];
      }
      if inserted && listed {
        signals := Appended(signals, parent, entry.info);
      }
    }

    method RangesIn(text: string) returns (result: seq<string>)
      ensures result == RangesFrom(text, 0)
    {
      hide RangesFrom, FindChar;
      result := [];
      var pos := FindChar(text, '[', 0);
      RangesStep(text, 0);
      ghost var from: nat := 0;
      while pos != |text|
        invariant from <= pos <= |text| && pos == FindChar(text, '[', from)
        invariant RangesFrom(text, 0) == result + RangesFrom(text, from)
        decreases |text| - pos
      {
        RangesStep(text, from);
        var end := FindChar(text, ']', pos);
        if end == |text| {
          break;
        }
        AppendPiece(result, text[pos..end+1], RangesFrom(text, end + 1));
        result := result + [text[pos..end+1]];
        from := end + 1;
        pos := FindChar(text, '[', end + 1);
      }
      RangesStep(text, from);
    }

    method AddArrayPrefixes(raw: string, parent: string)
      modifies this`variables, this`signals
      ensures State() == ArrayPrefixes(old(State()), raw, parent)
    {
      hide RangesFrom, FindChar, ParseRange, Dimensions, LeafName, Entered;
      var first := FindChar(raw, '[', 0);
      if first == |raw| {
        return;
      }
      var full := Join(parent, raw[..first]);
      var parts := RangesIn(raw[first..]);
      if |parts| == 1 {
        var range := ParseRange(parts[0]);
        if range.None? {
          return;
        }
        Enter(parent, CompositeEntry(full, LeafName(full), range.value.0, range.value.1, false), true);
        return;
      }
      AddDimensions(full, parts);
    }

    method AddDimensions(full: string, parts: seq<string>)
      modifies this`variables, this`signals
      ensures State() == Dimensions(old(State()), full, parts)
    {
      hide ParseRange, Dimensions, LeafName, Entered;
      var key := full;
      var i := 0;
      assert parts[0..] == parts;
      while i + 1 < |parts|
        invariant 0 <= i && (i <= |parts|)
        invariant Dimensions(State(), key, parts[i..]) == Dimensions(old(State()), full, parts)
      {
        DimensionsStep(State(), key, parts[i..]);
        assert parts[i..][1..] == parts[i+1..];
        key := key + parts[i];
        i := i + 1;
        var range := ParseRange(parts[i]);
        if range.None? {
          continue;
        }
        Enter("", CompositeEntry(key, LeafName(key), range.value.0, range.value.1, false), false);
      }
      DimensionsStep(State(), key, parts[i..]);
    }

    method BeginScope(name: string, isHidden: bool)
      modifies this
      ensures State() == OpenScope(old(State()), name, isHidden)
    {
      hide ListScope;
      var p := Parent();
      var full := if p == "" then name else p + "." + name;
      var hides := isHidden || (hidden != [] && hidden[|hidden|-1]);
      if !hides && full !in children {
        AddScope(full);
      }
      stack := stack + [full];
      hidden := hidden + [hides];
    }

    method AddScope(full: string)
      modifies this`children, this`signals
      ensures State() == ListScope(old(State()), full)
    {
      hide Appended, Touched;
      children := Appended(children, Parent(), full);
      children := Touched(children, full);
      signals := Touched(signals, full);
    }

    method BeginStruct(name: string, isPacked: bool)
      modifies this
      ensures State() == OpenStruct(old(State()), name, isPacked)
    {
      hide Touched, Entered;
      if hidden != [] && hidden[|hidden|-1] {
        return;
      }
      var full := if Parent() == "" then name else Parent() + "." + name;
      Enter(Parent(), CompositeEntry(full, name, 0, 0, isPacked), true);
      signals := Touched(signals, full);
      aggregates := aggregates + [full];
    }

    method AddVar(cb: Callback)
      requires cb.Declare?
      modifies this
      ensures State() == DeclareVar(old(State()), cb)
    {
      hide ShownName, LeafName, Entered;
      if hidden != [] && hidden[|hidden|-1] {
        return;
      }
      var name := TrimmedName(cb.name, cb.left, cb.right);
      var full := if Parent() == "" then name else Parent() + "." + name;
      if aggregates != [] {
        name := LeafName(Parent()) + "." + name;
      }
      var entry := Entry(Info(name, full, cb.left, cb.right, cb.direction), cb.id, cb.readable, false);
      Enter(Parent(), entry, true !in unpacked);
    }

    method OnCallback(cb: Callback)
      modifies this
      ensures State() == Step(old(State()), cb)
    {
      hide ArrayPrefixes, OpenScope, OpenStruct, DeclareVar;
      match cb
      case Scope(name, isHidden) =>
        BeginScope(name, isHidden);
      case Upscope =>
        if stack != [] {
          stack := stack[..|stack|-1];
        }
        if hidden != [] {
          hidden := hidden[..|hidden|-1];
        }
      case ArrayBegin(name, isPacked) =>
        if !isPacked && (hidden == [] || !hidden[|hidden|-1]) {
          AddArrayPrefixes(name, Parent());
        }
        unpacked := unpacked + [!isPacked];
      case ArrayEnd =>
        if unpacked != [] {
          unpacked := unpacked[..|unpacked|-1];
        }
      case StructBegin(name, isPacked) =>
        BeginStruct(name, isPacked);
      case StructEnd =>
        if aggregates != [] {
          aggregates := aggregates[..|aggregates|-1];
        }
      case Declare(_, _, _, _, _, _) =>
        AddVar(cb);
      case Other =>
    }

    method TrimmedName(rawName: string, left: int, right: int) returns (name: string)
      ensures name == ShownName(rawName, left, right)
    {
      name := rawName;
      if name != "" && name[0] == '\\' && name[|name|-1] != ' ' {
        name := name + " ";
      }
      var range := "[" + IntText(left) + ":" + IntText(right) + "]";
      if name != "" && name[0] != '\\' && |name| >= |range| && name[|name|-|range|..] == range {
        name := name[..|name|-|range|];
      }
    }
  }

  lemma AppendPiece(found: seq<string>, piece: string, rest: seq<string>)
    ensures found + ([piece] + rest) == found + [piece] + rest
    ensures found + [] == found
  {
  }

  lemma RangesStep(text: string, from: nat)
    requires from <= |text|
    ensures var pos := FindChar(text, '[', from);
      RangesFrom(text, from) ==
        if pos == |text| then [] else
        var end := FindChar(text, ']', pos);
        if end == |text| then [] else [text[pos..end+1]] + RangesFrom(text, end + 1)
  {
    hide FindChar;
  }

  lemma DimensionsStep(ix: Index, key: string, parts: seq<string>)
    ensures Dimensions(ix, key, parts) ==
      if |parts| < 2 then ix else
      var next := key + parts[0];
      match ParseRange(parts[1])
      case None => Dimensions(ix, next, parts[1..])
      case Some((left, right)) =>
        Dimensions(Entered(ix, "", CompositeEntry(next, LeafName(next), left, right, false), false), next, parts[1..])
  {
    hide ParseRange, LeafName, Entered;
  }
}
