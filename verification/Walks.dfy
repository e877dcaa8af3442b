/**
 Listing scopes and searching signals: walks over the scope forest that stop early when
 there is enough to show.
 */
module Walks {
  import opened ScopeTree
  import opened ScopeForest
  import Glob

  /** The tables after the tree has been read. */
  predicate Closed(ix: Index) {
    Forest(ix.children) && ix.children.Keys <= ix.signals.Keys
  }

  lemma ChildOf(ix: Index, p: string, i: nat)
    requires Closed(ix) && p in ix.children && i < |ix.children[p]|
    ensures ix.children[p][i] in ix.children && ix.children[p][i] in ix.signals && ix.children[p][i] != ""
  {
  }

  predicate AllScopes(ix: Index, kids: seq<string>) {
    forall i :: 0 <= i < |kids| ==> kids[i] in ix.children && kids[i] in ix.signals && kids[i] != ""
  }

  lemma ChildrenAreScopes(ix: Index, p: string)
    requires Closed(ix) && p in ix.children
    ensures AllScopes(ix, ix.children[p])
  {
    hide Closed;
    forall i | 0 <= i < |ix.children[p]|
      ensures ix.children[p][i] in ix.children && ix.children[p][i] in ix.signals && ix.children[p][i] != ""
    {
      ChildOf(ix, p, i);
    }
  }

  function Below(level: int, depth: int): nat {
    if level < depth then depth - level else 0
  }

  // ------------------------------------------------------------------ listing scopes

  /** All scopes in preorder, down to the depth. */
  function Preorder(ix: Index, kids: seq<string>, level: int, depth: int): seq<string>
    requires Closed(ix) && AllScopes(ix, kids)
    decreases Below(level, depth), |kids|
  {
    if kids == [] then [] else
    [kids[0]] + Inner(ix, kids[0], level, depth) + Preorder(ix, kids[1..], level, depth)
  }

  function Inner(ix: Index, scope: string, level: int, depth: int): seq<string>
    requires Closed(ix) && scope in ix.children
    decreases Below(level, depth), 0
  {
    ChildrenAreScopes(ix, scope);
    if level < depth then Preorder(ix, ix.children[scope], level + 1, depth) else []
  }

  const ENOUGH_SCOPES: nat := 500

  /** The walk that shares one result list and leaves every loop once there is enough. */
  function Walked(ix: Index, kids: seq<string>, level: int, depth: int, result: seq<string>): seq<string>
    requires Closed(ix) && AllScopes(ix, kids)
    decreases Below(level, depth), |kids|
  {
    if kids == [] then result else
    ChildrenAreScopes(ix, kids[0]);
    var down := if level < depth then Walked(ix, ix.children[kids[0]], level + 1, depth, result + [kids[0]])
                else result + [kids[0]];
    if |down| >= ENOUGH_SCOPES then down else Walked(ix, kids[1..], level, depth, down)
  }

  /** From the root, every top scope is entered. */
  function WalkedTops(ix: Index, tops: seq<string>, depth: int, result: seq<string>): seq<string>
    requires Closed(ix) && AllScopes(ix, tops)
    decreases |tops|
  {
    if tops == [] then result else
    ChildrenAreScopes(ix, tops[0]);
    var down := if 1 < depth then Walked(ix, ix.children[tops[0]], 2, depth, result + [tops[0]])
                else result + [tops[0]];
    WalkedTops(ix, tops[1..], depth, down)
  }

  datatype Listing<+T> = Found(items: T) | ScopeNotFound

  class ScopeWalk {
    const ix: Index
    const depth: int
    var result: seq<string>

    constructor (ix: Index, depth: int)
      ensures this.ix == ix && this.depth == depth && result == []
    {
      this.ix, this.depth, result := ix, depth, [];
    }

    method Walk(parent: string, level: int)
      requires Closed(ix) && parent in ix.children && (parent == "" ==> level == 1)
      modifies this`result
      ensures AllScopes(ix, ix.children[parent])
      ensures result ==
        if parent == "" then WalkedTops(ix, ix.children[parent], depth, old(result))
        else Walked(ix, ix.children[parent], level, depth, old(result))
      decreases Below(level, depth)
    {
      hide Closed, AllScopes, Walked, WalkedTops;
      ChildrenAreScopes(ix, parent);
      var kids := ix.children[parent];
      assert kids[0..] == kids;
      var i := 0;
      while i < |kids|
        invariant 0 <= i <= |kids| && AllScopes(ix, kids[i..])
        invariant parent == "" ==>
          WalkedTops(ix, kids[i..], depth, result) == WalkedTops(ix, kids, depth, old(result))
        invariant parent != "" ==> Walked(ix, kids[i..], level, depth, result) == Walked(ix, kids, level, depth, old(result))
      {
        var child := kids[i];
        WalkedStep(ix, kids[i..], level, depth, result);
        WalkedTopsStep(ix, kids[i..], depth, result);
        assert kids[i..][0] == child && kids[i..][1..] == kids[i+1..];
        result := result + [child];
        if level < depth {
          ScopeIsNamed(ix, kids[i..]);
          Walk(child, level + 1);
        }
        i := i + 1;
        if parent != "" && |result| >= ENOUGH_SCOPES {
          return;
        }
      }
      WalkedStep(ix, kids[i..], level, depth, result);
      WalkedTopsStep(ix, kids[i..], depth, result);
    }
  }

  lemma ScopeIsNamed(ix: Index, kids: seq<string>)
    requires AllScopes(ix, kids) && kids != []
    ensures kids[0] in ix.children && kids[0] != ""
  {
  }

  lemma WalkedStep(ix: Index, kids: seq<string>, level: int, depth: int, result: seq<string>)
    requires Closed(ix) && AllScopes(ix, kids)
    ensures kids == [] ==> Walked(ix, kids, level, depth, result) == result
    ensures kids != [] ==>
      && kids[0] in ix.children && AllScopes(ix, ix.children[kids[0]]) && AllScopes(ix, kids[1..])
      && var down := if level < depth then Walked(ix, ix.children[kids[0]], level + 1, depth, result + [kids[0]])
                     else result + [kids[0]];
         Walked(ix, kids, level, depth, result)
           == if |down| >= ENOUGH_SCOPES then down else Walked(ix, kids[1..], level, depth, down)
  {
    hide Closed;
    if kids != [] { ChildrenAreScopes(ix, kids[0]); }
  }

  lemma WalkedTopsStep(ix: Index, tops: seq<string>, depth: int, result: seq<string>)
    requires Closed(ix) && AllScopes(ix, tops)
    ensures tops == [] ==> WalkedTops(ix, tops, depth, result) == result
    ensures tops != [] ==>
      && tops[0] in ix.children && AllScopes(ix, ix.children[tops[0]]) && AllScopes(ix, tops[1..])
      && var down := if 1 < depth then Walked(ix, ix.children[tops[0]], 2, depth, result + [tops[0]])
                     else result + [tops[0]];
         WalkedTops(ix, tops, depth, result) == WalkedTops(ix, tops[1..], depth, down)
  {
    hide Closed, Walked;
    if tops != [] { ChildrenAreScopes(ix, tops[0]); }
  }

  method Scopes(ix: Index, path: string, depth: int) returns (r: Listing<seq<string>>)
    requires Closed(ix)
    ensures r == ScopesSpec(ix, path, depth)
  {
    hide Walked, WalkedTops;
    if path != "" && path !in ix.children {
      return ScopeNotFound;
    }
    var walk := new ScopeWalk(ix, depth);
    walk.Walk(path, 1);
    return Found(walk.result);
  }

  function ScopesSpec(ix: Index, path: string, depth: int): Listing<seq<string>>
    requires Closed(ix)
  {
    if path != "" && path !in ix.children then ScopeNotFound else
    ChildrenAreScopes(ix, path);
    if path == "" then Found(WalkedTops(ix, ix.children[path], depth, []))
    else Found(Walked(ix, ix.children[path], 1, depth, []))
  }

  /** A scope that is not in the tables is reported; the root and every other scope gives a list. */
  lemma UnknownScopeReported(ix: Index, path: string, depth: int)
    requires Closed(ix)
    ensures ScopesSpec(ix, path, depth).ScopeNotFound? <==> path != "" && path !in ix.children
  {
    hide Walked, WalkedTops;
  }

  lemma PreorderStep(ix: Index, kids: seq<string>, level: int, depth: int)
    requires Closed(ix) && AllScopes(ix, kids) && kids != []
    ensures kids[0] in ix.children && AllScopes(ix, ix.children[kids[0]]) && AllScopes(ix, kids[1..])
    ensures Preorder(ix, kids, level, depth) ==
      [kids[0]] + (if level < depth then Preorder(ix, ix.children[kids[0]], level + 1, depth) else [])
      + Preorder(ix, kids[1..], level, depth)
  {
    hide Closed;
    ChildrenAreScopes(ix, kids[0]);
  }

  function Max(a: int, b: int): int {
    if a >= b then a else b
  }

  /** The walk appends a prefix of the preorder: all of it, or enough, and not much more. */
  lemma {:induction false} WalkedIsPrefix(ix: Index, kids: seq<string>, level: int, depth: int, result: seq<string>)
    requires Closed(ix) && AllScopes(ix, kids)
    ensures
      var r := Walked(ix, kids, level, depth, result);
      && result <= r <= result + Preorder(ix, kids, level, depth)
      && (r == result + Preorder(ix, kids, level, depth) || |r| >= ENOUGH_SCOPES)
      && |r| <= Max(|result|, ENOUGH_SCOPES - 1) + 1 + Below(level, depth)
    decreases Below(level, depth), |kids|
  {
    hide Closed, AllScopes, Walked, Preorder;
    WalkedStep(ix, kids, level, depth, result);
    if kids == [] {
      assert result + Preorder(ix, kids, level, depth) == result by { NothingBelow(ix, level, depth); }
    } else {
      PreorderStep(ix, kids, level, depth);
      var inner := if level < depth then Preorder(ix, ix.children[kids[0]], level + 1, depth) else [];
      var rest := Preorder(ix, kids[1..], level, depth);
      var down := if level < depth then Walked(ix, ix.children[kids[0]], level + 1, depth, result + [kids[0]])
                  else result + [kids[0]];
      if level < depth {
        WalkedIsPrefix(ix, ix.children[kids[0]], level + 1, depth, result + [kids[0]]);
      }
      assert result + ([kids[0]] + inner + rest) == result + [kids[0]] + inner + rest;
      if |down| < ENOUGH_SCOPES {
        WalkedIsPrefix(ix, kids[1..], level, depth, down);
      }
    }
  }

  lemma NothingBelow(ix: Index, level: int, depth: int)
    requires Closed(ix)
    ensures Preorder(ix, [], level, depth) == []
  {
  }

  /**
   Below a scope the list is a prefix of the depth-bounded preorder, with at least 500
   entries unless it is complete, and at most 499 plus the depth (which is at least one).
   */
  lemma ScopesIsPrefix(ix: Index, path: string, depth: int)
    requires Closed(ix) && path in ix.children && path != ""
    ensures AllScopes(ix, ix.children[path])
    ensures
      var all := Preorder(ix, ix.children[path], 1, depth);
      var r := ScopesSpec(ix, path, depth);
      && r.Found? && r.items <= all
      && (r.items == all || |r.items| >= 500)
      && |r.items| <= 499 + (if depth > 1 then depth else 1)
  {
    hide Closed, AllScopes, Walked, Preorder;
    ChildrenAreScopes(ix, path);
    WalkedIsPrefix(ix, ix.children[path], 1, depth, []);
    assert [] + Preorder(ix, ix.children[path], 1, depth) == Preorder(ix, ix.children[path], 1, depth);
  }

  function Flattened(blocks: seq<seq<string>>): seq<string> {
    if blocks == [] then [] else blocks[0] + Flattened(blocks[1..])
  }

  /** The part of the list that belongs to one top scope. */
  predicate TopBlock(ix: Index, top: string, depth: int, block: seq<string>)
    requires Closed(ix) && top in ix.children
  {
    [top] <= block <= [top] + Inner(ix, top, 1, depth)
  }

  lemma {:induction false} TopsInBlocks(ix: Index, tops: seq<string>, depth: int, result: seq<string>)
    returns (blocks: seq<seq<string>>)
    requires Closed(ix) && AllScopes(ix, tops)
    ensures WalkedTops(ix, tops, depth, result) == result + Flattened(blocks)
    ensures |blocks| == |tops| && forall i :: 0 <= i < |tops| ==> tops[i] in ix.children && TopBlock(ix, tops[i], depth, blocks[i])
    decreases |tops|
  {
    hide Closed, AllScopes, Walked, WalkedTops, Preorder;
    WalkedTopsStep(ix, tops, depth, result);
    if tops == [] {
      blocks := [];
      assert result + [] == result;
    } else {
      var start := result + [tops[0]];
      var down := if 1 < depth then Walked(ix, ix.children[tops[0]], 2, depth, start) else start;
      if 1 < depth {
        WalkedIsPrefix(ix, ix.children[tops[0]], 2, depth, start);
      }
      var block := down[|result|..];
      var more := TopsInBlocks(ix, tops[1..], depth, down);
      blocks := [block] + more;
      BlockOfTop(ix, tops[0], depth, result, down);
      assert blocks[1..] == more;
      assert down == result + block;
      assert result + block + Flattened(more) == result + (block + Flattened(more));
    }
  }

  lemma BlockOfTop(ix: Index, top: string, depth: int, result: seq<string>, down: seq<string>)
    requires Closed(ix) && top in ix.children
    requires result + [top] <= down <= result + [top] + Inner(ix, top, 1, depth)
    ensures result <= down && TopBlock(ix, top, depth, down[|result|..])
  {
    hide Closed, Inner;
    var inner := Inner(ix, top, 1, depth);
    assert (result + [top] + inner)[|result|..] == [top] + inner;
    assert down == (result + [top] + inner)[..|down|];
    assert down[|result|..] == ([top] + inner)[..|down| - |result|];
  }

  lemma {:induction false} BlockInFlattened(blocks: seq<seq<string>>, i: nat, x: string)
    requires i < |blocks| && x in blocks[i]
    ensures x in Flattened(blocks)
    decreases i
  {
    if i > 0 {
      BlockInFlattened(blocks[1..], i - 1, x);
    }
  }

  /**
   From the root every top scope is listed, in order, each followed by a prefix of its own
   preorder, however long the list gets.
   */
  lemma EveryTopListed(ix: Index, depth: int) returns (blocks: seq<seq<string>>)
    requires Closed(ix)
    ensures
      var tops := ix.children[""];
      var r := ScopesSpec(ix, "", depth);
      && r == Found(Flattened(blocks))
      && |blocks| == |tops|
      && (forall i :: 0 <= i < |tops| ==> tops[i] in ix.children && TopBlock(ix, tops[i], depth, blocks[i]))
      && (forall top :: top in tops ==> top in r.items)
  {
    hide AllScopes, Walked, WalkedTops, Inner, Flattened;
    ChildrenAreScopes(ix, "");
    var tops := ix.children[""];
    blocks := TopsInBlocks(ix, tops, depth, []);
    assert [] + Flattened(blocks) == Flattened(blocks);
    forall top | top in tops ensures top in Flattened(blocks) {
      var i :| 0 <= i < |tops| && tops[i] == top;
      assert [top][0] == blocks[i][0];
      BlockInFlattened(blocks, i, top);
    }
  }

  // --------------------------------------------------------------- searching signals

  const DEEPEST: int := 20
  const ENOUGH_HITS: nat := 200

  /** The full names of the signals whose short names match. */
  ghost function Matching(infos: seq<Info>, pattern: string): seq<string> {
    if infos == [] then []
    else (if Glob.LoopMatch(pattern, infos[0].name) then [infos[0].fullName] else []) + Matching(infos[1..], pattern)
  }

  /** All matches in a scope and below it, in preorder, down to the deepest level. */
  ghost function HitsAt(ix: Index, scope: string, level: int, pattern: string): seq<string>
    requires Closed(ix) && scope in ix.children && scope in ix.signals
    decreases Below(level, DEEPEST + 1), 0, 0
  {
    ChildrenAreScopes(ix, scope);
    if level > DEEPEST then []
    else Matching(ix.signals[scope], pattern) + HitsBelow(ix, ix.children[scope], level + 1, pattern)
  }

  ghost function HitsBelow(ix: Index, kids: seq<string>, level: int, pattern: string): seq<string>
    requires Closed(ix) && AllScopes(ix, kids)
    decreases Below(level, DEEPEST + 1), 1, |kids|
  {
    if kids == [] then [] else HitsAt(ix, kids[0], level, pattern) + HitsBelow(ix, kids[1..], level, pattern)
  }

  function First(s: seq<string>, n: nat): seq<string> {
    if |s| <= n then s else s[..n]
  }

  lemma FirstOfFirst(a: seq<string>, b: seq<string>, n: nat)
    ensures First(First(a, n) + b, n) == First(a + b, n)
    ensures |a| >= n ==> First(a + b, n) == First(a, n)
  {
    if |a| > n {
      assert (a[..n] + b)[..n] == a[..n] == (a + b)[..n];
    } else if |a| == n {
      assert a[..n] == a && (a + b)[..n] == a;
    }
  }

  class SignalSearch {
    const ix: Index
    const pattern: string
    var result: seq<string>

    constructor (ix: Index, pattern: string)
      ensures this.ix == ix && this.pattern == pattern && result == []
    {
      this.ix, this.pattern, result := ix, pattern, [];
    }

    method Walk(parent: string, level: int)
      requires Closed(ix) && parent in ix.children && parent in ix.signals && |result| <= ENOUGH_HITS
      modifies this`result
      ensures |result| <= ENOUGH_HITS
      ensures result == First(old(result) + HitsAt(ix, parent, level, pattern), ENOUGH_HITS)
      decreases Below(level, DEEPEST + 1), 0, 0
    {
      hide Closed, AllScopes, HitsAt, HitsBelow, First, Matching;
      ghost var before := result;
      HitsStep(ix, parent, level, pattern);
      if level > DEEPEST || |result| >= ENOUGH_HITS {
        NoMoreHits(before, HitsAt(ix, parent, level, pattern));
        return;
      }
      ghost var here := Matching(ix.signals[parent], pattern);
      ghost var below := HitsBelow(ix, ix.children[parent], level + 1, pattern);
      MatchSignals(ix.signals[parent]);
      assert before + (here + below) == before + here + below;
      FirstOfFirst(before + here, below, ENOUGH_HITS);
      if |result| >= ENOUGH_HITS {
        NoMoreHits(result, below);
        return;
      }
      ChildrenAreScopes(ix, parent);
      WalkAll(ix.children[parent], level + 1);
    }

    /** The loop over the signals of one scope; it ends when there is enough. */
    method MatchSignals(sigs: seq<Info>)
      requires |result| < ENOUGH_HITS
      modifies this`result
      ensures |result| <= ENOUGH_HITS
      ensures result == First(old(result) + Matching(sigs, pattern), ENOUGH_HITS)
    {
      hide First, Matching, Glob.LoopMatch, Glob.Matches, Glob.StarFree;
      ghost var all := result + Matching(sigs, pattern);
      assert sigs[0..] == sigs;
      var i := 0;
      while i < |sigs|
        invariant 0 <= i <= |sigs| && |result| < ENOUGH_HITS
        invariant result + Matching(sigs[i..], pattern) == all
      {
        MatchingStep(sigs, i, pattern);
        var matched := Glob.WildcardMatch(pattern, sigs[i].name);
        ghost var rest := Matching(sigs[i+1..], pattern);
        AddOrSkip(result, matched, sigs[i].fullName, rest);
        if matched {
          result := result + [sigs[i].fullName];
        }
        i := i + 1;
        if |result| >= ENOUGH_HITS {
          NoMoreHits(result, rest);
          return;
        }
      }
      MatchingStep(sigs, i, pattern);
      NoMoreHits(result, []);
    }

    /** The loop over the child scopes; each walk notices by itself when there is enough. */
    method WalkAll(kids: seq<string>, level: int)
      requires Closed(ix) && AllScopes(ix, kids) && |result| <= ENOUGH_HITS
      modifies this`result
      ensures |result| <= ENOUGH_HITS
      ensures result == First(old(result) + HitsBelow(ix, kids, level, pattern), ENOUGH_HITS)
      decreases Below(level, DEEPEST + 1), 1, |kids|
    {
      hide Closed, AllScopes, HitsAt, HitsBelow, First;
      ghost var before := result;
      ghost var all := HitsBelow(ix, kids, level, pattern);
      assert kids[0..] == kids;
      for i := 0 to |kids|
        invariant AllScopes(ix, kids[i..]) && |result| <= ENOUGH_HITS
        invariant First(result + HitsBelow(ix, kids[i..], level, pattern), ENOUGH_HITS) == First(before + all, ENOUGH_HITS)
      {
        HitsBelowStep(ix, kids[i..], level, pattern);
        assert kids[i..][0] == kids[i] && kids[i..][1..] == kids[i+1..];
        ghost var was := result;
        ghost var here, rest := HitsAt(ix, kids[i], level, pattern), HitsBelow(ix, kids[i+1..], level, pattern);
        Walk(kids[i], level);
        FirstOfFirst(was + here, rest, ENOUGH_HITS);
        assert was + here + rest == was + (here + rest);
      }
      HitsBelowStep(ix, kids[|kids|..], level, pattern);
      assert result + [] == result;
      Complete(result);
    }
  }

  lemma AddOrSkip(found: seq<string>, add: bool, name: string, rest: seq<string>)
    ensures found + ((if add then [name] else []) + rest) == (if add then found + [name] else found) + rest
  {
  }

  lemma Complete(s: seq<string>)
    requires |s| <= ENOUGH_HITS
    ensures First(s, ENOUGH_HITS) == s
  {
  }

  lemma NoMoreHits(s: seq<string>, more: seq<string>)
    requires |s| <= ENOUGH_HITS && (|s| == ENOUGH_HITS || more == [])
    ensures First(s + more, ENOUGH_HITS) == s
  {
    FirstOfFirst(s, more, ENOUGH_HITS);
    assert s + [] == s;
    Complete(s);
  }

  lemma MatchingStep(sigs: seq<Info>, i: nat, pattern: string)
    requires i <= |sigs|
    ensures Matching(sigs[i..], pattern) ==
      if i == |sigs| then []
      else (if Glob.LoopMatch(pattern, sigs[i].name) then [sigs[i].fullName] else []) + Matching(sigs[i+1..], pattern)
  {
    hide Glob.LoopMatch;
    if i < |sigs| { assert sigs[i..][1..] == sigs[i+1..]; }
  }

  lemma HitsStep(ix: Index, scope: string, level: int, pattern: string)
    requires Closed(ix) && scope in ix.children && scope in ix.signals
    ensures AllScopes(ix, ix.children[scope])
    ensures HitsAt(ix, scope, level, pattern) ==
      if level > DEEPEST then []
      else Matching(ix.signals[scope], pattern) + HitsBelow(ix, ix.children[scope], level + 1, pattern)
  {
    hide Closed;
    ChildrenAreScopes(ix, scope);
  }

  lemma HitsBelowStep(ix: Index, kids: seq<string>, level: int, pattern: string)
    requires Closed(ix) && AllScopes(ix, kids)
    ensures kids != [] ==> kids[0] in ix.children && kids[0] in ix.signals && AllScopes(ix, kids[1..])
    ensures HitsBelow(ix, kids, level, pattern) ==
      if kids == [] then [] else HitsAt(ix, kids[0], level, pattern) + HitsBelow(ix, kids[1..], level, pattern)
  {
    hide Closed;
  }

  /** The search gives exactly the first 200 matches of the preorder walk twenty levels deep. */
  method Find(ix: Index, scope: string, pattern: string) returns (r: Listing<seq<string>>)
    requires Closed(ix)
    ensures scope != "" && scope !in ix.children ==> r == ScopeNotFound
    ensures AllScopes(ix, ix.children[""])
    ensures scope == "" ==> r == Found(First(HitsBelow(ix, ix.children[""], 0, pattern), ENOUGH_HITS))
    ensures scope != "" && scope in ix.children ==> r == Found(First(HitsAt(ix, scope, 0, pattern), ENOUGH_HITS))
  {
    hide AllScopes, HitsAt, HitsBelow, First;
    ChildrenAreScopes(ix, "");
    if scope != "" && scope !in ix.children {
      return ScopeNotFound;
    }
    var search := new SignalSearch(ix, pattern);
    if scope == "" {
      search.WalkAll(ix.children[""], 0);
      assert [] + HitsBelow(ix, ix.children[""], 0, pattern) == HitsBelow(ix, ix.children[""], 0, pattern);
    } else {
      search.Walk(scope, 0);
      assert [] + HitsAt(ix, scope, 0, pattern) == HitsAt(ix, scope, 0, pattern);
    }
    return Found(search.result);
  }

  /** After any callbacks the walks never ask for a scope that is not there. */
  lemma WalksAreSafe(callbacks: seq<Callback>)
    ensures Closed(Run(EMPTY, callbacks))
  {
    hide Run, Declared, Named;
    ClosedForest(callbacks);
  }

  /** At most 200 hits are reported, and a scope contributes exactly down to the twentieth level. */
  lemma SearchLimits(ix: Index, scope: string, level: int, pattern: string)
    requires Closed(ix) && scope in ix.children && scope in ix.signals
    ensures forall all :: |First(all, ENOUGH_HITS)| <= 200 && (|all| <= 200 ==> First(all, ENOUGH_HITS) == all)
    ensures level > 20 ==> HitsAt(ix, scope, level, pattern) == []
    ensures level <= 20 ==> Matching(ix.signals[scope], pattern) <= HitsAt(ix, scope, level, pattern)
  {
    hide Matching, HitsBelow;
  }
}
