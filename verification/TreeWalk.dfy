/** The descent refines the abstract B+-tree it walks, and the family of graphs on which
    its depth cap loses entries. */
module TreeWalk {
  import opened Wrappers
  import opened Bytes
  import opened Descent
  import opened DescentTheorems

  datatype Tree<E> = LeafNode(block: U64, entries: seq<E>) | BranchNode(block: U64, kids: seq<Tree<E>>)

  /** Blocks in the order the search meets them: a node before its subtrees. */
  function Preorder<E>(t: Tree<E>): seq<U64>
    decreases t, 1
  {
    match t
    case LeafNode(b, _) => [b]
    case BranchNode(b, kids) => [b] + PreorderAll(kids)
  }

  function PreorderAll<E>(ts: seq<Tree<E>>): seq<U64>
    decreases ts, 0
  {
    if ts == [] then [] else Preorder(ts[0]) + PreorderAll(ts[1..])
  }

  /** The entries of the leaves, left to right. */
  function Contents<E>(t: Tree<E>): seq<E>
    decreases t, 1
  {
    match t
    case LeafNode(_, entries) => entries
    case BranchNode(_, kids) => ContentsAll(kids)
  }

  function ContentsAll<E>(ts: seq<Tree<E>>): seq<E>
    decreases ts, 0
  {
    if ts == [] then [] else Contents(ts[0]) + ContentsAll(ts[1..])
  }

  /** Levels of the tree; a lone leaf has one. */
  function Levels<E>(t: Tree<E>): nat
    decreases t, 1
  {
    match t
    case LeafNode(_, _) => 1
    case BranchNode(_, kids) => 1 + LevelsAll(kids)
  }

  function LevelsAll<E>(ts: seq<Tree<E>>): nat
    decreases ts, 0
  {
    if ts == [] then 0 else
    var a, b := Levels(ts[0]), LevelsAll(ts[1..]);
    if a >= b then a else b
  }

  function Roots<E>(ts: seq<Tree<E>>): seq<U64> {
    if ts == [] then [] else [ts[0].block] + Roots(ts[1..])
  }

  /** Reading each node's block yields that node. */
  ghost predicate Represents<E>(g: Graph<E>, t: Tree<E>)
    decreases t, 1
  {
    match t
    case LeafNode(b, entries) => g(b) == Leaf(entries)
    case BranchNode(b, kids) => g(b) == Branch(Roots(kids)) && RepresentsAll(g, kids)
  }

  ghost predicate RepresentsAll<E>(g: Graph<E>, ts: seq<Tree<E>>)
    decreases ts, 0
  {
    ts != [] ==> Represents(g, ts[0]) && RepresentsAll(g, ts[1..])
  }

  /** Preorder of the nodes on the first `n` levels. */
  function Top<E>(t: Tree<E>, n: nat): seq<U64>
    decreases t, 1
  {
    if n == 0 then [] else
    match t
    case LeafNode(b, _) => [b]
    case BranchNode(b, kids) => [b] + TopAll(kids, n - 1)
  }

  function TopAll<E>(ts: seq<Tree<E>>, n: nat): seq<U64>
    decreases ts, 0
  {
    if ts == [] then [] else Top(ts[0], n) + TopAll(ts[1..], n)
  }

  function Take<T>(s: seq<T>, n: nat): (r: seq<T>)
    ensures |r| <= n && (|s| <= n ==> r == s)
  {
    if |s| <= n then s else s[..n]
  }

  lemma {:induction false} TopWithin<E>(t: Tree<E>, n: nat)
    ensures forall b :: b in Top(t, n) ==> b in Preorder(t)
    ensures |Top(t, n)| <= |Preorder(t)|
    ensures Levels(t) <= n ==> Top(t, n) == Preorder(t)
    ensures Levels(t) > n ==> |Top(t, n)| < |Preorder(t)|
    decreases t, 1
  {
    if n > 0 && t.BranchNode? { TopAllWithin(t.kids, n - 1); }
  }

  lemma {:induction false} TopAllWithin<E>(ts: seq<Tree<E>>, n: nat)
    ensures forall b :: b in TopAll(ts, n) ==> b in PreorderAll(ts)
    ensures |TopAll(ts, n)| <= |PreorderAll(ts)|
    ensures LevelsAll(ts) <= n ==> TopAll(ts, n) == PreorderAll(ts)
    ensures LevelsAll(ts) > n ==> |TopAll(ts, n)| < |PreorderAll(ts)|
    decreases ts, 0
  {
    if ts != [] {
      TopWithin(ts[0], n);
      TopAllWithin(ts[1..], n);
    }
  }

  ghost predicate Disjoint<T>(a: seq<T>, b: seq<T>) {
    forall x :: x in a ==> x !in b
  }

  lemma NoDuplicatesSplit<T>(a: seq<T>, b: seq<T>)
    requires NoDuplicates(a + b)
    ensures NoDuplicates(a) && NoDuplicates(b) && Disjoint(a, b)
  {
    assert forall i :: 0 <= i < |a| ==> (a + b)[i] == a[i];
    assert forall i :: 0 <= i < |b| ==> (a + b)[|a| + i] == b[i];
  }

  lemma DisjointFromTake<T>(rest: seq<T>, first: seq<T>, seen: seq<T>, top: seq<T>, n: nat)
    requires Disjoint(first, rest) && Disjoint(first + rest, seen)
    requires forall x :: x in top ==> x in first
    ensures Disjoint(rest, Take(seen + top, n))
  {
    forall x | x in rest
      ensures x !in Take(seen + top, n)
    {
      assert x in first + rest;
    }
  }

  /** On any tree of distinct blocks, of any height and size, the search never fails and
      visits the first 4096 nodes, in preorder, of the levels its depth leaves. */
  lemma {:induction false} DescendTree<E>(g: Graph<E>, t: Tree<E>, depth: nat, w: Walk<E>)
    requires Represents(g, t) && w.error.None? && |w.visited| <= MAX_VISITED_PAGES
    requires NoDuplicates(Preorder(t)) && Disjoint(Preorder(t), w.visited)
    ensures var v := Descend(g, t.block, depth, w);
      v.error.None? && v.visited == Take(w.visited + Top(t, DepthLeft(depth)), MAX_VISITED_PAGES)
    decreases t, 1
  {
    hide NoDuplicates, Take, Disjoint, DescendAll;
    RootIsNew(t, w.visited);
    if depth >= MAX_DESCENT_DEPTH {
      assert w.visited + [] == w.visited;
    } else if |w.visited| >= MAX_VISITED_PAGES {
      TakeAtCap(w.visited, Top(t, DepthLeft(depth)), MAX_VISITED_PAGES);
    } else if t.BranchNode? {
      var pushed := Push(g, w, t.block);
      KidsAreNew(t, w.visited);
      DescendForest(g, t.kids, depth + 1, pushed);
      assert pushed.visited + TopAll(t.kids, DepthLeft(depth + 1)) == w.visited + Top(t, DepthLeft(depth));
    }
  }

  lemma RootIsNew<E>(t: Tree<E>, seen: seq<U64>)
    requires Disjoint(Preorder(t), seen)
    ensures t.block !in seen
  {
    assert Preorder(t)[0] == t.block;
  }

  lemma KidsAreNew<E>(t: Tree<E>, seen: seq<U64>)
    requires t.BranchNode? && NoDuplicates(Preorder(t)) && Disjoint(Preorder(t), seen)
    ensures NoDuplicates(PreorderAll(t.kids)) && Disjoint(PreorderAll(t.kids), seen + [t.block])
  {
    NoDuplicatesSplit([t.block], PreorderAll(t.kids));
    DisjointParts([t.block], PreorderAll(t.kids), seen);
    assert t.block in [t.block];
  }

  lemma TakeAtCap<T>(s: seq<T>, more: seq<T>, n: nat)
    requires |s| == n
    ensures Take(s + more, n) == s
  {
  }

  lemma {:induction false} DescendForest<E>(g: Graph<E>, ts: seq<Tree<E>>, depth: nat, w: Walk<E>)
    requires RepresentsAll(g, ts) && w.error.None? && |w.visited| <= MAX_VISITED_PAGES
    requires NoDuplicates(PreorderAll(ts)) && Disjoint(PreorderAll(ts), w.visited)
    ensures var v := DescendAll(g, Roots(ts), depth, w);
      v.error.None? && v.visited == Take(w.visited + TopAll(ts, DepthLeft(depth)), MAX_VISITED_PAGES)
    decreases ts, 0
  {
    hide NoDuplicates, Represents, Top, Preorder, Take, Disjoint, Descend;
    if ts == [] {
      assert w.visited + [] == w.visited;
    } else {
      var top, rest := Top(ts[0], DepthLeft(depth)), TopAll(ts[1..], DepthLeft(depth));
      var u := Descend(g, ts[0].block, depth, w);
      NoDuplicatesSplit(Preorder(ts[0]), PreorderAll(ts[1..]));
      DisjointParts(Preorder(ts[0]), PreorderAll(ts[1..]), w.visited);
      DescendTree(g, ts[0], depth, w);
      TopWithin(ts[0], DepthLeft(depth));
      DisjointFromTake(PreorderAll(ts[1..]), Preorder(ts[0]), w.visited, top, MAX_VISITED_PAGES);
      DescendForest(g, ts[1..], depth, u);
      assert Roots(ts)[1..] == Roots(ts[1..]);
      TakeTwice(w.visited, top, rest, MAX_VISITED_PAGES);
    }
  }

  lemma DisjointParts<T>(a: seq<T>, b: seq<T>, seen: seq<T>)
    requires Disjoint(a + b, seen)
    ensures Disjoint(a, seen) && Disjoint(b, seen)
  {
    assert forall x :: x in a ==> x in a + b;
    assert forall x :: x in b ==> x in a + b;
  }

  lemma TakeTwice<T>(seen: seq<T>, top: seq<T>, rest: seq<T>, n: nat)
    ensures Take(Take(seen + top, n) + rest, n) == Take(seen + (top + rest), n)
  {
    assert seen + (top + rest) == (seen + top) + rest;
  }

  lemma {:induction false} HarvestConcat<E>(g: Graph<E>, a: seq<U64>, b: seq<U64>)
    ensures Harvest(g, a + b) == Harvest(g, a) + Harvest(g, b)
  {
    hide Harvest, EntriesOf;
    if b == [] {
      HarvestNone(g);
      assert a + b == a;
    } else {
      var n := |b| - 1;
      HarvestConcat(g, a, b[..n]);
      HarvestPush(g, a + b[..n], b[n]);
      HarvestPush(g, b[..n], b[n]);
      assert a + b == (a + b[..n]) + [b[n]] && b == b[..n] + [b[n]];
    }
  }

  lemma HarvestNone<E>(g: Graph<E>)
    ensures Harvest(g, []) == []
  {
  }

  lemma {:induction false} HarvestOfTree<E>(g: Graph<E>, t: Tree<E>)
    requires Represents(g, t)
    ensures Harvest(g, Preorder(t)) == Contents(t)
    decreases t, 1
  {
    HarvestPush(g, [], t.block);
    assert [] + [t.block] == [t.block];
    if t.BranchNode? {
      HarvestConcat(g, [t.block], PreorderAll(t.kids));
      HarvestOfForest(g, t.kids);
    }
  }

  lemma {:induction false} HarvestOfForest<E>(g: Graph<E>, ts: seq<Tree<E>>)
    requires RepresentsAll(g, ts)
    ensures Harvest(g, PreorderAll(ts)) == ContentsAll(ts)
    decreases ts, 0
  {
    if ts != [] {
      HarvestConcat(g, Preorder(ts[0]), PreorderAll(ts[1..]));
      HarvestOfTree(g, ts[0]);
      HarvestOfForest(g, ts[1..]);
    }
  }

  /** Tree refinement, exactly: the walk of a B+-tree of distinct blocks never fails, visits
      the first 4096 preorder nodes of the first 64 levels, and lists their leaves' entries.
      It visits the whole tree if and only if the tree has at most 64 levels and 4096 nodes,
      and then lists exactly the leaves' entries from left to right. */
  lemma WalkListsTree<E>(g: Graph<E>, t: Tree<E>)
    requires Represents(g, t) && NoDuplicates(Preorder(t))
    ensures var w := Walked(g, t.block);
      && w.error.None?
      && w.visited == Take(Top(t, 64), 4096)
      && w.out == Harvest(g, w.visited)
      && (w.visited == Preorder(t) <==> Levels(t) <= 64 && |Preorder(t)| <= 4096)
      && (w.visited == Preorder(t) ==> w.out == Contents(t))
  {
    hide Represents, NoDuplicates;
    assert [] + Top(t, MAX_DESCENT_DEPTH) == Top(t, MAX_DESCENT_DEPTH);
    DescendTree(g, t, 0, Start());
    WalkedSound(g, t.block);
    TopWithin(t, MAX_DESCENT_DEPTH);
    HarvestOfTree(g, t);
  }

  // ---- What the caps cost a tree ---------------------------------------------------------

  /** Every leaf has an entry, and every branch a child. */
  predicate Fruitful<E>(t: Tree<E>)
    decreases t, 1
  {
    match t
    case LeafNode(_, entries) => entries != []
    case BranchNode(_, kids) => kids != [] && FruitfulAll(kids)
  }

  predicate FruitfulAll<E>(ts: seq<Tree<E>>)
    decreases ts, 0
  {
    ts != [] ==> Fruitful(ts[0]) && FruitfulAll(ts[1..])
  }

  /** The last node in preorder is a leaf. */
  lemma {:induction false} LastIsLeaf<E>(g: Graph<E>, t: Tree<E>)
    requires Represents(g, t) && Fruitful(t)
    ensures Preorder(t) != [] && EntriesOf(g(Preorder(t)[|Preorder(t)| - 1])) != []
    decreases t, 1
  {
    if t.BranchNode? { LastOfAllIsLeaf(g, t.kids); }
  }

  lemma {:induction false} LastOfAllIsLeaf<E>(g: Graph<E>, ts: seq<Tree<E>>)
    requires ts != [] && RepresentsAll(g, ts) && FruitfulAll(ts)
    ensures PreorderAll(ts) != [] && EntriesOf(g(PreorderAll(ts)[|PreorderAll(ts)| - 1])) != []
    decreases ts, 0
  {
    LastIsLeaf(g, ts[0]);
    if |ts| > 1 {
      LastOfAllIsLeaf(g, ts[1..]);
    } else {
      assert PreorderAll(ts) == Preorder(ts[0]);
    }
  }

  /** A tree higher than `n` levels has a leaf below them. */
  lemma {:induction false} LeafBelow<E>(g: Graph<E>, t: Tree<E>, n: nat) returns (b: U64)
    requires Represents(g, t) && Fruitful(t) && NoDuplicates(Preorder(t)) && Levels(t) > n
    ensures b in Preorder(t) && b !in Top(t, n) && EntriesOf(g(b)) != []
    decreases t, 1
  {
    hide NoDuplicates, EntriesOf;
    if n == 0 {
      LastIsLeaf(g, t);
      b := Preorder(t)[|Preorder(t)| - 1];
    } else {
      NoDuplicatesSplit([t.block], PreorderAll(t.kids));
      b := LeafBelowAll(g, t.kids, n - 1);
      assert t.block in [t.block];
    }
  }

  lemma {:induction false} LeafBelowAll<E>(g: Graph<E>, ts: seq<Tree<E>>, n: nat) returns (b: U64)
    requires RepresentsAll(g, ts) && FruitfulAll(ts) && NoDuplicates(PreorderAll(ts)) && LevelsAll(ts) > n
    ensures b in PreorderAll(ts) && b !in TopAll(ts, n) && EntriesOf(g(b)) != []
    decreases ts, 0
  {
    hide NoDuplicates, EntriesOf, Levels, Represents, Fruitful, Preorder, Top;
    NoDuplicatesSplit(Preorder(ts[0]), PreorderAll(ts[1..]));
    TopWithin(ts[0], n);
    TopAllWithin(ts[1..], n);
    if Levels(ts[0]) > n {
      b := LeafBelow(g, ts[0], n);
    } else {
      b := LeafBelowAll(g, ts[1..], n);
    }
  }

  /** Fewer blocks, without one that holds entries, harvest less. */
  lemma {:induction false} HarvestOfFewer<E>(g: Graph<E>, a: seq<U64>, b: seq<U64>, x: U64)
    requires NoDuplicates(a) && forall y :: y in a ==> y in b
    requires x in b && x !in a && EntriesOf(g(x)) != []
    ensures |Harvest(g, a)| < |Harvest(g, b)|
    decreases |a|
  {
    hide Harvest, EntriesOf;
    if a == [] {
      HarvestNone(g);
      var i :| 0 <= i < |b| && b[i] == x;
      HarvestWithout(g, b, i);
    } else {
      var n := |a| - 1;
      assert a[n] in b;
      var i :| 0 <= i < |b| && b[i] == a[n];
      HarvestWithout(g, a, n);
      HarvestWithout(g, b, i);
      assert a[..n] + a[n + 1..] == a[..n];
      assert b == b[..i] + [b[i]] + b[i + 1..];
      forall y | y in a[..n]
        ensures y in b[..i] + b[i + 1..]
      {
        assert y in a && y in b && y != a[n];
      }
      HarvestOfFewer(g, a[..n], b[..i] + b[i + 1..], x);
    }
  }

  lemma HarvestWithout<E>(g: Graph<E>, blocks: seq<U64>, i: nat)
    requires i < |blocks|
    ensures |Harvest(g, blocks)| == |Harvest(g, blocks[..i] + blocks[i + 1..])| + |EntriesOf(g(blocks[i]))|
  {
    hide Harvest, EntriesOf;
    HarvestPush(g, blocks[..i], blocks[i]);
    HarvestConcat(g, blocks[..i] + [blocks[i]], blocks[i + 1..]);
    HarvestConcat(g, blocks[..i], blocks[i + 1..]);
    assert blocks == blocks[..i] + [blocks[i]] + blocks[i + 1..];
  }

  /** What the caps cost. A tree in which every leaf has an entry and every branch a child is listed
      in full if and only if it has at most 64 levels and 4096 nodes; a larger one is listed, without
      an error, with entries missing. */
  lemma ListedInFullIff<E>(g: Graph<E>, t: Tree<E>)
    requires Represents(g, t) && NoDuplicates(Preorder(t)) && Fruitful(t)
    ensures var w := Walked(g, t.block);
      && w.error.None?
      && (w.out == Contents(t) <==> Levels(t) <= MAX_DESCENT_DEPTH && |Preorder(t)| <= MAX_VISITED_PAGES)
      && (w.out != Contents(t) ==> |w.out| < |Contents(t)|)
  {
    hide Represents, NoDuplicates, Walked, Levels, Contents, Preorder, Top, Fruitful, EntriesOf, Harvest;
    WalkListsTree(g, t);
    var w, top := Walked(g, t.block), Top(t, MAX_DESCENT_DEPTH);
    TopWithin(t, MAX_DESCENT_DEPTH);
    if Levels(t) > MAX_DESCENT_DEPTH || |Preorder(t)| > MAX_VISITED_PAGES {
      var b := MissedLeaf(g, t);
      WalkedDistinct(g, t.block);
      HarvestOfFewer(g, w.visited, Preorder(t), b);
      HarvestOfTree(g, t);
    }
  }

  lemma WalkedDistinct<E>(g: Graph<E>, root: U64)
    ensures NoDuplicates(Walked(g, root).visited)
  {
    WalkedSound(g, root);
  }

  lemma MissedLeaf<E>(g: Graph<E>, t: Tree<E>) returns (b: U64)
    requires Represents(g, t) && NoDuplicates(Preorder(t)) && Fruitful(t)
    requires Levels(t) > MAX_DESCENT_DEPTH || |Preorder(t)| > MAX_VISITED_PAGES
    ensures b in Preorder(t) && b !in Take(Top(t, MAX_DESCENT_DEPTH), MAX_VISITED_PAGES) && EntriesOf(g(b)) != []
  {
    hide Represents, Levels, Preorder, Top, Fruitful, EntriesOf;
    TopWithin(t, MAX_DESCENT_DEPTH);
    if Levels(t) > MAX_DESCENT_DEPTH {
      b := LeafBelow(g, t, MAX_DESCENT_DEPTH);
    } else {
      LastIsLeaf(g, t);
      b := Preorder(t)[|Preorder(t)| - 1];
    }
  }

  // ---- Where the caps bite ------------------------------------------------------------

  /** 65 distinct blocks. The first leads to the second and, by a short cut, to the 64th; the second
      to the 64th form a chain; the 64th leads to the last, a leaf. */
  ghost predicate IsShortCut<E>(g: Graph<E>, chain: seq<U64>, entries: seq<E>) {
    && |chain| == 65 && NoDuplicates(chain)
    && g(chain[0]) == Branch([chain[1], chain[63]])
    && (forall k :: 1 <= k <= 63 ==> g(chain[k]) == Branch([chain[k + 1]]))
    && g(chain[64]) == Leaf(entries)
  }

  lemma {:induction false} ChainReachesCap<E>(g: Graph<E>, chain: seq<U64>, entries: seq<E>, i: nat, w: Walk<E>)
    requires IsShortCut(g, chain, entries)
    requires 1 <= i <= 63 && w.error.None? && w.visited == chain[..i]
    ensures Descend(g, chain[i], i, w) ==
      w.(visited := chain[..64], cuts := w.cuts + [Cut(chain[64], 64, 64)], calls := w.calls + 65 - i)
    decreases 63 - i
  {
    assert g(chain[i]) == Branch([chain[i + 1]]);
    var pushed := Push(g, w, chain[i]);
    assert pushed.visited == chain[..i + 1];
    if i < 63 {
      ChainReachesCap(g, chain, entries, i + 1, pushed);
    }
    OneChild(g, chain[i + 1], i + 1, pushed);
  }

  lemma OneChild<E>(g: Graph<E>, child: U64, depth: nat, w: Walk<E>)
    requires w.error.None?
    ensures DescendAll(g, [child], depth, w) == Descend(g, child, depth, w)
  {
    var u := Descend(g, child, depth, w);
    assert DescendAll(g, [child][1..], depth, u) == u;
  }

  /** A block is visited only once, at the depth where it is first met, so the search can meet a branch
      at depth 63 first and lose its children although a path of two edges leads to them. Such a walk
      returns Ok with a leaf's entries missing. */
  lemma ShortPathsCanBeLost<E>(g: Graph<E>, chain: seq<U64>, entries: seq<E>)
    requires IsShortCut(g, chain, entries)
    ensures var w := Walked(g, chain[0]);
      && w.error.None? && w.out == [] && chain[64] !in w.visited
      && IsPath(g, [chain[0], chain[63], chain[64]])
  {
    var pushed := Push(g, Start(), chain[0]);
    assert pushed.visited == chain[..1];
    ChainReachesCap(g, chain, entries, 1, pushed);
    var u := Descend(g, chain[1], 1, pushed);
    assert [chain[1], chain[63]][1..] == [chain[63]];
    OneChild(g, chain[63], 1, u);
    assert chain[..64][63] == chain[63];
  }
}
