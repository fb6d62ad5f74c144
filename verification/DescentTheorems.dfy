/** What the descent computes, on every graph. */
module DescentTheorems {
  import opened Wrappers
  import opened Bytes
  import opened Descent

  function Walked<E>(g: Graph<E>, root: U64): Walk<E> {
    Descend(g, root, 0, Start())
  }

  lemma WalkedSound<E>(g: Graph<E>, root: U64)
    ensures Sound(g, Walked(g, root)) && Within(g, root, Walked(g, root))
    ensures Walked(g, root).error.None? ==> Seen(Walked(g, root), root) && ClosedFrom(g, Walked(g, root), 0)
  {
    ReachableSelf(g, root);
    DescendSound(g, root, 0, Start());
    DescendStaysWithin(g, root, root, 0, Start());
    DescendCloses(g, root, 0, Start());
  }

  /** Completeness, on any graph, cyclic and shared ones included: an Ok walk visits every
      reachable block exactly when each block a cap turned away was visited by another way. */
  lemma CompleteIffCutsRevisited<E>(g: Graph<E>, root: U64)
    ensures var w := Walked(g, root);
      w.error.None? ==>
        ((forall b :: Reachable(g, root, b) ==> b in w.visited)
         <==> forall i :: 0 <= i < |w.cuts| ==> w.cuts[i].block in w.visited)
  {
    hide Descend, Reachable;
    WalkedSound(g, root);
    var w := Walked(g, root);
    if w.error.None? && forall i :: 0 <= i < |w.cuts| ==> w.cuts[i].block in w.visited {
      forall b | Reachable(g, root, b)
        ensures b in w.visited
      {
        ReachableIsVisited(g, root, w, b);
      }
    }
  }

  lemma ReachableIsVisited<E>(g: Graph<E>, root: U64, w: Walk<E>, b: U64)
    requires Seen(w, root) && ClosedFrom(g, w, 0) && Reachable(g, root, b)
    requires forall i :: 0 <= i < |w.cuts| ==> w.cuts[i].block in w.visited
    ensures b in w.visited
  {
    var path :| IsPath(g, path) && path[0] == root && path[|path| - 1] == b;
    forall c, k | c in w.visited && g(c).Branch? && 0 <= k < |g(c).children|
      ensures g(c).children[k] in w.visited
    {
      var i :| 0 <= i < |w.visited| && w.visited[i] == c;
      assert Seen(w, g(w.visited[i]).children[k]);
    }
    ClosedHoldsPath(g, w.visited, path, |path| - 1);
  }

  /** An Ok walk that turned no unvisited block away visits exactly the reachable blocks,
      each once, and lists exactly their leaves' entries, in first-visit order. */
  lemma UncutWalkIsComplete<E>(g: Graph<E>, root: U64)
    ensures var w := Walked(g, root);
      w.error.None? && w.cuts == [] ==>
        && (forall b :: b in w.visited <==> Reachable(g, root, b))
        && NoDuplicates(w.visited)
        && w.out == Harvest(g, w.visited)
  {
    hide Descend, Reachable;
    CompleteIffCutsRevisited(g, root);
    WalkedSound(g, root);
  }

  /** Fail-loud accuracy: an error is the read error of a reachable block, and a walk that
      turned nothing away fails exactly when some reachable block cannot be read. */
  lemma FailsExactlyOnUnreadable<E>(g: Graph<E>, root: U64)
    ensures var w := Walked(g, root);
      && (w.error.Some? ==>
            exists b :: b in w.visited && Reachable(g, root, b) && g(b) == Unreadable(w.error.value))
      && (w.cuts == [] ==> (w.error.Some? <==> exists b :: Reachable(g, root, b) && g(b).Unreadable?))
  {
    hide Descend, Reachable;
    WalkedSound(g, root);
    UncutWalkIsComplete(g, root);
    var w := Walked(g, root);
    if w.error.Some? {
      var last := |w.visited| - 1;
      assert g(w.visited[last]) == Unreadable(w.error.value);
    }
  }

  // ---- When the caps matter ------------------------------------------------------------

  /** Each block turned away was unvisited when a cap was reached, all pages visited before
      it had been read, and its depth was no more than their number. */
  ghost predicate CutsExplained<E>(g: Graph<E>, w: Walk<E>) {
    forall i :: 0 <= i < |w.cuts| ==>
      var c := w.cuts[i];
      && c.depth <= c.pages <= |w.visited|
      && (c.depth >= MAX_DESCENT_DEPTH || c.pages >= MAX_VISITED_PAGES)
      && c.block !in w.visited[..c.pages]
      && forall j :: 0 <= j < c.pages ==> !g(w.visited[j]).Unreadable?
  }

  lemma {:induction false} DescendExplainsCuts<E>(g: Graph<E>, block: U64, depth: nat, w: Walk<E>)
    requires Sound(g, w) && w.error.None? && CutsExplained(g, w) && depth <= |w.visited|
    ensures CutsExplained(g, Descend(g, block, depth, w))
    decreases DepthLeft(depth), 0, 0
  {
    hide NoDuplicates, Harvest;
    if depth >= MAX_DESCENT_DEPTH || |w.visited| >= MAX_VISITED_PAGES {
      assert w.visited[..|w.visited|] == w.visited;
    } else if block !in w.visited {
      var pushed := Push(g, w, block);
      PushSound(g, w, block);
      assert CutsExplained(g, pushed) by {
        forall i | 0 <= i < |w.cuts|
          ensures w.cuts[i].pages <= |w.visited| && pushed.visited[..w.cuts[i].pages] == w.visited[..w.cuts[i].pages]
        {
        }
      }
      if g(block).Branch? {
        DescendAllExplainsCuts(g, g(block).children, depth + 1, pushed);
      }
    }
  }

  lemma {:induction false} DescendAllExplainsCuts<E>(g: Graph<E>, children: seq<U64>, depth: nat, w: Walk<E>)
    requires Sound(g, w) && CutsExplained(g, w) && depth <= |w.visited|
    ensures CutsExplained(g, DescendAll(g, children, depth, w))
    decreases DepthLeft(depth), 1, |children|
  {
    hide Sound, CutsExplained;
    if children != [] && w.error.None? {
      DescendSound(g, children[0], depth, w);
      DescendExplainsCuts(g, children[0], depth, w);
      DescendAllExplainsCuts(g, children[1..], depth, Descend(g, children[0], depth, w));
    }
  }

  /** Distinct elements of a finite set are no more than the set has. */
  lemma {:induction false} DistinctWithin<T>(s: seq<T>, t: set<T>)
    requires NoDuplicates(s) && forall i :: 0 <= i < |s| ==> s[i] in t
    ensures |s| <= |t|
  {
    if s != [] {
      var n := |s| - 1;
      DistinctWithin(s[..n], t - {s[n]});
    }
  }

  /** The recursion never holds more blocks than were visited, so a walk over at most 64
      reachable blocks turns nothing away: its listing, or its error, is exact. */
  lemma SmallGraphIsNeverCut<E>(g: Graph<E>, root: U64, blocks: set<U64>)
    requires |blocks| <= MAX_DESCENT_DEPTH
    requires forall b :: Reachable(g, root, b) ==> b in blocks
    ensures Walked(g, root).cuts == []
  {
    hide Reachable;
    WalkedSound(g, root);
    DescendExplainsCuts(g, root, 0, Start());
    var w := Walked(g, root);
    if w.cuts != [] {
      var c := w.cuts[0];
      var distinct := w.visited[..c.pages] + [c.block];
      assert Reachable(g, root, w.cuts[0].block);
      DistinctWithin(distinct, blocks);
      assert false;
    }
  }

  /** Pigeonhole: when only the blocks of a finite set can be read, no more than that many
      are visited (one more on an error); with fewer than 4096 of them the page cap never
      trips, and with fewer than 64 no cap does. */
  lemma ReadableBlocksBoundTheWalk<E>(g: Graph<E>, root: U64, readable: set<U64>)
    requires forall b :: !g(b).Unreadable? ==> b in readable
    ensures var w := Walked(g, root);
      && |w.visited| <= |readable| + (if w.error.Some? then 1 else 0)
      && (|readable| < MAX_VISITED_PAGES ==>
            forall i :: 0 <= i < |w.cuts| ==> w.cuts[i].pages < MAX_VISITED_PAGES)
      && (|readable| < MAX_DESCENT_DEPTH ==> w.cuts == [])
  {
    hide Descend, Within, Seen, ClosedFrom;
    WalkedSound(g, root);
    DescendExplainsCuts(g, root, 0, Start());
    var w := Walked(g, root);
    var n := if w.error.Some? then |w.visited| - 1 else |w.visited|;
    DistinctWithin(w.visited[..n], readable);
    forall i | 0 <= i < |w.cuts|
      ensures w.cuts[i].pages <= |readable|
    {
      DistinctWithin(w.visited[..w.cuts[i].pages], readable);
    }
    if w.cuts != [] { assert w.cuts[0].depth <= w.cuts[0].pages <= |readable|; }
  }

  // ---- Work bound ------------------------------------------------------------------------

  lemma {:induction false} DescendCalls<E>(g: Graph<E>, block: U64, depth: nat, w: Walk<E>, fanOut: nat)
    requires forall b :: g(b).Branch? ==> |g(b).children| <= fanOut
    ensures var v := Descend(g, block, depth, w);
      && |w.visited| <= |v.visited|
      && v.calls <= w.calls + 1 + fanOut * (|v.visited| - |w.visited|)
    decreases DepthLeft(depth), 0, 0
  {
    if depth < MAX_DESCENT_DEPTH && |w.visited| < MAX_VISITED_PAGES && block !in w.visited && g(block).Branch? {
      var children := g(block).children;
      DescendAllCalls(g, children, depth + 1, Push(g, w, block), fanOut);
      var v := Descend(g, block, depth, w);
      OneMore(fanOut, |v.visited| - |w.visited| - 1);
    }
  }

  lemma OneMore(a: nat, n: nat)
    ensures a * (n + 1) == a * n + a
  {
  }

  lemma Split(a: nat, m: nat, n: nat)
    ensures a * (m + n) == a * m + a * n
  {
  }

  lemma {:induction false} DescendAllCalls<E>(g: Graph<E>, children: seq<U64>, depth: nat, w: Walk<E>, fanOut: nat)
    requires forall b :: g(b).Branch? ==> |g(b).children| <= fanOut
    ensures var v := DescendAll(g, children, depth, w);
      && |w.visited| <= |v.visited|
      && v.calls <= w.calls + |children| + fanOut * (|v.visited| - |w.visited|)
    decreases DepthLeft(depth), 1, |children|
  {
    if children != [] && w.error.None? {
      var u := Descend(g, children[0], depth, w);
      DescendCalls(g, children[0], depth, w, fanOut);
      DescendAllCalls(g, children[1..], depth, u, fanOut);
      var v := DescendAll(g, children, depth, w);
      Split(fanOut, |u.visited| - |w.visited|, |v.visited| - |u.visited|);
    }
  }

  /** The number of calls is bounded by the pages visited and the largest fan-out. */
  lemma WorkBound<E>(g: Graph<E>, root: U64, fanOut: nat)
    requires forall b :: g(b).Branch? ==> |g(b).children| <= fanOut
    ensures Walked(g, root).calls <= 1 + fanOut * |Walked(g, root).visited|
  {
    DescendCalls(g, root, 0, Start(), fanOut);
  }

  // ---- The descent without its caps ------------------------------------------------------

  ghost function Left(readable: set<U64>, visited: seq<U64>): nat {
    |readable - (set b | b in visited)|
  }

  lemma LeftShrinks(readable: set<U64>, a: seq<U64>, b: seq<U64>)
    requires a <= b
    ensures Left(readable, b) <= Left(readable, a)
  {
    var ra, rb := readable - (set x | x in a), readable - (set x | x in b);
    assert rb <= ra;
    SubsetSize(rb, ra);
  }

  lemma {:induction false} SubsetSize<T>(a: set<T>, b: set<T>)
    requires a <= b
    ensures |a| <= |b|
  {
    assert b == a + (b - a);
  }

  lemma LeftDrops(readable: set<U64>, a: seq<U64>, block: U64)
    requires block in readable && block !in a
    ensures Left(readable, a + [block]) < Left(readable, a)
  {
    var ra := readable - (set x | x in a);
    assert readable - (set x | x in a + [block]) == ra - {block};
  }

  /** The same search with neither cap. It terminates on its visited list alone, because
      every block that leads further takes one from a finite set of readable blocks. */
  ghost function Uncapped<E>(g: Graph<E>, readable: set<U64>, block: U64, w: Walk<E>): (v: Walk<E>)
    requires forall b :: !g(b).Unreadable? ==> b in readable
    ensures w.visited <= v.visited
    decreases Left(readable, w.visited), 0, 0
  {
    if block in w.visited then w.(calls := w.calls + 1)
    else if g(block).Branch? then
      LeftDrops(readable, w.visited, block);
      UncappedAll(g, readable, g(block).children, Push(g, w, block))
    else Push(g, w, block)
  }

  ghost function UncappedAll<E>(g: Graph<E>, readable: set<U64>, children: seq<U64>, w: Walk<E>): (v: Walk<E>)
    requires forall b :: !g(b).Unreadable? ==> b in readable
    ensures w.visited <= v.visited
    decreases Left(readable, w.visited), 1, |children|
  {
    if children == [] || w.error.Some? then w else
    var u := Uncapped(g, readable, children[0], w);
    LeftShrinks(readable, w.visited, u.visited);
    UncappedAll(g, readable, children[1..], u)
  }

  /** The capped walk is the uncapped one whenever it turned nothing new away. */
  lemma {:induction false} UncutIsUncapped<E>(g: Graph<E>, readable: set<U64>, block: U64, depth: nat, w: Walk<E>)
    requires forall b :: !g(b).Unreadable? ==> b in readable
    requires Sound(g, w) && w.error.None?
    ensures Descend(g, block, depth, w).cuts == w.cuts ==>
      Descend(g, block, depth, w) == Uncapped(g, readable, block, w)
    decreases DepthLeft(depth), 0, 0
  {
    hide Sound;
    if depth < MAX_DESCENT_DEPTH && |w.visited| < MAX_VISITED_PAGES && block !in w.visited {
      PushSound(g, w, block);
      if g(block).Branch? {
        UncutAllIsUncapped(g, readable, g(block).children, depth + 1, Push(g, w, block));
      }
    }
  }

  lemma {:induction false} UncutAllIsUncapped<E>(g: Graph<E>, readable: set<U64>, children: seq<U64>, depth: nat,
                                                 w: Walk<E>)
    requires forall b :: !g(b).Unreadable? ==> b in readable
    requires Sound(g, w)
    ensures DescendAll(g, children, depth, w).cuts == w.cuts ==>
      DescendAll(g, children, depth, w) == UncappedAll(g, readable, children, w)
    decreases DepthLeft(depth), 1, |children|
  {
    hide Sound;
    if children != [] && w.error.None? {
      var u := Descend(g, children[0], depth, w);
      DescendSound(g, children[0], depth, w);
      DescendAllSound(g, children[1..], depth, u);
      UncutIsUncapped(g, readable, children[0], depth, w);
      UncutAllIsUncapped(g, readable, children[1..], depth, u);
    }
  }

  // ---- When the caps are never felt ---------------------------------------------------------

  function Max(a: nat, b: nat): nat {
    if a >= b then a else b
  }

  /** The greatest depth at which the search without caps pushes a block, 0 if it pushes none. */
  ghost function Deepest<E>(g: Graph<E>, readable: set<U64>, block: U64, depth: nat, w: Walk<E>): nat
    requires forall b :: !g(b).Unreadable? ==> b in readable
    decreases Left(readable, w.visited), 0, 0
  {
    if block in w.visited then 0
    else if g(block).Branch? then
      LeftDrops(readable, w.visited, block);
      Max(depth, DeepestAll(g, readable, g(block).children, depth + 1, Push(g, w, block)))
    else depth
  }

  ghost function DeepestAll<E>(g: Graph<E>, readable: set<U64>, children: seq<U64>, depth: nat, w: Walk<E>): nat
    requires forall b :: !g(b).Unreadable? ==> b in readable
    decreases Left(readable, w.visited), 1, |children|
  {
    if children == [] || w.error.Some? then 0 else
    var u := Uncapped(g, readable, children[0], w);
    LeftShrinks(readable, w.visited, u.visited);
    Max(Deepest(g, readable, children[0], depth, w), DeepestAll(g, readable, children[1..], depth, u))
  }

  /** A call turns something new away exactly when the search without caps would go to depth 64
      or past 4096 pages. */
  lemma {:induction false} CutExactly<E>(g: Graph<E>, readable: set<U64>, block: U64, depth: nat, w: Walk<E>)
    requires forall b :: !g(b).Unreadable? ==> b in readable
    requires Sound(g, w) && w.error.None?
    ensures Descend(g, block, depth, w).cuts == w.cuts <==>
      && Deepest(g, readable, block, depth, w) < MAX_DESCENT_DEPTH
      && |Uncapped(g, readable, block, w).visited| <= MAX_VISITED_PAGES
    decreases DepthLeft(depth), 0, 0
  {
    hide Sound;
    SoundBounded(g, w);
    if depth < MAX_DESCENT_DEPTH && |w.visited| < MAX_VISITED_PAGES && block !in w.visited {
      PushSound(g, w, block);
      if g(block).Branch? {
        CutAllExactly(g, readable, g(block).children, depth + 1, Push(g, w, block));
      }
    }
  }

  lemma SoundBounded<E>(g: Graph<E>, w: Walk<E>)
    requires Sound(g, w)
    ensures |w.visited| <= MAX_VISITED_PAGES
  {
  }

  lemma {:induction false} CutAllExactly<E>(g: Graph<E>, readable: set<U64>, children: seq<U64>, depth: nat, w: Walk<E>)
    requires forall b :: !g(b).Unreadable? ==> b in readable
    requires Sound(g, w)
    ensures DescendAll(g, children, depth, w).cuts == w.cuts <==>
      && DeepestAll(g, readable, children, depth, w) < MAX_DESCENT_DEPTH
      && |UncappedAll(g, readable, children, w).visited| <= MAX_VISITED_PAGES
    decreases DepthLeft(depth), 1, |children|
  {
    hide Sound;
    SoundBounded(g, w);
    if children != [] && w.error.None? {
      var u := Descend(g, children[0], depth, w);
      DescendSound(g, children[0], depth, w);
      DescendAllSound(g, children[1..], depth, u);
      CutExactly(g, readable, children[0], depth, w);
      if u.cuts == w.cuts {
        UncutIsUncapped(g, readable, children[0], depth, w);
        CutAllExactly(g, readable, children[1..], depth, u);
      }
    }
  }

  /** The search without caps stays below depth 64 and within 4096 pages. */
  ghost predicate WithinCaps<E>(g: Graph<E>, readable: set<U64>, root: U64)
    requires forall b :: !g(b).Unreadable? ==> b in readable
  {
    Deepest(g, readable, root, 0, Start()) < 64 && |Uncapped(g, readable, root, Start()).visited| <= 4096
  }

  /** The exact condition under which the caps are never felt: a walk turns no unvisited block
      away if and only if the search without caps stays within them. Then it is that search: an
      Ok walk visits exactly the reachable blocks, once each, and lists exactly their leaves, and
      the walk fails if and only if some reachable block cannot be read. */
  lemma WalkWithinCaps<E>(g: Graph<E>, readable: set<U64>, root: U64)
    requires forall b :: !g(b).Unreadable? ==> b in readable
    ensures Walked(g, root).cuts == [] <==> WithinCaps(g, readable, root)
    ensures var w := Walked(g, root);
      WithinCaps(g, readable, root) ==>
        && w == Uncapped(g, readable, root, Start())
        && (w.error.None? ==>
              && (forall b :: b in w.visited <==> Reachable(g, root, b))
              && NoDuplicates(w.visited) && w.out == Harvest(g, w.visited))
        && (w.error.Some? <==> exists b :: Reachable(g, root, b) && g(b).Unreadable?)
  {
    hide Descend, Uncapped, Deepest, Reachable;
    CutExactly(g, readable, root, 0, Start());
    UncutIsUncapped(g, readable, root, 0, Start());
    UncutWalkIsComplete(g, root);
    FailsExactlyOnUnreadable(g, root);
  }

  // ---- When only the page cap is felt ----------------------------------------------------------

  lemma {:induction false} FullStays<E>(g: Graph<E>, children: seq<U64>, depth: nat, w: Walk<E>)
    requires w.error.None? && |w.visited| >= MAX_VISITED_PAGES
    ensures DescendAll(g, children, depth, w).visited == w.visited && DescendAll(g, children, depth, w).error.None?
    decreases |children|
  {
    if children != [] { FullStays(g, children[1..], depth, Descend(g, children[0], depth, w)); }
  }

  /** Where the search without caps stays above depth 64 but goes past 4096 pages, a call visits its
      first 4096 blocks and reports no error. */
  lemma {:induction false} PageCapCuts<E>(g: Graph<E>, readable: set<U64>, block: U64, depth: nat, w: Walk<E>)
    requires forall b :: !g(b).Unreadable? ==> b in readable
    requires Sound(g, w) && w.error.None? && Deepest(g, readable, block, depth, w) < MAX_DESCENT_DEPTH
    requires |Uncapped(g, readable, block, w).visited| > MAX_VISITED_PAGES
    ensures var v := Descend(g, block, depth, w);
      v.error.None? && v.visited == Uncapped(g, readable, block, w).visited[..MAX_VISITED_PAGES]
    decreases DepthLeft(depth), 0, 0
  {
    hide Sound;
    SoundBounded(g, w);
    if |w.visited| < MAX_VISITED_PAGES {
      PushSound(g, w, block);
      PageCapCutsAll(g, readable, g(block).children, depth + 1, Push(g, w, block));
    }
  }

  lemma {:induction false} PageCapCutsAll<E>(g: Graph<E>, readable: set<U64>, children: seq<U64>, depth: nat,
                                             w: Walk<E>)
    requires forall b :: !g(b).Unreadable? ==> b in readable
    requires Sound(g, w) && DeepestAll(g, readable, children, depth, w) < MAX_DESCENT_DEPTH
    requires |UncappedAll(g, readable, children, w).visited| > MAX_VISITED_PAGES
    ensures var v := DescendAll(g, children, depth, w);
      v.error.None? && v.visited == UncappedAll(g, readable, children, w).visited[..MAX_VISITED_PAGES]
    decreases DepthLeft(depth), 1, |children|
  {
    hide Sound;
    SoundBounded(g, w);
    var v, u := Descend(g, children[0], depth, w), Uncapped(g, readable, children[0], w);
    if |u.visited| <= MAX_VISITED_PAGES {
      CutExactly(g, readable, children[0], depth, w);
      UncutIsUncapped(g, readable, children[0], depth, w);
      DescendSound(g, children[0], depth, w);
      PageCapCutsAll(g, readable, children[1..], depth, u);
    } else {
      PageCapCuts(g, readable, children[0], depth, w);
      FullStays(g, children[1..], depth, v);
    }
  }

  /** The search without caps visits reachable blocks only, each once. */
  lemma {:induction false} UncappedStaysWithin<E>(g: Graph<E>, readable: set<U64>, root: U64, block: U64, w: Walk<E>)
    requires forall b :: !g(b).Unreadable? ==> b in readable
    requires AllReached(g, root, w.visited) && Reachable(g, root, block)
    ensures AllReached(g, root, Uncapped(g, readable, block, w).visited)
    decreases Left(readable, w.visited), 0, 0
  {
    hide Reachable;
    if block !in w.visited && g(block).Branch? {
      LeftDrops(readable, w.visited, block);
      forall k | 0 <= k < |g(block).children|
        ensures Reachable(g, root, g(block).children[k])
      {
        ReachableChild(g, root, block, g(block).children[k]);
      }
      UncappedAllStaysWithin(g, readable, root, g(block).children, Push(g, w, block));
    }
  }

  lemma {:induction false} UncappedAllStaysWithin<E>(g: Graph<E>, readable: set<U64>, root: U64, children: seq<U64>,
                                                     w: Walk<E>)
    requires forall b :: !g(b).Unreadable? ==> b in readable
    requires AllReached(g, root, w.visited) && forall k :: 0 <= k < |children| ==> Reachable(g, root, children[k])
    ensures AllReached(g, root, UncappedAll(g, readable, children, w).visited)
    decreases Left(readable, w.visited), 1, |children|
  {
    hide Reachable, AllReached;
    if children != [] && w.error.None? {
      var u := Uncapped(g, readable, children[0], w);
      LeftShrinks(readable, w.visited, u.visited);
      UncappedStaysWithin(g, readable, root, children[0], w);
      UncappedAllStaysWithin(g, readable, root, children[1..], u);
    }
  }

  ghost predicate AllReached<E>(g: Graph<E>, root: U64, blocks: seq<U64>) {
    NoDuplicates(blocks) && forall i :: 0 <= i < |blocks| ==> Reachable(g, root, blocks[i])
  }

  /** When the depth cap is not felt, the walk visits the first 4096 blocks of the search without
      caps, fails exactly when that search fails within them, and when Ok is complete if and only if
      that search visits at most 4096 blocks. */
  lemma PageCapExactly<E>(g: Graph<E>, readable: set<U64>, root: U64)
    requires forall b :: !g(b).Unreadable? ==> b in readable
    requires Deepest(g, readable, root, 0, Start()) < MAX_DESCENT_DEPTH
    ensures var w, u := Walked(g, root), Uncapped(g, readable, root, Start());
      if |u.visited| <= MAX_VISITED_PAGES then w == u
      else w.error.None? && w.visited == u.visited[..MAX_VISITED_PAGES]
    ensures var w, u := Walked(g, root), Uncapped(g, readable, root, Start());
      w.error.None? ==>
        ((forall b :: Reachable(g, root, b) ==> b in w.visited) <==> |u.visited| <= MAX_VISITED_PAGES)
  {
    hide Descend, Uncapped, Deepest, Reachable;
    var u := Uncapped(g, readable, root, Start());
    ReachableSelf(g, root);
    UncappedStaysWithin(g, readable, root, root, Start());
    WalkWithinCaps(g, readable, root);
    if |u.visited| > MAX_VISITED_PAGES {
      PageCapCuts(g, readable, root, 0, Start());
      assert Reachable(g, root, u.visited[MAX_VISITED_PAGES]);
    }
  }
}
