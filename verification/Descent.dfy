/** The directory descent as a depth-first search of a graph read on demand
    (core/src/directory.rs:341-393). A block either fails to read, or is a branch naming
    child blocks, or is a leaf holding entries. */
module Descent {
  import opened Wrappers
  import opened Bytes

  const MAX_DESCENT_DEPTH: nat := 64
  const MAX_VISITED_PAGES: nat := 4096

  datatype Fetch<E> = Unreadable(error: RefsError) | Branch(children: seq<U64>) | Leaf(entries: seq<E>)

  type Graph<!E> = U64 -> Fetch<E>

  /** A block a cap turned away although it had not been visited: at which depth, and after
      how many visited pages. The program keeps no such record; the proofs do. */
  datatype Cut = Cut(block: U64, depth: nat, pages: nat)

  /** Where a walk stands: the visited list, the entries so far, the error that ended it,
      and, for the proofs, the blocks turned away and the number of calls made. */
  datatype Walk<E> = Walk(visited: seq<U64>, out: seq<E>, error: Option<RefsError>, cuts: seq<Cut>, calls: nat)

  function Start<E>(): Walk<E> {
    Walk([], [], None, [], 0)
  }

  function DepthLeft(depth: nat): nat {
    if depth < MAX_DESCENT_DEPTH then MAX_DESCENT_DEPTH - depth else 0
  }

  function TurnAway<E>(w: Walk<E>, block: U64, depth: nat): Walk<E> {
    if block in w.visited then w else w.(cuts := w.cuts + [Cut(block, depth, |w.visited|)])
  }

  function Descend<E>(g: Graph<E>, block: U64, depth: nat, w: Walk<E>): Walk<E>
    decreases DepthLeft(depth), 0, 0
  {
    var w := w.(calls := w.calls + 1);
    if depth >= MAX_DESCENT_DEPTH || |w.visited| >= MAX_VISITED_PAGES then TurnAway(w, block, depth)
    else if block in w.visited then w
    else
      var w := w.(visited := w.visited + [block]);
      match g(block)
      case Unreadable(e) => w.(error := Some(e))
      case Leaf(entries) => w.(out := w.out + entries)
      case Branch(children) => DescendAll(g, children, depth + 1, w)
  }

  /** The children in row order, stopping at the first error. */
  function DescendAll<E>(g: Graph<E>, children: seq<U64>, depth: nat, w: Walk<E>): Walk<E>
    decreases DepthLeft(depth), 1, |children|
  {
    if children == [] || w.error.Some? then w
    else DescendAll(g, children[1..], depth, Descend(g, children[0], depth, w))
  }

  // ---- What every run keeps -------------------------------------------------------

  ghost predicate NoDuplicates<T>(s: seq<T>) {
    forall i, j :: 0 <= i < j < |s| ==> s[i] != s[j]
  }

  function EntriesOf<E>(f: Fetch<E>): seq<E> {
    if f.Leaf? then f.entries else []
  }

  /** The entries of the leaves among `blocks`, in that order. */
  function Harvest<E>(g: Graph<E>, blocks: seq<U64>): seq<E> {
    if blocks == [] then []
    else Harvest(g, blocks[..|blocks| - 1]) + EntriesOf(g(blocks[|blocks| - 1]))
  }

  /** Every visited block was read, except that an error is the error of the last one. */
  ghost predicate ReadSoFar<E>(g: Graph<E>, w: Walk<E>) {
    && (forall i :: 0 <= i < |w.visited| - 1 ==> !g(w.visited[i]).Unreadable?)
    && (w.visited != [] ==>
          if w.error.Some? then g(w.visited[|w.visited| - 1]) == Unreadable(w.error.value)
          else !g(w.visited[|w.visited| - 1]).Unreadable?)
    && (w.visited == [] ==> w.error.None?)
  }

  /** Holds of a walk at every call and return. */
  ghost predicate Sound<E>(g: Graph<E>, w: Walk<E>) {
    && NoDuplicates(w.visited)
    && |w.visited| <= MAX_VISITED_PAGES
    && ReadSoFar(g, w)
    && w.out == Harvest(g, w.visited)
  }

  /** `v` continues `w`: it only appends. */
  ghost predicate Continues<E>(w: Walk<E>, v: Walk<E>) {
    && w.visited <= v.visited
    && w.cuts <= v.cuts
    && w.out <= v.out
    && w.calls <= v.calls
  }

  lemma HarvestPush<E>(g: Graph<E>, blocks: seq<U64>, b: U64)
    ensures Harvest(g, blocks + [b]) == Harvest(g, blocks) + EntriesOf(g(b))
  {
    assert (blocks + [b])[..|blocks|] == blocks;
  }

  /** `w` after `block` has been pushed and read, before any child is followed. */
  function Push<E>(g: Graph<E>, w: Walk<E>, block: U64): Walk<E> {
    var pushed := w.(visited := w.visited + [block], calls := w.calls + 1);
    match g(block)
    case Unreadable(e) => pushed.(error := Some(e))
    case Leaf(entries) => pushed.(out := w.out + entries)
    case Branch(_) => pushed
  }

  lemma PushSound<E>(g: Graph<E>, w: Walk<E>, block: U64)
    requires Sound(g, w) && w.error.None? && |w.visited| < MAX_VISITED_PAGES && block !in w.visited
    ensures Sound(g, Push(g, w, block)) && Continues(w, Push(g, w, block))
  {
    hide NoDuplicates, ReadSoFar, Harvest;
    HarvestPush(g, w.visited, block);
    PushKeepsDistinct(w.visited, block);
    PushKeepsRead(g, w, block);
  }

  lemma PushKeepsDistinct<T>(s: seq<T>, x: T)
    requires NoDuplicates(s) && x !in s
    ensures NoDuplicates(s + [x])
  {
  }

  lemma PushKeepsRead<E>(g: Graph<E>, w: Walk<E>, block: U64)
    requires ReadSoFar(g, w) && w.error.None?
    ensures ReadSoFar(g, Push(g, w, block))
  {
    assert forall i :: 0 <= i < |w.visited| ==> Push(g, w, block).visited[i] == w.visited[i];
  }

  /** No block is visited twice, no more than 4096 are, the entries are those of the visited
      leaves in first-visit order, and an error belongs to the block visited last. */
  lemma {:induction false} DescendSound<E>(g: Graph<E>, block: U64, depth: nat, w: Walk<E>)
    requires Sound(g, w) && w.error.None?
    ensures Sound(g, Descend(g, block, depth, w)) && Continues(w, Descend(g, block, depth, w))
    decreases DepthLeft(depth), 0, 0
  {
    hide NoDuplicates, Harvest;
    if depth < MAX_DESCENT_DEPTH && |w.visited| < MAX_VISITED_PAGES && block !in w.visited {
      PushSound(g, w, block);
      if g(block).Branch? {
        DescendAllSound(g, g(block).children, depth + 1, Push(g, w, block));
      }
    }
  }

  lemma {:induction false} DescendAllSound<E>(g: Graph<E>, children: seq<U64>, depth: nat, w: Walk<E>)
    requires Sound(g, w)
    ensures Sound(g, DescendAll(g, children, depth, w)) && Continues(w, DescendAll(g, children, depth, w))
    decreases DepthLeft(depth), 1, |children|
  {
    if children != [] && w.error.None? {
      DescendSound(g, children[0], depth, w);
      DescendAllSound(g, children[1..], depth, Descend(g, children[0], depth, w));
    }
  }

  // ---- Closure ----------------------------------------------------------------------

  /** `b` was visited, or turned away at a cap. */
  ghost predicate Seen<E>(w: Walk<E>, b: U64) {
    b in w.visited || exists i :: 0 <= i < |w.cuts| && w.cuts[i].block == b
  }

  /** Every child of a branch visited from position `from` on has been seen. */
  ghost predicate ClosedFrom<E>(g: Graph<E>, w: Walk<E>, from: nat) {
    forall i, k ::
      from <= i < |w.visited| && g(w.visited[i]).Branch? && 0 <= k < |g(w.visited[i]).children|
      ==> Seen(w, g(w.visited[i]).children[k])
  }

  lemma SeenContinues<E>(w: Walk<E>, v: Walk<E>, b: U64)
    requires Continues(w, v) && Seen(w, b)
    ensures Seen(v, b)
  {
    if b !in w.visited {
      var i :| 0 <= i < |w.cuts| && w.cuts[i].block == b;
      assert v.cuts[i] == w.cuts[i];
    }
  }

  lemma ClosedContinues<E>(g: Graph<E>, w: Walk<E>, v: Walk<E>, from: nat)
    requires Continues(w, v) && ClosedFrom(g, w, from) && ClosedFrom(g, v, |w.visited|)
    ensures ClosedFrom(g, v, from)
  {
    forall i, k | from <= i < |v.visited| && g(v.visited[i]).Branch? && 0 <= k < |g(v.visited[i]).children|
      ensures Seen(v, g(v.visited[i]).children[k])
    {
      if i < |w.visited| {
        assert v.visited[i] == w.visited[i];
        assert Seen(w, g(w.visited[i]).children[k]);
        SeenContinues(w, v, g(v.visited[i]).children[k]);
      }
    }
  }

  /** A call that returns Ok has seen its block and every child of every block it visited. */
  lemma {:induction false} DescendCloses<E>(g: Graph<E>, block: U64, depth: nat, w: Walk<E>)
    requires Sound(g, w) && w.error.None?
    ensures var v := Descend(g, block, depth, w);
      v.error.None? ==> Seen(v, block) && ClosedFrom(g, v, |w.visited|)
    decreases DepthLeft(depth), 0, 0
  {
    hide Sound;
    var v := Descend(g, block, depth, w);
    if depth >= MAX_DESCENT_DEPTH || |w.visited| >= MAX_VISITED_PAGES {
      if block !in w.visited { assert v.cuts[|w.cuts|].block == block; }
    } else if block !in w.visited {
      DescendSound(g, block, depth, w);
      if g(block).Branch? {
        var pushed, children := Push(g, w, block), g(block).children;
        PushSound(g, w, block);
        DescendAllCloses(g, children, depth + 1, pushed);
        DescendAllSound(g, children, depth + 1, pushed);
        assert v.visited[|w.visited|] == pushed.visited[|w.visited|] == block;
      }
    }
  }

  lemma {:induction false} DescendAllCloses<E>(g: Graph<E>, children: seq<U64>, depth: nat, w: Walk<E>)
    requires Sound(g, w)
    ensures var v := DescendAll(g, children, depth, w);
      v.error.None? ==>
        (forall k :: 0 <= k < |children| ==> Seen(v, children[k])) && ClosedFrom(g, v, |w.visited|)
    decreases DepthLeft(depth), 1, |children|
  {
    hide Sound, Seen;
    if children != [] && w.error.None? {
      var u := Descend(g, children[0], depth, w);
      DescendSound(g, children[0], depth, w);
      DescendAllSound(g, children[1..], depth, u);
      var v := DescendAll(g, children, depth, w);
      if v.error.None? {
        ErrorSticks(g, children[1..], depth, u);
        DescendCloses(g, children[0], depth, w);
        DescendAllCloses(g, children[1..], depth, u);
        SeenContinues(u, v, children[0]);
        ClosedContinues(g, u, v, |w.visited|);
      }
    }
  }

  lemma ErrorSticks<E>(g: Graph<E>, children: seq<U64>, depth: nat, w: Walk<E>)
    ensures w.error.Some? ==> DescendAll(g, children, depth, w).error.Some?
  {
  }

  // ---- Reachability -------------------------------------------------------------------

  /** `path` follows child references from its first block to its last. */
  ghost predicate IsPath<E>(g: Graph<E>, path: seq<U64>) {
    && path != []
    && forall i :: 0 <= i < |path| - 1 ==> g(path[i]).Branch? && path[i + 1] in g(path[i]).children
  }

  ghost predicate Reachable<E>(g: Graph<E>, from: U64, to: U64) {
    exists path :: IsPath(g, path) && path[0] == from && path[|path| - 1] == to
  }

  lemma ReachableSelf<E>(g: Graph<E>, b: U64)
    ensures Reachable(g, b, b)
  {
    assert IsPath(g, [b]);
  }

  lemma ReachableChild<E>(g: Graph<E>, from: U64, to: U64, child: U64)
    requires Reachable(g, from, to) && g(to).Branch? && child in g(to).children
    ensures Reachable(g, from, child)
  {
    var path :| IsPath(g, path) && path[0] == from && path[|path| - 1] == to;
    var longer := path + [child];
    assert IsPath(g, longer) && longer[0] == from && longer[|longer| - 1] == child;
  }

  /** Everything visited or turned away is reachable from the root. */
  ghost predicate Within<E>(g: Graph<E>, root: U64, w: Walk<E>) {
    && (forall i :: 0 <= i < |w.visited| ==> Reachable(g, root, w.visited[i]))
    && (forall i :: 0 <= i < |w.cuts| ==> Reachable(g, root, w.cuts[i].block))
  }

  lemma {:induction false} DescendStaysWithin<E>(g: Graph<E>, root: U64, block: U64, depth: nat, w: Walk<E>)
    requires Within(g, root, w) && Reachable(g, root, block)
    ensures Within(g, root, Descend(g, block, depth, w))
    decreases DepthLeft(depth), 0, 0
  {
    hide Reachable;
    if depth < MAX_DESCENT_DEPTH && |w.visited| < MAX_VISITED_PAGES && block !in w.visited && g(block).Branch? {
      var pushed, children := Push(g, w, block), g(block).children;
      forall k | 0 <= k < |children|
        ensures Reachable(g, root, children[k])
      {
        ReachableChild(g, root, block, children[k]);
      }
      DescendAllStaysWithin(g, root, children, depth + 1, pushed);
    }
  }

  lemma {:induction false} DescendAllStaysWithin<E>(g: Graph<E>, root: U64, children: seq<U64>, depth: nat, w: Walk<E>)
    requires Within(g, root, w) && forall k :: 0 <= k < |children| ==> Reachable(g, root, children[k])
    ensures Within(g, root, DescendAll(g, children, depth, w))
    decreases DepthLeft(depth), 1, |children|
  {
    hide Reachable, Within;
    if children != [] && w.error.None? {
      DescendStaysWithin(g, root, children[0], depth, w);
      DescendAllStaysWithin(g, root, children[1..], depth, Descend(g, children[0], depth, w));
    }
  }

  /** A set of visited blocks closed under children holds everything reachable from it. */
  lemma {:induction false} ClosedHoldsPath<E>(g: Graph<E>, blocks: seq<U64>, path: seq<U64>, n: nat)
    requires IsPath(g, path) && path[0] in blocks && n < |path|
    requires forall b, k :: b in blocks && g(b).Branch? && 0 <= k < |g(b).children| ==> g(b).children[k] in blocks
    ensures path[n] in blocks
  {
    if n > 0 { ClosedHoldsPath(g, blocks, path, n - 1); }
  }
}
