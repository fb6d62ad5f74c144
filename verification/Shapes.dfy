/** Every shape of directory tree has an image: what list_dir returns for it, beyond the walk's caps
    as well as within them. */
module Shapes {
  import opened Wrappers
  import opened Bytes
  import opened Layout
  import opened Minstore
  import opened PageWriter
  import opened Descent
  import opened TreeWalk
  import opened Directory
  import opened DirectoryTheorems
  import opened EntryRows
  import opened Volume
  import opened Images

  /** A directory tree without its blocks. */
  datatype Shape = LeafShape(items: seq<Item>) | BranchShape(kids: seq<Shape>)

  function Count(s: Shape): (n: nat)
    ensures n >= 1
    decreases s, 1
  {
    match s
    case LeafShape(_) => 1
    case BranchShape(kids) => 1 + CountAll(kids)
  }

  function CountAll(ss: seq<Shape>): nat
    decreases ss, 0
  {
    if ss == [] then 0 else Count(ss[0]) + CountAll(ss[1..])
  }

  function Height(s: Shape): (n: nat)
    ensures n >= 1
    decreases s, 1
  {
    match s
    case LeafShape(_) => 1
    case BranchShape(kids) => 1 + HeightAll(kids)
  }

  function HeightAll(ss: seq<Shape>): nat
    decreases ss, 0
  {
    if ss == [] then 0 else
    var a, b := Height(ss[0]), HeightAll(ss[1..]);
    if a >= b then a else b
  }

  function ShapeItems(s: Shape): seq<Item>
    decreases s, 1
  {
    match s
    case LeafShape(items) => items
    case BranchShape(kids) => ShapeItemsAll(kids)
  }

  function ShapeItemsAll(ss: seq<Shape>): seq<Item>
    decreases ss, 0
  {
    if ss == [] then [] else ShapeItems(ss[0]) + ShapeItemsAll(ss[1..])
  }

  /** The rows of every node end inside its page's first cluster: 158 child references do. */
  predicate SmallShape(s: Shape)
    decreases s, 1
  {
    match s
    case LeafShape(items) => Small(ItemRecords(items))
    case BranchShape(kids) => |kids| <= 158 && SmallShapes(kids)
  }

  predicate SmallShapes(ss: seq<Shape>)
    decreases ss, 0
  {
    ss != [] ==> SmallShape(ss[0]) && SmallShapes(ss[1..])
  }

  /** Every leaf has an entry, and every branch a child. */
  predicate FruitfulShape(s: Shape)
    decreases s, 1
  {
    match s
    case LeafShape(items) => EntriesFor(items) != []
    case BranchShape(kids) => kids != [] && FruitfulShapes(kids)
  }

  predicate FruitfulShapes(ss: seq<Shape>)
    decreases ss, 0
  {
    ss != [] ==> FruitfulShape(ss[0]) && FruitfulShapes(ss[1..])
  }

  // ---- Placing a shape ---------------------------------------------------------------------------

  const FIRST_SLOT: nat := 15

  function BareReferences(n: nat): (refs: seq<Reference>)
    ensures |refs| == n && forall i :: 0 <= i < n ==> refs[i] == Reference([], [])
  {
    seq(n, _ => Reference([], []))
  }

  /** The nodes in preorder take the slots after the table's, from the `k`-th of them on. */
  function Placed(s: Shape, k: nat): (t: DirTree)
    requires FIRST_SLOT + k + Count(s) <= MAX_SLOTS
    ensures t.block == 4 * (FIRST_SLOT + k) && (t.BranchPage? <==> s.BranchShape?)
    decreases s, 1
  {
    match s
    case LeafShape(items) => LeafPage(4 * (FIRST_SLOT + k), PLAIN, items)
    case BranchShape(kids) => BranchPage(4 * (FIRST_SLOT + k), PLAIN, BareReferences(|kids|), PlacedAll(kids, k + 1))
  }

  function PlacedAll(ss: seq<Shape>, k: nat): (ts: seq<DirTree>)
    requires FIRST_SLOT + k + CountAll(ss) <= MAX_SLOTS
    ensures |ts| == |ss|
    decreases ss, 0
  {
    if ss == [] then [] else [Placed(ss[0], k)] + PlacedAll(ss[1..], k + Count(ss[0]))
  }

  lemma {:induction false} AreaLenFirst(r: Record, rest: seq<Record>)
    ensures AreaLen([r] + rest) == RecordLen(r) + AreaLen(rest)
  {
    var rows := [r] + rest;
    if rest == [] {
      assert rows[..0] == [];
    } else {
      var n := |rest| - 1;
      assert rows[..|rows| - 1] == [r] + rest[..n];
      AreaLenFirst(r, rest[..n]);
    }
  }

  lemma {:induction false} BareReferencesLen(refs: seq<Reference>, children: seq<U64>)
    requires |refs| == |children| && forall i :: 0 <= i < |refs| ==> refs[i] == Reference([], [])
    ensures AreaLen(ReferenceRecords(refs, children)) == 24 * |refs|
  {
    hide Bytes8;
    if refs != [] {
      BareReferencesLen(refs[1..], children[1..]);
      AreaLenFirst(ReferenceRecord(refs[0], children[0]), ReferenceRecords(refs[1..], children[1..]));
    }
  }

  lemma PlacedIsSmall(s: Shape, k: nat)
    requires FIRST_SLOT + k + Count(s) <= MAX_SLOTS && SmallShape(s)
    ensures SmallNode(Placed(s, k))
  {
    hide AreaLen;
    if s.BranchShape? { BareReferencesLen(BareReferences(|s.kids|), BlocksOf(PlacedAll(s.kids, k + 1))); }
  }

  /** Nodes that lie one a slot from the `k`-th on, all of them small. */
  ghost predicate InRow(nodes: seq<(U64, DirTree)>, k: nat) {
    forall i :: 0 <= i < |nodes| ==> SmallNode(nodes[i].1) && nodes[i].1.block == 4 * (FIRST_SLOT + k + i)
  }

  lemma RowsJoin(a: seq<(U64, DirTree)>, b: seq<(U64, DirTree)>, k: nat)
    requires InRow(a, k) && InRow(b, k + |a|)
    ensures InRow(a + b, k)
  {
    hide SmallNode;
  }

  lemma {:induction false} PlacedInRow(id: U64, s: Shape, k: nat)
    requires FIRST_SLOT + k + Count(s) <= MAX_SLOTS && SmallShape(s)
    ensures |NodesOf(id, Placed(s, k))| == Count(s) && InRow(NodesOf(id, Placed(s, k)), k)
    decreases s, 1
  {
    hide SmallNode, InRow;
    PlacedIsSmall(s, k);
    var t := Placed(s, k);
    assert InRow([(id, t)], k) by { OneInRow(id, t, k); }
    if s.BranchShape? {
      PlacedAllInRow(id, s.kids, k + 1);
      RowsJoin([(id, t)], NodesOfAll(id, t.kids), k);
    } else {
      assert NodesOf(id, t) == [(id, t)];
    }
  }

  lemma OneInRow(id: U64, t: DirTree, k: nat)
    requires SmallNode(t) && t.block == 4 * (FIRST_SLOT + k)
    ensures InRow([(id, t)], k)
  {
  }

  lemma {:induction false} PlacedAllInRow(id: U64, ss: seq<Shape>, k: nat)
    requires FIRST_SLOT + k + CountAll(ss) <= MAX_SLOTS && SmallShapes(ss)
    ensures |NodesOfAll(id, PlacedAll(ss, k))| == CountAll(ss) && InRow(NodesOfAll(id, PlacedAll(ss, k)), k)
    decreases ss, 0
  {
    hide SmallNode, NodesOf, Count, InRow, SmallShape;
    if ss == [] {
      assert InRow([], k) by { NoneInRow(k); }
    } else {
      var next := k + Count(ss[0]);
      var first, rest := Placed(ss[0], k), PlacedAll(ss[1..], next);
      PlacedInRow(id, ss[0], k);
      PlacedAllInRow(id, ss[1..], next);
      RowsJoin(NodesOf(id, first), NodesOfAll(id, rest), k);
      assert PlacedAll(ss, k) == [first] + rest && ([first] + rest)[1..] == rest;
    }
  }

  lemma NoneInRow(k: nat)
    ensures InRow([], k)
  {
  }

  /** The placed tree stands for the shape: its levels, its nodes, its items. */
  lemma {:induction false} PlacedMeaning(id: U64, s: Shape, k: nat)
    requires FIRST_SLOT + k + Count(s) <= MAX_SLOTS
    ensures var t := Placed(s, k);
      Levels(Meaning(t)) == Height(s) && ItemsOf(t) == ShapeItems(s) && (FruitfulShape(s) ==> Fruitful(Meaning(t)))
    decreases s, 1
  {
    if s.BranchShape? {
      PlacedAllMeaning(id, s.kids, k + 1);
    }
  }

  lemma {:induction false} PlacedAllMeaning(id: U64, ss: seq<Shape>, k: nat)
    requires FIRST_SLOT + k + CountAll(ss) <= MAX_SLOTS
    ensures var ts := PlacedAll(ss, k);
      && LevelsAll(MeaningAll(ts)) == HeightAll(ss) && ItemsOfAll(ts) == ShapeItemsAll(ss)
      && |MeaningAll(ts)| == |ss| && (FruitfulShapes(ss) ==> FruitfulAll(MeaningAll(ts)))
    decreases ss, 0
  {
    hide Levels, ItemsOf, Fruitful, Height, ShapeItems, FruitfulShape, Count;
    if ss != [] {
      PlacedMeaning(id, ss[0], k);
      PlacedAllMeaning(id, ss[1..], k + Count(ss[0]));
      var ts := PlacedAll(ss, k);
      assert ts[1..] == PlacedAll(ss[1..], k + Count(ss[0]));
      assert MeaningAll(ts)[1..] == MeaningAll(ts[1..]);
    }
  }

  // ---- The image of a shape ------------------------------------------------------------------------

  function ShapeDirs(id: U64, s: Shape): seq<(U64, DirTree)>
    requires FIRST_SLOT + Count(s) <= MAX_SLOTS
  {
    [(id, Placed(s, 0))]
  }

  lemma ShapeIsBuildable(id: U64, s: Shape)
    requires FIRST_SLOT + Count(s) <= MAX_SLOTS && SmallShape(s)
    ensures Buildable(ShapeDirs(id, s), FIRST_SLOT + Count(s))
    ensures FsOf(ShapeDirs(id, s)) == map[id := Placed(s, 0)]
  {
    hide Small, ObjectRecords, SmallNode, NodesOf, FsNodes, ObjectsOf, FsOf, Placed, Placeable, InRow;
    var t := Placed(s, 0);
    OneDirectory(id, t);
    PlacedInRow(id, s, 0);
    OneObjectIsSmall(id, t.block);
    RowIsPlaceable(NodesOf(id, t));
  }

  lemma RowIsPlaceable(nodes: seq<(U64, DirTree)>)
    requires InRow(nodes, 0)
    ensures Placeable(nodes, FIRST_SLOT + |nodes|)
  {
    hide SmallNode;
  }

  /** The image of a shape: the object table, then one page a node in preorder. */
  ghost function ShapeImage(id: U64, s: Shape): Buffer
    requires FIRST_SLOT + Count(s) <= MAX_SLOTS && SmallShape(s)
  {
    hide Buildable, FsOf, SmallShape, Placed;
    ShapeIsBuildable(id, s);
    FsImage(ShapeDirs(id, s), FIRST_SLOT + Count(s))
  }

  /** For directory trees of every shape, list_dir is Ok, and it returns all items if and only if the
      tree has at most 64 levels and 4096 nodes. Beyond, some are missing and no error says so. */
  lemma EveryShapeIsListed(id: U64, s: Shape)
    requires FIRST_SLOT + Count(s) <= MAX_SLOTS && SmallShape(s) && FruitfulShape(s)
    ensures var r, all := Listing(ShapeImage(id, s), id), EntriesFor(ShapeItems(s));
      && r.Success?
      && (r.value == all <==> Height(s) <= 64 && Count(s) <= 4096)
      && (r.value != all ==> |r.value| < |all|)
  {
    hide FsImage, Buildable, ObjectsOf, FsOf, TablePlaced, Stored, NoDuplicates, Preorder, Levels, Contents, Fruitful,
      Meaning, EntriesFor, ItemsOf, ShapeItems, Height, WalkResult, ObjectTable, Lookup, RootOf, NodesOf, InRow,
      FruitfulShape, SmallShape, Placed, ShapeDirs;
    ShapeIsBuildable(id, s);
    var dirs, n, t, image := ShapeDirs(id, s), FIRST_SLOT + Count(s), Placed(s, 0), ShapeImage(id, s);
    assert id in FsOf(dirs) && FsOf(dirs)[id] == t;
    TableIsPlaced(dirs, n);
    TableNamesDirs(dirs, id);
    PlacedTableLooksUp(image, ObjectsOf(dirs), id);
    ImageStoresTree(dirs, n, id);
    PlacedMeaning(id, s, 0);
    PlacedInRow(id, s, 0);
    PreorderIsNodes(id, t);
    StoredTreeListedInFullIff(image, id, t);
    ContentsAreItems(t);
  }

  // ---- Each cap is felt ----------------------------------------------------------------------------

  /** A tower of `n` branches over one leaf. */
  function Tower(n: nat, items: seq<Item>): (s: Shape)
    ensures Count(s) == Height(s) == n + 1 && ShapeItems(s) == items
    ensures Small(ItemRecords(items)) ==> SmallShape(s)
    ensures EntriesFor(items) != [] ==> FruitfulShape(s)
  {
    if n == 0 then LeafShape(items) else
    var below := Tower(n - 1, items);
    OneKid(below);
    BranchShape([below])
  }

  lemma OneKid(s: Shape)
    ensures CountAll([s]) == Count(s) && HeightAll([s]) == Height(s) && ShapeItemsAll([s]) == ShapeItems(s)
    ensures SmallShapes([s]) == SmallShape(s) && FruitfulShapes([s]) == FruitfulShape(s)
  {
    assert [s][1..] == [];
  }

  /** A branch over `n` copies of `s`. */
  function Fan(n: nat, s: Shape): Shape {
    BranchShape(seq(n, _ => s))
  }

  lemma {:induction false} FanCount(n: nat, s: Shape)
    ensures Count(Fan(n, s)) == 1 + n * Count(s)
    ensures Height(Fan(n, s)) == 1 + if n == 0 then 0 else Height(s)
    ensures n <= 158 && SmallShape(s) ==> SmallShape(Fan(n, s))
    ensures n > 0 && FruitfulShape(s) ==> FruitfulShape(Fan(n, s))
  {
    hide SmallShape, FruitfulShape, Count, Height;
    FanAll(n, s);
    assert Count(Fan(n, s)) == 1 + CountAll(seq(n, _ => s)) by { OfBranch(seq(n, _ => s)); }
    OfBranch(seq(n, _ => s));
  }

  lemma OfBranch(kids: seq<Shape>)
    ensures Count(BranchShape(kids)) == 1 + CountAll(kids) && Height(BranchShape(kids)) == 1 + HeightAll(kids)
    ensures SmallShape(BranchShape(kids)) == (|kids| <= 158 && SmallShapes(kids))
    ensures FruitfulShape(BranchShape(kids)) == (kids != [] && FruitfulShapes(kids))
  {
  }

  lemma {:induction false} FanAll(n: nat, s: Shape)
    ensures CountAll(seq(n, _ => s)) == n * Count(s)
    ensures HeightAll(seq(n, _ => s)) == if n == 0 then 0 else Height(s)
    ensures SmallShape(s) ==> SmallShapes(seq(n, _ => s))
    ensures FruitfulShape(s) ==> FruitfulShapes(seq(n, _ => s))
  {
    hide SmallShape, FruitfulShape, Count, Height;
    if n > 0 {
      FanAll(n - 1, s);
      assert seq(n, _ => s)[1..] == seq(n - 1, _ => s);
      assert n * Count(s) == (n - 1) * Count(s) + Count(s);
    }
  }

  /** Each cap truncates a listing on its own: the depth cap that of a 65-level tower of 65
      pages, the page cap that of a 3-level tree of 64 branches of 64 leaves each. */
  lemma EachCapTruncates(id: U64, items: seq<Item>)
    requires Small(ItemRecords(items)) && EntriesFor(items) != []
    ensures var tower, grove := Tower(64, items), Fan(64, Fan(64, LeafShape(items)));
      && Count(tower) == Height(tower) == 65 && SmallShape(tower)
      && Count(grove) == 4161 && Height(grove) == 3 && SmallShape(grove)
      && Listing(ShapeImage(id, tower), id).Success?
      && |Listing(ShapeImage(id, tower), id).value| < |EntriesFor(ShapeItems(tower))|
      && Listing(ShapeImage(id, grove), id).Success?
      && |Listing(ShapeImage(id, grove), id).value| < |EntriesFor(ShapeItems(grove))|
  {
    hide Listing, ShapeItems, SmallShape, FruitfulShape, Small, EntriesFor, ItemRecords, Fan, Tower, ShapeImage, Count,
      Height;
    var tower, leaf := Tower(64, items), LeafShape(items);
    LeafFacts(items);
    FanCount(64, leaf);
    FanCount(64, Fan(64, leaf));
    EveryShapeIsListed(id, tower);
    EveryShapeIsListed(id, Fan(64, Fan(64, leaf)));
  }

  lemma LeafFacts(items: seq<Item>)
    ensures Count(LeafShape(items)) == Height(LeafShape(items)) == 1
    ensures SmallShape(LeafShape(items)) == Small(ItemRecords(items))
    ensures FruitfulShape(LeafShape(items)) == (EntriesFor(items) != [])
  {
  }
}
