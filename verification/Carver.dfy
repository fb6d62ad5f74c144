/** Copy-on-write residue recovery (forensic/src/lib.rs:500-635). */
module Carver {
  import opened Wrappers
  import opened Bytes
  import opened Layout
  import opened Utf16
  import opened Minstore
  import opened Directory

  /** What the two passes read off a resident page. */
  datatype Version = Version(offset: nat, tableId: U64, selfBlock: U64, names: seq<Name>) {
    predicate IsRoot() { tableId == REFS_ROOT_DIRECTORY_ID }
  }

  function ReadVersion(offset: nat, page: Buffer): Version {
    Version(offset, U64At(page, TABLE_ID_OFFSET), U64At(page, SELF_BLOCK_OFFSET), CarveDirectoryEntries(page))
  }

  datatype StalePage = StalePage(selfBlock: U64, tableId: U64, offset: nat, entries: seq<Name>)

  function PageAtCluster(image: Buffer, c: nat): seq<Version> {
    var page := BlockAt(image, c * CLUSTER_SIZE);
    if page.Some? && page.value[..4] == MSB_SIGNATURE then [ReadVersion(c * CLUSTER_SIZE, page.value)] else []
  }

  function PagesFrom(image: Buffer, c: nat): seq<Version>
    requires c <= |image| / CLUSTER_SIZE
    decreases |image| / CLUSTER_SIZE - c
  {
    if c == |image| / CLUSTER_SIZE then [] else PageAtCluster(image, c) + PagesFrom(image, c + 1)
  }

  function ResidentPages(image: Buffer): seq<Version> {
    PagesFrom(image, 0)
  }

  function NamesOf(entries: seq<DirEntry>): (names: seq<Name>)
    ensures |names| == |entries| && forall i :: 0 <= i < |names| ==> names[i] == entries[i].name
  {
    if entries == [] then [] else [entries[0].name] + NamesOf(entries[1..])
  }

  /** A page whose node header runs past it carves nothing. */
  function CarveDirectoryEntries(page: Buffer): seq<Name> {
    match ParseDirectory(page)
    case Failure(_) => []
    case Success(entries) => NamesOf(entries)
  }

  /** Carving a page fails to parse it exactly when its node header runs past it; it then carves
      nothing, where an error would be lost. */
  lemma UnparsableExactly(page: Buffer)
    requires |page| == PAGE_SIZE
    ensures ParseDirectory(page).Failure? <==>
      NODE_HEADER_OFFSET_FIELD + U32At(page, NODE_HEADER_OFFSET_FIELD) + NODE_HEADER_LEN > PAGE_SIZE
    ensures ParseDirectory(page).Failure? ==> CarveDirectoryEntries(page) == []
  {
  }

  /** An image of one page: a root page whose header offset field says `rel`. */
  function OneRootPage(rel: U32): (image: Buffer)
    ensures |image| == PAGE_SIZE
  {
    MSB_SIGNATURE + seq(68, _ => 0) + Bytes8(REFS_ROOT_DIRECTORY_ID) + Bytes4(rel) + seq(PAGE_SIZE - 84, _ => 0)
  }

  /** The carver does meet such pages: for every header offset past the page there is an image
      with a resident root page that does not parse. */
  lemma UnparsableRootPage(rel: U32)
    requires NODE_HEADER_OFFSET_FIELD + rel + NODE_HEADER_LEN > PAGE_SIZE
    ensures IsResident(OneRootPage(rel), 0) && PageOf(OneRootPage(rel), 0).IsRoot()
    ensures ParseDirectory(OneRootPage(rel)).Failure? && PageOf(OneRootPage(rel), 0).names == []
  {
    hide Bytes8, Bytes4, U64At, U32At;
    var image := OneRootPage(rel);
    assert image[0..PAGE_SIZE] == image && image[0..4] == MSB_SIGNATURE;
    assert image[72..80] == Bytes8(REFS_ROOT_DIRECTORY_ID) && image[80..84] == Bytes4(rel);
    ReadHeld8(image, TABLE_ID_OFFSET, REFS_ROOT_DIRECTORY_ID);
    ReadHeld4(image, NODE_HEADER_OFFSET_FIELD, rel);
    UnparsableExactly(image);
  }

  /** The names of `a` that are not in `b`, in the order of `a`. */
  function Without(a: seq<Name>, b: seq<Name>): seq<Name> {
    if a == [] then []
    else (if a[0] in b then [] else [a[0]]) + Without(a[1..], b)
  }

  /** What is left of `a` is in the order of `a`, holds no name of `b`, and every other name as
      often as `a`. */
  lemma WithoutExactly(a: seq<Name>, b: seq<Name>, name: Name)
    ensures Subsequence(Without(a, b), a)
    ensures multiset(Without(a, b))[name] == if name in b then 0 else multiset(a)[name]
  {
    hide Without, Subsequence;
    WithoutInOrder(a, b);
    WithoutCounts(a, b, name);
  }

  lemma {:induction false} WithoutInOrder(a: seq<Name>, b: seq<Name>)
    ensures Subsequence(Without(a, b), a)
  {
    hide Subsequence;
    if a == [] {
      EmptySubsequence<Name>([]);
    } else {
      WithoutInOrder(a[1..], b);
      SubsequenceSkip(Without(a[1..], b), [a[0]], a[1..]);
      assert a == [a[0]] + a[1..];
      assert a[0] in b ==> Without(a, b) == Without(a[1..], b);
    }
  }

  lemma {:induction false} WithoutCounts(a: seq<Name>, b: seq<Name>, name: Name)
    ensures multiset(Without(a, b))[name] == if name in b then 0 else multiset(a)[name]
  {
    if a != [] {
      WithoutCounts(a[1..], b, name);
      assert a == [a[0]] + a[1..];
      assert multiset(a) == multiset([a[0]]) + multiset(a[1..]);
      assert multiset(Without(a, b)) == multiset(if a[0] in b then [] else [a[0]]) + multiset(Without(a[1..], b));
    }
  }

  // ---- What is recovered -----------------------------------------------------------------

  /** Page `k` is the current version among the first `n`: the first with the greatest self block. */
  ghost predicate IsCurrent(pages: seq<Version>, n: nat, k: nat)
    requires n <= |pages|
  {
    && k < n && pages[k].IsRoot()
    && (forall j :: 0 <= j < n && pages[j].IsRoot() ==> pages[j].selfBlock <= pages[k].selfBlock)
    && (forall j :: 0 <= j < k && pages[j].IsRoot() ==> pages[j].selfBlock < pages[k].selfBlock)
  }

  function Dropped(p: Version, current: Version): seq<Name> {
    Without(p.names, current.names)
  }

  predicate IsStale(p: Version, current: Version) {
    p.IsRoot() && p.selfBlock < current.selfBlock && Dropped(p, current) != []
  }

  function RecordOf(p: Version, current: Version): StalePage {
    StalePage(p.selfBlock, p.tableId, p.offset, Dropped(p, current))
  }

  /** The records of the pages stale against `current`, in page order. */
  function StaleOf(pages: seq<Version>, current: Version): seq<StalePage> {
    if pages == [] then []
    else (if IsStale(pages[0], current) then [RecordOf(pages[0], current)] else []) + StaleOf(pages[1..], current)
  }

  /** What recovery reports for a scanned page list: the records stale against the current
      version, or nothing when there is no root page. */
  ghost function Residue(pages: seq<Version>): seq<StalePage> {
    if exists k: nat :: IsCurrent(pages, |pages|, k) then
      var k: nat :| IsCurrent(pages, |pages|, k);
      StaleOf(pages, pages[k])
    else []
  }

  lemma ResidueAgainst(pages: seq<Version>, k: nat)
    requires IsCurrent(pages, |pages|, k)
    ensures k < |pages| && pages[k].IsRoot() && Residue(pages) == StaleOf(pages, pages[k])
  {
    hide StaleOf;
    CurrentIsUnique(pages, k);
  }

  // ---- The two passes ----------------------------------------------------------------------

  type CurrentTable = seq<(U64, U64, seq<Name>)>

  function FindTable(current: CurrentTable, tableId: U64): Option<nat> {
    FindTableFrom(current, tableId, 0)
  }

  function FindTableFrom(current: CurrentTable, tableId: U64, i: nat): (r: Option<nat>)
    requires i <= |current|
    ensures r.Some? ==> r.value < |current|
    decreases |current| - i
  {
    if i == |current| then None
    else if current[i].0 == tableId then Some(i)
    else FindTableFrom(current, tableId, i + 1)
  }

  /** What pass 1 knows after `i` pages: nothing, or one entry, that of the current version. */
  ghost predicate PassOne(pages: seq<Version>, i: nat, current: CurrentTable, k: nat)
    requires i <= |pages|
  {
    if current == [] then forall j :: 0 <= j < i ==> !pages[j].IsRoot()
    else |current| == 1 && IsCurrent(pages, i, k)
         && current[0] == (REFS_ROOT_DIRECTORY_ID, pages[k].selfBlock, pages[k].names)
  }

  method FindCurrent(pages: seq<Version>) returns (current: CurrentTable)
    ensures exists k: nat :: PassOne(pages, |pages|, current, k)
  {
    current := [];
    ghost var k: nat := 0;
    for i := 0 to |pages|
      invariant PassOne(pages, i, current, k)
    {
      var p := pages[i];
      if p.tableId != REFS_ROOT_DIRECTORY_ID {
        continue;
      }
      var selfBlock := p.selfBlock;
      var found := FindTable(current, p.tableId);
      match found {
        case Some(t) =>
          if selfBlock > current[t].1 {
            current := current[t := (current[t].0, selfBlock, p.names)];
            k := i;
          }
        case None =>
          current := current + [(p.tableId, selfBlock, p.names)];
          k := i;
      }
    }
  }

  /** Pass 2: the pages older than the recorded current version that hold a name it dropped. */
  method FindStale(pages: seq<Version>, current: CurrentTable, ghost k: nat) returns (out: seq<StalePage>)
    requires PassOne(pages, |pages|, current, k)
    ensures current == [] ==> out == []
    ensures current != [] ==> k < |pages| && out == StaleOf(pages, pages[k])
  {
    hide Without, StaleOf;
    out := [];
    for i := 0 to |pages|
      invariant current != [] ==> out + StaleOf(pages[i..], pages[k]) == StaleOf(pages, pages[k])
      invariant current == [] ==> out == []
    {
      var p := pages[i];
      StaleOfStep(pages, i, pages[if current != [] then k else 0]);
      if p.tableId != REFS_ROOT_DIRECTORY_ID {
        continue;
      }
      var found := FindTable(current, p.tableId);
      if found.None? {
        assert false; // pass 1 recorded the one table id seen here
      } else {
        if p.selfBlock >= current[found.value].1 {
          continue;
        }
        var dropped := Without(p.names, current[found.value].2);
        if dropped == [] {
          continue;
        }
        out := out + [StalePage(p.selfBlock, p.tableId, p.offset, dropped)];
      }
    }
    StaleOfNone(pages, pages[|pages|..]);
  }

  method RecoverResidue(image: Buffer) returns (out: seq<StalePage>)
    ensures out == Residue(ResidentPages(image))
    ensures IsExactRecovery(image, out) && IsFullRecovery(image, out)
  {
    hide ResidentPages, StaleOf, IsCurrent, IsExactRecovery, IsFullRecovery;
    var pages := ResidentPages(image);
    var current := FindCurrent(pages);
    ghost var k: nat :| PassOne(pages, |pages|, current, k);
    out := FindStale(pages, current, k);
    if current == [] {
      NoneIsCurrent(pages);
    } else {
      ResidueAgainst(pages, k);
    }
    RecoveryIsExact(image);
    RecoveryIsFull(image);
  }

  lemma NoneIsCurrent(pages: seq<Version>)
    requires forall j :: 0 <= j < |pages| ==> !pages[j].IsRoot()
    ensures forall k: nat :: !IsCurrent(pages, |pages|, k)
  {
  }

  lemma StaleOfStep(pages: seq<Version>, i: nat, current: Version)
    requires i < |pages|
    ensures StaleOf(pages[i..], current) ==
      (if IsStale(pages[i], current) then [RecordOf(pages[i], current)] else []) + StaleOf(pages[i + 1..], current)
  {
    hide IsStale, RecordOf;
    assert pages[i..][0] == pages[i] && pages[i..][1..] == pages[i + 1..];
  }

  lemma StaleOfNone(pages: seq<Version>, none: seq<Version>)
    requires none == []
    ensures forall k: nat :: k < |pages| ==> StaleOf(none, pages[k]) == []
  {
  }

  lemma CurrentIsUnique(pages: seq<Version>, k: nat)
    requires IsCurrent(pages, |pages|, k)
    ensures k < |pages|
    ensures forall j: nat :: IsCurrent(pages, |pages|, j) <==> j == k
  {
    hide Version.IsRoot;
  }

  // ---- Exactness -----------------------------------------------------------------------------

  lemma {:induction false} StaleOfExactly(pages: seq<Version>, current: Version, r: StalePage)
    ensures r in StaleOf(pages, current) <==>
      exists j :: 0 <= j < |pages| && IsStale(pages[j], current) && RecordOf(pages[j], current) == r
  {
    hide IsStale, RecordOf;
    if pages != [] {
      var rest := pages[1..];
      StaleOfExactly(rest, current, r);
      if j :| 0 <= j < |rest| && IsStale(rest[j], current) && RecordOf(rest[j], current) == r {
        assert pages[j + 1] == rest[j];
      }
      if j :| 1 <= j < |pages| && IsStale(pages[j], current) && RecordOf(pages[j], current) == r {
        assert rest[j - 1] == pages[j];
      }
    }
  }

  ghost predicate Ascending(offsets: seq<nat>) {
    forall i, j :: 0 <= i < j < |offsets| ==> offsets[i] < offsets[j]
  }

  function OffsetsOf(pages: seq<Version>): (o: seq<nat>)
    ensures |o| == |pages| && forall i :: 0 <= i < |o| ==> o[i] == pages[i].offset
  {
    seq(|pages|, i requires 0 <= i < |pages| => pages[i].offset)
  }

  lemma {:induction false} StaleOffsetsAscend(pages: seq<Version>, current: Version)
    requires Ascending(OffsetsOf(pages))
    ensures forall i, j :: 0 <= i < j < |StaleOf(pages, current)| ==>
      StaleOf(pages, current)[i].offset < StaleOf(pages, current)[j].offset
  {
    hide IsStale, Dropped;
    if pages != [] {
      var rest := pages[1..];
      assert forall i :: 0 <= i < |rest| ==> OffsetsOf(rest)[i] == OffsetsOf(pages)[i + 1];
      StaleOffsetsAscend(rest, current);
      forall i | 0 <= i < |StaleOf(rest, current)|
        ensures pages[0].offset < StaleOf(rest, current)[i].offset
      {
        var r := StaleOf(rest, current)[i];
        StaleOfExactly(rest, current, r);
        var j :| 0 <= j < |rest| && IsStale(rest[j], current) && RecordOf(rest[j], current) == r;
        assert OffsetsOf(pages)[0] < OffsetsOf(pages)[j + 1];
      }
    }
  }

  function PageOf(image: Buffer, c: nat): Version
    requires IsResident(image, c)
  {
    ReadVersion(c * CLUSTER_SIZE, image[c * CLUSTER_SIZE..c * CLUSTER_SIZE + PAGE_SIZE])
  }

  lemma SelfBlockOnPage(image: Buffer, c: nat)
    requires IsResident(image, c)
    ensures PageOf(image, c).selfBlock == SelfBlock(image, c)
  {
    hide U64At, CarveDirectoryEntries;
    ReadInSlice(image, c * CLUSTER_SIZE, c * CLUSTER_SIZE + PAGE_SIZE, SELF_BLOCK_OFFSET);
  }

  lemma TableOnPage(image: Buffer, c: nat)
    requires IsResident(image, c)
    ensures PageOf(image, c).tableId == U64At(image, c * CLUSTER_SIZE + TABLE_ID_OFFSET)
  {
    hide U64At, CarveDirectoryEntries;
    ReadInSlice(image, c * CLUSTER_SIZE, c * CLUSTER_SIZE + PAGE_SIZE, TABLE_ID_OFFSET);
  }

  lemma PageAtClusterExactly(image: Buffer, c: nat)
    requires c <= |image|
    ensures PageAtCluster(image, c) == if IsResident(image, c) then [PageOf(image, c)] else []
  {
    var off := c * CLUSTER_SIZE;
    if off + PAGE_SIZE <= |image| {
      assert image[off..off + PAGE_SIZE][..4] == image[off..off + 4];
    }
  }

  ghost predicate ScannedFrom(image: Buffer, c: nat, p: Version) {
    exists d: nat :: c <= d && IsResident(image, d) && p == PageOf(image, d)
  }

  /** The scan yields exactly the resident pages, in ascending offset order. */
  lemma {:induction false} PagesFromExactly(image: Buffer, c: nat)
    requires c <= |image| / CLUSTER_SIZE
    ensures forall p :: p in PagesFrom(image, c) <==> ScannedFrom(image, c, p)
    ensures Ascending(OffsetsOf(PagesFrom(image, c)))
    decreases |image| / CLUSTER_SIZE - c
  {
    hide PageAtCluster, IsResident;
    if c < |image| / CLUSTER_SIZE {
      var rest := PagesFrom(image, c + 1);
      PagesFromExactly(image, c + 1);
      PageAtClusterExactly(image, c);
      forall p
        ensures ScannedFrom(image, c, p) <==>
          ScannedFrom(image, c + 1, p) || (IsResident(image, c) && p == PageOf(image, c))
      {
        if ScannedFrom(image, c + 1, p) {
          var d: nat :| c + 1 <= d && IsResident(image, d) && p == PageOf(image, d);
          assert c <= d;
        }
      }
      if IsResident(image, c) {
        FirstIsLowest(PageOf(image, c), rest);
        assert PagesFrom(image, c) == [PageOf(image, c)] + rest;
      } else {
        assert PagesFrom(image, c) == rest;
      }
    } else {
      forall d: nat | c <= d
        ensures !IsResident(image, d)
      {
        ResidentBelowEnd(image, d);
      }
    }
  }

  lemma FirstIsLowest(p: Version, rest: seq<Version>)
    requires Ascending(OffsetsOf(rest)) && forall q :: q in rest ==> p.offset < q.offset
    ensures Ascending(OffsetsOf([p] + rest))
  {
    forall i, j | 0 <= i < j < 1 + |rest|
      ensures OffsetsOf([p] + rest)[i] < OffsetsOf([p] + rest)[j]
    {
      assert ([p] + rest)[j] == rest[j - 1] && rest[j - 1] in rest;
      assert i > 0 ==> OffsetsOf(rest)[i - 1] < OffsetsOf(rest)[j - 1];
    }
  }

  /** Carver exactness, on any image. With no resident root page nothing is recovered. Otherwise
      recovery compares against the first-scanned page of the greatest root self block, at
      cluster `c`: it reports exactly the resident root pages with a smaller self block that
      hold a name that page lacks, each with exactly those names. Records come in ascending
      offset order. */
  ghost predicate IsExactRecovery(image: Buffer, out: seq<StalePage>) {
    && ((forall d: nat :: IsResident(image, d) ==> !PageOf(image, d).IsRoot()) ==> out == [])
    && ((exists d: nat :: IsResident(image, d) && PageOf(image, d).IsRoot()) ==>
          exists c: nat :: IsCurrentCluster(image, c) && IsExactly(image, c, out))
    && forall i, j :: 0 <= i < j < |out| ==> out[i].offset < out[j].offset
  }

  lemma RecoveryIsExact(image: Buffer)
    ensures IsExactRecovery(image, Residue(ResidentPages(image)))
  {
    hide IsResident, PagesFrom, Version.IsRoot, StaleOf, IsExactly, PageOf;
    var pages := ResidentPages(image);
    PagesFromExactly(image, 0);
    SomeCurrent(pages, |pages|);
    if k: nat :| IsCurrent(pages, |pages|, k) {
      ResidueAgainst(pages, k);
      var c := CurrentPageCluster(image, k);
      StaleOffsetsAscend(pages, pages[k]);
      StaleOfIsExactly(image, c);
    } else {
      forall d: nat | IsResident(image, d)
        ensures !PageOf(image, d).IsRoot()
      {
        assert ScannedFrom(image, 0, PageOf(image, d));
      }
    }
  }

  /** The current cluster is unique, so recovery is exact against any that qualifies. */
  lemma RecoveryAgainst(image: Buffer, c: nat)
    requires IsCurrentCluster(image, c)
    ensures IsExactly(image, c, Residue(ResidentPages(image)))
  {
    hide IsResident, IsExactly, PageOf, Residue, ResidentPages, Version.IsRoot;
    RecoveryIsExact(image);
    var d: nat :| IsCurrentCluster(image, d) && IsExactly(image, d, Residue(ResidentPages(image)));
  }

  ghost predicate IsExactly(image: Buffer, c: nat, out: seq<StalePage>)
    requires IsResident(image, c)
  {
    forall r :: r in out <==>
      exists d: nat :: IsResident(image, d) && IsStale(PageOf(image, d), PageOf(image, c))
        && r == RecordOf(PageOf(image, d), PageOf(image, c))
  }

  /** A resident page of the root directory. */
  ghost predicate IsRootPage(image: Buffer, d: nat) {
    IsResident(image, d) && U64At(image, d * 4096 + 72) == 0x600
  }

  /** The root page of the greatest self block, at the least cluster when several have it. */
  ghost predicate IsNewestPage(image: Buffer, c: nat) {
    && IsRootPage(image, c)
    && forall d: nat :: IsRootPage(image, d) ==>
      SelfBlock(image, d) <= SelfBlock(image, c) && (d < c ==> SelfBlock(image, d) < SelfBlock(image, c))
  }

  /** `r` is the record of the page at cluster `d` against the one at cluster `c`: of an older root page
      with names that page lacks, its block, its place and those names. */
  ghost predicate IsRecordAgainst(image: Buffer, c: nat, d: nat, r: StalePage)
    requires IsResident(image, c)
  {
    && IsRootPage(image, d) && SelfBlock(image, d) < SelfBlock(image, c)
    && r.selfBlock == SelfBlock(image, d) && r.tableId == 0x600 && r.offset == d * 4096
    && r.entries == Without(PageOf(image, d).names, PageOf(image, c).names) && r.entries != []
  }

  /** Recovery in terms of the image's own words. */
  ghost predicate IsFullRecovery(image: Buffer, out: seq<StalePage>) {
    && ((forall d: nat :: !IsRootPage(image, d)) ==> out == [])
    && ((exists d: nat :: IsRootPage(image, d)) ==>
          exists c: nat :: IsNewestPage(image, c)
            && forall r :: r in out <==> exists d: nat :: IsRecordAgainst(image, c, d, r))
  }

  lemma RootPageExactly(image: Buffer, d: nat)
    ensures IsRootPage(image, d) <==> IsResident(image, d) && PageOf(image, d).IsRoot()
    ensures IsRootPage(image, d) ==> PageOf(image, d).selfBlock == SelfBlock(image, d)
    ensures IsResident(image, d) ==> PageOf(image, d).offset == d * 4096
  {
    hide U64At, CarveDirectoryEntries;
    if IsResident(image, d) {
      SelfBlockOnPage(image, d);
      TableOnPage(image, d);
    }
  }

  lemma RecoveryIsFull(image: Buffer)
    ensures IsFullRecovery(image, Residue(ResidentPages(image)))
  {
    hide IsResident, PageOf, Residue, ResidentPages, SelfBlock, U64At, Without;
    RecoveryIsExact(image);
    var out := Residue(ResidentPages(image));
    forall d: nat
      ensures IsRootPage(image, d) <==> IsResident(image, d) && PageOf(image, d).IsRoot()
    {
      RootPageExactly(image, d);
    }
    if d: nat :| IsRootPage(image, d) {
      var c: nat :| IsCurrentCluster(image, c) && IsExactly(image, c, out);
      CurrentIsNewest(image, c);
      forall r
        ensures r in out <==> exists e: nat :: IsRecordAgainst(image, c, e, r)
      {
        if r in out {
          var e: nat :| IsResident(image, e) && IsStale(PageOf(image, e), PageOf(image, c))
            && r == RecordOf(PageOf(image, e), PageOf(image, c));
          RecordExactly(image, c, e, r);
        }
        if e: nat :| IsRecordAgainst(image, c, e, r) { RecordExactly(image, c, e, r); }
      }
    }
  }

  lemma CurrentIsNewest(image: Buffer, c: nat)
    requires IsCurrentCluster(image, c)
    ensures IsNewestPage(image, c)
  {
    hide PageOf, SelfBlock, U64At;
    RootPageExactly(image, c);
    forall d: nat | IsRootPage(image, d)
      ensures SelfBlock(image, d) <= SelfBlock(image, c) && (d < c ==> SelfBlock(image, d) < SelfBlock(image, c))
    {
      RootPageExactly(image, d);
    }
  }

  lemma RecordExactly(image: Buffer, c: nat, d: nat, r: StalePage)
    requires IsNewestPage(image, c)
    ensures IsResident(image, c)
    ensures IsRecordAgainst(image, c, d, r) <==>
      && IsResident(image, d) && IsStale(PageOf(image, d), PageOf(image, c))
      && r == RecordOf(PageOf(image, d), PageOf(image, c))
  {
    hide PageOf, SelfBlock, U64At, Without;
    RootPageExactly(image, c);
    RootPageExactly(image, d);
  }

  lemma StaleOfIsExactly(image: Buffer, c: nat)
    requires IsResident(image, c)
    ensures IsExactly(image, c, StaleOf(ResidentPages(image), PageOf(image, c)))
  {
    hide IsResident, PagesFrom, IsStale, RecordOf, Version.IsRoot, StaleOf;
    var pages, cur := ResidentPages(image), PageOf(image, c);
    var out := StaleOf(pages, cur);
    PagesFromExactly(image, 0);
    forall r
      ensures r in out <==>
        exists d: nat :: IsResident(image, d) && IsStale(PageOf(image, d), cur) && r == RecordOf(PageOf(image, d), cur)
    {
      StaleOfExactly(pages, cur, r);
      if j :| 0 <= j < |pages| && IsStale(pages[j], cur) && RecordOf(pages[j], cur) == r {
        assert ScannedFrom(image, 0, pages[j]);
      }
      if d: nat :| IsResident(image, d) && IsStale(PageOf(image, d), cur) && r == RecordOf(PageOf(image, d), cur) {
        assert ScannedFrom(image, 0, PageOf(image, d));
        var j :| 0 <= j < |pages| && pages[j] == PageOf(image, d);
      }
    }
  }

  /** Cluster `c` holds the current root page: no root page has a greater self block, and none
      at a lower cluster has an equal one. */
  ghost predicate IsCurrentCluster(image: Buffer, c: nat) {
    && IsResident(image, c) && PageOf(image, c).IsRoot()
    && forall d: nat :: IsResident(image, d) && PageOf(image, d).IsRoot() ==>
      && PageOf(image, d).selfBlock <= PageOf(image, c).selfBlock
      && (d < c ==> PageOf(image, d).selfBlock < PageOf(image, c).selfBlock)
  }

  lemma CurrentPageCluster(image: Buffer, k: nat) returns (c: nat)
    requires IsCurrent(ResidentPages(image), |ResidentPages(image)|, k)
    ensures IsCurrentCluster(image, c) && PageOf(image, c) == ResidentPages(image)[k]
  {
    hide IsResident, PagesFrom, Version.IsRoot;
    var pages := ResidentPages(image);
    PagesFromExactly(image, 0);
    assert ScannedFrom(image, 0, pages[k]);
    c :| IsResident(image, c) && PageOf(image, c) == pages[k];
    forall d: nat | IsResident(image, d) && PageOf(image, d).IsRoot()
      ensures PageOf(image, d).selfBlock <= PageOf(image, c).selfBlock
      ensures d < c ==> PageOf(image, d).selfBlock < PageOf(image, c).selfBlock
    {
      assert ScannedFrom(image, 0, PageOf(image, d));
      var j :| 0 <= j < |pages| && pages[j] == PageOf(image, d);
      assert k < j ==> OffsetsOf(pages)[k] < OffsetsOf(pages)[j];
    }
  }

  /** A root page among the first `n` means a current one. */
  lemma {:induction false} SomeCurrent(pages: seq<Version>, n: nat)
    requires n <= |pages|
    ensures (exists j :: 0 <= j < n && pages[j].IsRoot()) ==> exists k: nat :: IsCurrent(pages, n, k)
  {
    hide Version.IsRoot;
    if n > 0 {
      var m := n - 1;
      SomeCurrent(pages, m);
      if k: nat :| IsCurrent(pages, m, k) {
        if pages[m].IsRoot() && pages[m].selfBlock > pages[k].selfBlock {
          assert IsCurrent(pages, n, m);
        } else {
          assert IsCurrent(pages, n, k);
        }
      } else if pages[m].IsRoot() {
        assert IsCurrent(pages, n, m);
      }
    }
  }

  // ---- Order and stability ----------------------------------------------------------------

  lemma {:induction false} StaleOfConcat(a: seq<Version>, b: seq<Version>, current: Version)
    ensures StaleOf(a + b, current) == StaleOf(a, current) + StaleOf(b, current)
  {
    hide IsStale, RecordOf;
    if a == [] {
      assert a + b == b;
    } else {
      assert (a + b)[1..] == a[1..] + b;
      StaleOfConcat(a[1..], b, current);
    }
  }

  lemma {:induction false} StaleOfPermuted(p: seq<Version>, q: seq<Version>, current: Version)
    requires multiset(p) == multiset(q)
    ensures multiset(StaleOf(p, current)) == multiset(StaleOf(q, current))
    decreases |p|
  {
    hide IsStale, RecordOf, StaleOf;
    if p == [] {
      assert |multiset(q)| == 0;
      assert q == [];
    } else {
      var i := FindAgain(p, q);
      var a, b := q[..i], q[i + 1..];
      StaleOfPermuted(p[1..], a + b, current);
      assert p == [] + [p[0]] + p[1..] && q == a + [q[i]] + b && [] + p[1..] == p[1..];
      StaleOfInsertedCounts(a, q[i], b, current);
      StaleOfInsertedCounts([], p[0], p[1..], current);
    }
  }

  /** The first element of `p` sits somewhere in its permutation `q`; without it both agree. */
  lemma FindAgain<T>(p: seq<T>, q: seq<T>) returns (i: nat)
    requires p != [] && multiset(p) == multiset(q)
    ensures i < |q| && q[i] == p[0] && multiset(p[1..]) == multiset(q[..i] + q[i + 1..])
  {
    assert p == [p[0]] + p[1..];
    assert p[0] in multiset(q);
    i :| 0 <= i < |q| && q[i] == p[0];
    assert q == q[..i] + [q[i]] + q[i + 1..];
    assert multiset(q) == multiset(q[..i]) + multiset([q[i]]) + multiset(q[i + 1..]);
    assert multiset(p[1..]) == multiset(p) - multiset([p[0]]);
  }

  lemma StaleOfInsertedCounts(a: seq<Version>, x: Version, b: seq<Version>, current: Version)
    ensures multiset(StaleOf(a + [x] + b, current)) ==
      multiset(StaleOf(a + b, current)) + multiset(if IsStale(x, current) then [RecordOf(x, current)] else [])
  {
    hide IsStale, RecordOf, StaleOf;
    StaleOfInserted(a, x, b, current);
  }

  lemma StaleOfInserted(a: seq<Version>, x: Version, b: seq<Version>, current: Version)
    ensures StaleOf(a + [x] + b, current) ==
      StaleOf(a, current) + (if IsStale(x, current) then [RecordOf(x, current)] else []) + StaleOf(b, current)
    ensures StaleOf(a + b, current) == StaleOf(a, current) + StaleOf(b, current)
  {
    hide IsStale, RecordOf;
    StaleOfConcat(a, b, current);
    StaleOfConcat(a + [x], b, current);
    StaleOfConcat(a, [x], current);
    assert [x][1..] == [];
  }

  /** Page `i` is a root page of the greatest self block; several may tie. */
  ghost predicate IsNewest(pages: seq<Version>, i: nat) {
    && i < |pages| && pages[i].IsRoot()
    && forall j :: 0 <= j < |pages| && pages[j].IsRoot() ==> pages[j].selfBlock <= pages[i].selfBlock
  }

  /** Scanning the same pages in any other order permutes the records and changes none. */
  ghost predicate OrderIndependent(pages: seq<Version>) {
    forall q :: multiset(q) == multiset(pages) ==> multiset(Residue(q)) == multiset(Residue(pages))
  }

  /** The pages that tie for the greatest self block leave the same records. */
  ghost predicate TiesAgree(pages: seq<Version>) {
    forall i: nat, j: nat :: IsNewest(pages, i) && IsNewest(pages, j) ==>
      multiset(StaleOf(pages, pages[i])) == multiset(StaleOf(pages, pages[j]))
  }

  /** Order independence, exactly: scan order does not matter if and only if all root pages of the
      greatest self block leave the same records. */
  lemma OrderIndependentIff(pages: seq<Version>)
    ensures OrderIndependent(pages) <==> TiesAgree(pages)
  {
    hide StaleOf, Residue, Version.IsRoot;
    if OrderIndependent(pages) {
      forall i: nat, j: nat | IsNewest(pages, i) && IsNewest(pages, j)
        ensures multiset(StaleOf(pages, pages[i])) == multiset(StaleOf(pages, pages[j]))
      {
        var a := ScannedFirst(pages, i);
        var b := ScannedFirst(pages, j);
      }
    }
    if TiesAgree(pages) {
      forall q | multiset(q) == multiset(pages)
        ensures multiset(Residue(q)) == multiset(Residue(pages))
      {
        SameResidue(pages, q);
      }
    }
  }

  /** Of the pages that tie, the one scanned first decides. */
  lemma ScannedFirst(pages: seq<Version>, i: nat) returns (q: seq<Version>)
    requires IsNewest(pages, i)
    ensures multiset(q) == multiset(pages) && multiset(Residue(q)) == multiset(StaleOf(pages, pages[i]))
  {
    hide StaleOf, Version.IsRoot, Residue;
    var others := pages[..i] + pages[i + 1..];
    q := [pages[i]] + others;
    assert pages == pages[..i] + [pages[i]] + pages[i + 1..];
    assert forall p :: p in others ==> p in pages;
    assert IsCurrent(q, |q|, 0);
    ResidueAgainst(q, 0);
    StaleOfPermuted(q, pages, pages[i]);
  }

  lemma NewestAgain(pages: seq<Version>, q: seq<Version>, m: nat) returns (i: nat)
    requires multiset(q) == multiset(pages) && IsNewest(q, m)
    ensures IsNewest(pages, i) && pages[i] == q[m]
  {
    hide Version.IsRoot;
    assert q[m] in multiset(pages);
    i :| 0 <= i < |pages| && pages[i] == q[m];
    forall j | 0 <= j < |pages| && pages[j].IsRoot()
      ensures pages[j].selfBlock <= pages[i].selfBlock
    {
      assert pages[j] in multiset(q);
      var k :| 0 <= k < |q| && q[k] == pages[j];
    }
  }

  /** The residue is what some newest page leaves, or nothing when there is no root page. */
  lemma NewestDecides(pages: seq<Version>) returns (k: nat)
    ensures (exists i: nat :: IsNewest(pages, i)) ==> IsNewest(pages, k) && Residue(pages) == StaleOf(pages, pages[k])
    ensures (forall i: nat :: !IsNewest(pages, i)) ==> Residue(pages) == []
  {
    hide StaleOf, Version.IsRoot;
    SomeCurrent(pages, |pages|);
    k := 0;
    if m: nat :| IsCurrent(pages, |pages|, m) {
      k := m;
      ResidueAgainst(pages, m);
      assert IsNewest(pages, m);
    } else {
      assert forall i: nat :: !IsNewest(pages, i);
    }
  }

  lemma SameResidue(pages: seq<Version>, q: seq<Version>)
    requires multiset(q) == multiset(pages) && TiesAgree(pages)
    ensures multiset(Residue(q)) == multiset(Residue(pages))
  {
    hide StaleOf, Residue, Version.IsRoot;
    var k := NewestDecides(pages);
    var m := NewestDecides(q);
    if i: nat :| IsNewest(pages, i) {
      var again := NewestAgain(q, pages, i);
      var j := NewestAgain(pages, q, m);
      StaleOfPermuted(q, pages, q[m]);
    } else {
      forall j: nat
        ensures !IsNewest(q, j)
      {
        if IsNewest(q, j) { var i := NewestAgain(pages, q, j); }
      }
    }
  }

  /** Page `k` alone has the greatest self block of the root pages. */
  ghost predicate OnlyCurrent(pages: seq<Version>, k: nat) {
    && k < |pages| && pages[k].IsRoot()
    && forall j :: 0 <= j < |pages| && j != k && pages[j].IsRoot() ==> pages[j].selfBlock < pages[k].selfBlock
  }

  /** So order does not matter when one page alone has the greatest self block. */
  lemma OrderDoesNotMatter(p: seq<Version>, k: nat)
    requires OnlyCurrent(p, k)
    ensures OrderIndependent(p)
  {
    hide StaleOf, OrderIndependent;
    OrderIndependentIff(p);
  }

  /** Two root pages that tie, and an older one. The first of the two decides what is recovered, so
      scan order matters unless both have dropped the same names of the older page. */
  lemma TieOfTwo(a: Version, b: Version, older: Version)
    requires a.IsRoot() && b.IsRoot() && older.IsRoot() && older.selfBlock < a.selfBlock == b.selfBlock
    ensures Residue([a, b, older]) == if Dropped(older, a) == [] then [] else [RecordOf(older, a)]
    ensures OrderIndependent([a, b, older]) <==> Dropped(older, a) == Dropped(older, b)
  {
    hide StaleOf, Dropped, OrderIndependent;
    var pages := [a, b, older];
    ResidueAgainst(pages, 0);
    OneStale(a, b, older, a);
    OneStale(a, b, older, b);
    OrderIndependentIff(pages);
    assert IsNewest(pages, 0) && IsNewest(pages, 1) && forall i: nat :: IsNewest(pages, i) ==> i < 2;
    assert TiesAgree(pages) <==> multiset(StaleOf(pages, a)) == multiset(StaleOf(pages, b));
    OneRecord(older, a, b);
  }

  lemma OneRecord(older: Version, a: Version, b: Version)
    requires older.IsRoot() && older.selfBlock < a.selfBlock == b.selfBlock
    ensures multiset(if IsStale(older, a) then [RecordOf(older, a)] else [])
         == multiset(if IsStale(older, b) then [RecordOf(older, b)] else [])
      <==> Dropped(older, a) == Dropped(older, b)
  {
    hide Dropped, Version.IsRoot;
    var r, t := RecordOf(older, a), RecordOf(older, b);
    assert multiset([r])[r] == 1 && multiset([t])[r] == (if r == t then 1 else 0) && multiset([t])[t] == 1;
  }

  lemma OneStale(a: Version, b: Version, c: Version, current: Version)
    requires !IsStale(a, current) && !IsStale(b, current)
    ensures StaleOf([a, b, c], current) == if IsStale(c, current) then [RecordOf(c, current)] else []
  {
    hide IsStale, RecordOf;
    StaleOfInserted([], a, [b, c], current);
    StaleOfInserted([], b, [c], current);
    StaleOfInserted([], c, [], current);
    assert [] + [a] + [b, c] == [a, b, c] && [] + [b] + [c] == [b, c] && [] + [c] + [] == [c];
  }

  /** Stability: one more page, older than the current version or not a root page, adds at
      most its own record, in its place, and changes no other. */
  lemma OlderPageAddsOnlyItself(pages: seq<Version>, k: nat, at: nat, p: Version)
    requires IsCurrent(pages, |pages|, k) && at <= |pages|
    requires p.IsRoot() ==> p.selfBlock < pages[k].selfBlock
    ensures var front, back := StaleOf(pages[..at], pages[k]), StaleOf(pages[at..], pages[k]);
      && Residue(pages) == front + back
      && Residue(pages[..at] + [p] + pages[at..])
         == front + (if IsStale(p, pages[k]) then [RecordOf(p, pages[k])] else []) + back
  {
    hide IsStale, RecordOf, IsCurrent, StaleOf, Version.IsRoot, Residue;
    ResidueAgainst(pages, k);
    StillCurrent(pages, k, at, p);
    ResidueAgainst(pages[..at] + [p] + pages[at..], if k < at then k else k + 1);
    assert pages == pages[..at] + pages[at..];
    StaleOfInserted(pages[..at], p, pages[at..], pages[k]);
  }

  lemma StillCurrent(pages: seq<Version>, k: nat, at: nat, p: Version)
    requires IsCurrent(pages, |pages|, k) && at <= |pages|
    requires p.IsRoot() ==> p.selfBlock < pages[k].selfBlock
    ensures var longer, m := pages[..at] + [p] + pages[at..], if k < at then k else k + 1;
      IsCurrent(longer, |longer|, m) && longer[m] == pages[k]
  {
    hide Version.IsRoot;
    var longer, m := pages[..at] + [p] + pages[at..], if k < at then k else k + 1;
    forall j | 0 <= j < |longer| && longer[j].IsRoot()
      ensures longer[j].selfBlock <= longer[m].selfBlock
      ensures j < m ==> longer[j].selfBlock < longer[m].selfBlock
    {
      if j < at {
        assert longer[j] == pages[j];
      } else if j > at {
        assert longer[j] == pages[j - 1];
      }
    }
  }
}
