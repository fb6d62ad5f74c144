/** The virtual-to-physical base map bootstrapped from resident pages
    (core/src/container.rs). */
module Container {
  import opened Wrappers
  import opened Bytes
  import opened Layout

  /** Container index and offset in the container; a zero band passes the block through. */
  function Decompose(vblock: U64, bandClusters: U64): (r: (U64, U64))
    ensures r.1 <= bandClusters && r.1 <= vblock
  {
    if bandClusters == 0 then (vblock, 0) else
    DivisionBounds(vblock, bandClusters);
    (vblock / bandClusters, vblock % bandClusters)
  }

  /** The decomposition is exact: index and offset name the block, and only it. */
  lemma DecomposeExactly(vblock: U64, bandClusters: U64)
    ensures var r := Decompose(vblock, bandClusters);
      && (bandClusters > 0 ==> vblock == r.0 * bandClusters + r.1 && r.1 < bandClusters)
      && (bandClusters == 0 ==> r == (vblock, 0))
  {
    if bandClusters > 0 { DivisionBounds(vblock, bandClusters); }
  }

  lemma DivisionBounds(n: nat, d: nat)
    requires d > 0
    ensures n == (n / d) * d + n % d && 0 <= n / d <= n && 0 <= n % d < d
  {
    var q := n / d;
    assert n == q * d + n % d;
    if q < 0 { ProductAtLeast(-q, d); }
    if q > n { ProductAtLeast(q, d); }
  }

  lemma ProductAtLeast(q: int, d: int)
    requires q >= 1 && d >= 1
    ensures q * d >= q && q * d >= d
    ensures (-q) * d == -(q * d)
  {
    assert (q - 1) * d >= 0;
    assert q * (d - 1) >= 0;
  }

  type BaseMap = seq<(U64, U64)>

  /** First entry for container `index`. */
  function BaseOf(base: BaseMap, index: U64): Option<U64> {
    if base == [] then None
    else if base[0].0 == index then Some(base[0].1)
    else BaseOf(base[1..], index)
  }

  predicate HasKey(base: BaseMap, index: U64) {
    exists k :: 0 <= k < |base| && base[k].0 == index
  }

  datatype Resolver = Resolver(bandClusters: U64, base: BaseMap) {

    function ResolveVirtual(vblock: U64): Option<nat> {
      var (idx, off) := Decompose(vblock, bandClusters);
      var b :- BaseOf(base, idx);
      var cluster :- CheckedAdd(b, off);
      CheckedMul(cluster, CLUSTER_SIZE)
    }

    function ResolveVirtualChecked(vblock: U64): Result<nat> {
      match ResolveVirtual(vblock)
      case Some(off) => Success(off)
      case None => Failure(UnresolvedVirtualBlock(vblock))
    }

    /** Every offset this resolver can name leaves room for a page below `USIZE_MAX`. */
    ghost predicate InRange() {
      forall k :: 0 <= k < |base| ==> (base[k].1 + bandClusters) * CLUSTER_SIZE + PAGE_SIZE <= USIZE_MAX
    }
  }

  // ---- The scan ----------------------------------------------------------------

  /** Cluster `c` gives evidence for the base of container `index`. */
  predicate Witness(image: Buffer, band: U64, c: nat, index: U64)
    requires band > 0
  {
    && IsResident(image, c)
    && Decompose(SelfBlock(image, c), band).0 == index
    && Decompose(SelfBlock(image, c), band).1 <= c
  }

  /** The base map after the first `n` clusters: the first witness of each container counts. */
  ghost function Scan(image: Buffer, band: U64, n: nat): BaseMap
    requires band > 0 && n <= |image| / CLUSTER_SIZE
  {
    if n == 0 then [] else
    var c, base := n - 1, Scan(image, band, n - 1);
    if !IsResident(image, c) then base else
    var (idx, off) := Decompose(SelfBlock(image, c), band);
    if off > c || HasKey(base, idx) then base else base + [(idx, c - off)]
  }

  ghost function ScannedResolver(image: Buffer, band: U64): Resolver {
    Resolver(band, if band == 0 then [] else Scan(image, band, |image| / CLUSTER_SIZE))
  }

  /** Once one page does not fit, no later one does: stopping there loses nothing. */
  lemma {:induction false} ScanAfterLastPage(image: Buffer, band: U64, n: nat, m: nat)
    requires band > 0 && n <= m <= |image| / CLUSTER_SIZE
    requires n * CLUSTER_SIZE + PAGE_SIZE > |image|
    ensures Scan(image, band, m) == Scan(image, band, n)
    decreases m - n
  {
    if n < m { ScanAfterLastPage(image, band, n, m - 1); }
  }

  method FromResidentImage(image: Buffer, band: U64) returns (r: Resolver)
    ensures r == ScannedResolver(image, band)
  {
    var base: BaseMap := [];
    if band == 0 {
      return Resolver(band, base);
    }
    var clusters := |image| / CLUSTER_SIZE;
    for c := 0 to clusters
      invariant base == Scan(image, band, c)
    {
      var off := c * CLUSTER_SIZE;
      if off + PAGE_SIZE > |image| {
        ScanAfterLastPage(image, band, c, clusters);
        return Resolver(band, base);
      }
      if image[off..off + 4] != MSB_SIGNATURE {
        continue;
      }
      var selfBlock := U64At(image, off + SELF_BLOCK_OFFSET);
      var (idx, offInBand) := Decompose(selfBlock, band);
      var bandBase := CheckedSub(c, offInBand);
      if bandBase.None? {
        continue;
      }
      if !HasKey(base, idx) {
        base := base + [(idx, bandBase.value)];
      }
    }
    return Resolver(band, base);
  }

  lemma {:induction false} BaseOfAppend(base: BaseMap, e: (U64, U64), index: U64)
    ensures BaseOf(base + [e], index) ==
      if BaseOf(base, index).Some? then BaseOf(base, index) else if e.0 == index then Some(e.1) else None
    ensures BaseOf(base, index).Some? <==> HasKey(base, index)
  {
    if base != [] {
      BaseOfAppend(base[1..], e, index);
      assert (base + [e])[1..] == base[1..] + [e];
      if HasKey(base[1..], index) {
        var k :| 0 <= k < |base[1..]| && base[1..][k].0 == index;
        assert base[k + 1].0 == index;
      }
    }
  }

  ghost predicate FirstWitness(image: Buffer, band: U64, n: nat, c: nat, index: U64)
    requires band > 0
  {
    c < n && Witness(image, band, c, index) && forall c' :: 0 <= c' < c ==> !Witness(image, band, c', index)
  }

  /** The base cluster that the page at cluster `c` implies for its container. */
  function ImpliedBase(image: Buffer, band: U64, c: nat): U64
    requires band > 0 && IsResident(image, c) && Decompose(SelfBlock(image, c), band).1 <= c
  {
    c - Decompose(SelfBlock(image, c), band).1
  }

  /** What the scan computes: a container has no base exactly when no cluster witnesses it,
      and otherwise its base is read off its least witnessing cluster. */
  lemma {:induction false} ScanSpecification(image: Buffer, band: U64, n: nat, index: U64)
    requires band > 0 && n <= |image| / CLUSTER_SIZE
    ensures BaseOf(Scan(image, band, n), index).None? <==>
      forall c: nat :: c < n ==> !Witness(image, band, c, index)
    ensures BaseOf(Scan(image, band, n), index).Some? ==>
      exists c: nat :: FirstWitness(image, band, n, c, index)
    ensures forall c: nat :: FirstWitness(image, band, n, c, index) ==>
      BaseOf(Scan(image, band, n), index) == Some(ImpliedBase(image, band, c))
  {
    hide Decompose, IsResident, SelfBlock, BaseOf;
    if n > 0 {
      var c, base := n - 1, Scan(image, band, n - 1);
      ScanSpecification(image, band, c, index);
      ScanStep(image, band, c, index);
      if BaseOf(base, index).Some? {
        var w: nat :| FirstWitness(image, band, c, w, index);
        assert FirstWitness(image, band, n, w, index);
      } else if Witness(image, band, c, index) {
        assert FirstWitness(image, band, n, c, index);
      }
      forall w: nat | FirstWitness(image, band, n, w, index)
        ensures BaseOf(Scan(image, band, n), index) == Some(ImpliedBase(image, band, w))
      {
        if w < c { assert FirstWitness(image, band, c, w, index); }
      }
    } else {
      assert BaseOf([], index).None? by { BaseOfNothing(index); }
    }
  }

  lemma BaseOfNothing(index: U64)
    ensures BaseOf([], index).None?
  {
  }

  /** One more cluster changes the answer for a container only if it is its first witness. */
  lemma ScanStep(image: Buffer, band: U64, c: nat, index: U64)
    requires band > 0 && c < |image| / CLUSTER_SIZE
    ensures var before := BaseOf(Scan(image, band, c), index);
      BaseOf(Scan(image, band, c + 1), index) ==
        if before.None? && Witness(image, band, c, index) then Some(ImpliedBase(image, band, c)) else before
  {
    hide Decompose, SelfBlock;
    var base := Scan(image, band, c);
    if IsResident(image, c) {
      var (idx, off) := Decompose(SelfBlock(image, c), band);
      BaseOfAppend(base, (idx, if off <= c then c - off else 0), index);
    }
  }

  /** No container is recorded twice, and no base lies past the scanned clusters. */
  lemma {:induction false} ScanKeysUnique(image: Buffer, band: U64, n: nat)
    requires band > 0 && n <= |image| / CLUSTER_SIZE
    ensures forall j, k :: 0 <= j < k < |Scan(image, band, n)| ==>
      Scan(image, band, n)[j].0 != Scan(image, band, n)[k].0
    ensures forall k :: 0 <= k < |Scan(image, band, n)| ==> Scan(image, band, n)[k].1 < n
  {
    hide Decompose, SelfBlock, IsResident;
    if n > 0 { ScanKeysUnique(image, band, n - 1); }
  }

  /** On any image, a resolver scanned with a band of at most 2^50 clusters names only
      offsets that leave room for a page, and never fails on a container it has a base for. */
  lemma ScannedInRange(image: Buffer, band: U64)
    requires 0 < band <= 0x4_0000_0000_0000
    ensures ScannedResolver(image, band).InRange()
  {
    hide Scan;
    ScanKeysUnique(image, band, |image| / CLUSTER_SIZE);
  }

  lemma {:induction false} BaseOfMember(base: BaseMap, index: U64)
    ensures BaseOf(base, index).Some? ==>
      exists k :: 0 <= k < |base| && base[k] == (index, BaseOf(base, index).value)
  {
    if base != [] && base[0].0 != index {
      BaseOfMember(base[1..], index);
      if BaseOf(base, index).Some? {
        var k :| 0 <= k < |base[1..]| && base[1..][k] == (index, BaseOf(base, index).value);
        assert base[k + 1] == (index, BaseOf(base, index).value);
      }
    } else if base != [] {
      assert base[0] == (index, BaseOf(base, index).value);
    }
  }

  lemma WitnessBelowEnd(image: Buffer, band: U64, index: U64)
    requires band > 0
    ensures forall c: nat :: Witness(image, band, c, index) ==> c < |image| / CLUSTER_SIZE
  {
    hide Decompose, SelfBlock;
    forall c: nat | Witness(image, band, c, index)
      ensures c < |image| / CLUSTER_SIZE
    {
      ResidentBelowEnd(image, c);
    }
  }

  /** With a band of no clusters nothing translates. */
  lemma NoBandNoTranslation(image: Buffer, vblock: U64)
    ensures ScannedResolver(image, 0).ResolveVirtualChecked(vblock) == Failure(UnresolvedVirtualBlock(vblock))
  {
  }

  /** Translation through the map scanned from any image, whatever the band: a block whose
      container no resident page witnesses is reported, and any other lies at the first witness's
      base plus its offset in the container, unless that address is past 2^64, which it never is
      with bands of at most 2^50 clusters. */
  lemma ScannedTranslation(image: Buffer, band: U64, vblock: U64)
    requires band > 0
    ensures var (idx, off) := Decompose(vblock, band);
      var r := ScannedResolver(image, band).ResolveVirtualChecked(vblock);
      && ((forall c: nat :: !Witness(image, band, c, idx)) ==> r == Failure(UnresolvedVirtualBlock(vblock)))
      && (forall c: nat :: FirstWitness(image, band, |image| / CLUSTER_SIZE, c, idx) ==>
            var address := (ImpliedBase(image, band, c) + off) * CLUSTER_SIZE;
            r == if address <= USIZE_MAX then Success(address) else Failure(UnresolvedVirtualBlock(vblock)))
      && (r.Success? ==> exists c: nat :: FirstWitness(image, band, |image| / CLUSTER_SIZE, c, idx))
      && (band <= 0x4_0000_0000_0000 && r.Failure? ==> forall c: nat :: !Witness(image, band, c, idx))
  {
    hide Decompose, IsResident, SelfBlock, Scan, BaseOf, Witness;
    if band <= 0x4_0000_0000_0000 {
      ScannedInRange(image, band);
      ResolvesWitnessed(ScannedResolver(image, band), vblock);
      WitnessBelowEnd(image, band, Decompose(vblock, band).0);
    }
    ScanSpecification(image, band, |image| / CLUSTER_SIZE, Decompose(vblock, band).0);
  }

  /** With every nameable offset in range, resolution fails only for want of a base. */
  lemma ResolvesWitnessed(r: Resolver, vblock: U64)
    requires r.InRange()
    ensures var (idx, off) := Decompose(vblock, r.bandClusters);
      var b := BaseOf(r.base, idx);
      && r.ResolveVirtual(vblock) == (if b.Some? then Some((b.value + off) * CLUSTER_SIZE) else None)
      && (b.Some? ==> (b.value + off) * CLUSTER_SIZE + PAGE_SIZE <= USIZE_MAX)
  {
    BaseOfMember(r.base, Decompose(vblock, r.bandClusters).0);
  }
}
