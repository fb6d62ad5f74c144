/** The page layout that the reader, the carver and the page writer share. */
module Layout {
  import opened Wrappers
  import opened Bytes

  /** A metadata page: 16 KiB, four clusters. */
  const PAGE_SIZE: nat := 16384
  const CLUSTER_SIZE: nat := 4096
  /** "MSB+". */
  const MSB_SIGNATURE: seq<Byte> := [0x4D, 0x53, 0x42, 0x2B]
  const SELF_BLOCK_OFFSET: nat := 0x20
  const TABLE_ID_OFFSET: nat := 72

  /** The full page at a byte offset. */
  function BlockAt(image: Buffer, offset: nat): Option<Buffer> {
    var end :- CheckedAdd(offset, PAGE_SIZE);
    if end <= |image| then Some(image[offset..end]) else None
  }

  /** A full in-bounds page with the Minstore signature starts at cluster `c`. */
  predicate IsResident(image: Buffer, c: nat) {
    && c * CLUSTER_SIZE + PAGE_SIZE <= |image|
    && image[c * CLUSTER_SIZE..c * CLUSTER_SIZE + 4] == MSB_SIGNATURE
  }

  /** The block number the page at cluster `c` records for itself. */
  function SelfBlock(image: Buffer, c: nat): U64
    requires c * CLUSTER_SIZE + PAGE_SIZE <= |image|
  {
    U64At(image, c * CLUSTER_SIZE + SELF_BLOCK_OFFSET)
  }

  lemma ResidentBelowEnd(image: Buffer, d: nat)
    ensures IsResident(image, d) ==> d < |image| / CLUSTER_SIZE
  {
  }
}
