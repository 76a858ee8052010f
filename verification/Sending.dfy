/** When a validator sends a proof or a partial signature. */
module Sending {
  import opened ByteStrings
  import opened Codec
  import opened Committees
  import opened AppData

  /** What the node reports about a block. */
  datatype Meta = Meta(blockID: Byte32, solid: bool, referencedByMilestoneIndex: uint32, shouldReattach: bool)

  /** A parent must be solid, not yet referenced, and not below max depth. */
  predicate ValidParent(meta: Meta) {
    meta.solid && meta.referencedByMilestoneIndex == 0 && !meta.shouldReattach
  }

  /** The callback of a block that became solid: the proof to broadcast, if any. */
  function ProcessParent(index: uint32, meta: Meta): Option<Tx> {
    if meta.referencedByMilestoneIndex == index then None
    else if !ValidParent(meta) then None
    else Some(Proof(index, meta.blockID))
  }

  /** A proof is made exactly for blocks that are solid, not referenced by any milestone and not below max depth, unless
      the index is 0: the node reports a block that is not referenced as one that the milestone 0 references. */
  lemma ProofIffValid(index: uint32, meta: Meta)
    ensures ProcessParent(index, meta).Some? <==>
      meta.solid && meta.referencedByMilestoneIndex == 0 && !meta.shouldReattach && index != 0
    ensures ProcessParent(index, meta).Some? ==> ProcessParent(index, meta).value == Proof(index, meta.blockID)
  {
  }

  /** The blocks for which EndBlock registers that callback. */
  ghost predicate Awaited(id: Byte32, a: App, b: Byte32) {
    && a.milestone.None?
    && (exists p :: p in a.parentByIssuer && a.parentByIssuer[p] == b)
    && id !in ProofIssuers(a, b)
  }

  /** Whether Commit broadcasts a partial signature of the member `id`. */
  predicate Signs(c: Committee, id: Byte32, a: App) {
    a.milestone.Some? && |a.signaturesByIssuer| < c.t && id !in a.signaturesByIssuer
  }
}
