/** Which records of the write-ahead log are valid, field by field. */
module WalValidity {
  import opened Base
  import opened Page
  import opened Wal

  /** An image is acceptable as a page, and as this one. */
  predicate ImageOf(images: Images, page: U64, image: PageBytes) {
    images.check(image, images.idOf(image)).Done? && images.idOf(image) == page
  }

  /** A record is valid exactly if: only checkpoint records have no transaction, and they have no
      predecessor; of the others exactly Begin has no predecessor; a predecessor is older; a page
      update carries an image, before or after or both, each of that page, and stamps the later one
      with its own LSN, as a compensation stamps its image; a resize changes the size; a checkpoint
      looks back only. */
  lemma ValidIff(images: Images, r: Record)
    ensures Validate(images, r).Done? <==>
              && (r.transaction.None? <==> r.payload.CheckpointBegin? || r.payload.CheckpointEnd?)
              && (r.previous.None? <==> r.payload.Begin? || r.payload.CheckpointBegin? || r.payload.CheckpointEnd?)
              && (r.previous.Some? ==> r.previous.value < r.lsn)
              && match r.payload
                 case PageUpdate(page, before, after) =>
                   && (before.Some? || after.Some?)
                   && (before.Some? ==> ImageOf(images, page, before.value))
                   && (after.Some? ==> ImageOf(images, page, after.value) && images.lsnOf(after.value) == r.lsn)
                 case Resize(before, after) => before != after
                 case Compensation(page, undo, _, _) =>
                   undo.Some? ==> ImageOf(images, page, undo.value) && images.lsnOf(undo.value) == r.lsn
                 case CheckpointBegin(active, dirty, _) =>
                   && (forall t | t in active :: active[t] < r.lsn)
                   && forall page | page in dirty :: dirty[page] < r.lsn
                 case CheckpointEnd(begin, _, durableLog, _) => begin < r.lsn && durableLog <= r.lsn
                 case _ => true
  {
  }
}
