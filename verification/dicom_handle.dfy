/** Ownership of the DICOM slide handle: a source made from another one
    (a styled view of it) shares the handle and must not close it; the
    owner closes it once when it is discarded
    (sources/dicom/large_image_source_dicom/__init__.py:237-245). */
module DicomHandle {
  import opened Wrappers

  /** An open handle is a number; `derived` marks a source sharing another
      source's handle. */
  datatype Source = Source(handle: Option<nat>, derived: bool)

  /** The effect of discarding a source: its new state and the handles it
      closed. */
  datatype Discard = Discard(after: Source, closed: seq<nat>)

  /** `__del__`: the owner of an open handle closes it and forgets it; any
      other source is left as it is. */
  function Del(s: Source): (r: Discard)
    ensures |r.closed| <= 1
    ensures |r.closed| == 1 <==> s.handle.Some? && !s.derived
    ensures |r.closed| == 1 ==> r.closed[0] == s.handle.value && r.after.handle.None?
    ensures |r.closed| == 0 ==> r.after == s
    ensures r.after.derived == s.derived
  {
    if s.handle.Some? && !s.derived then Discard(Source(None, s.derived), [s.handle.value])
    else Discard(s, [])
  }

  /** Discarding twice closes the handle at most once: the second discard
      finds nothing left to close. */
  lemma DelTwiceClosesOnce(s: Source)
    ensures Del(Del(s).after).closed == []
    ensures |Del(s).closed + Del(Del(s).after).closed| <= 1
  {
  }
}
