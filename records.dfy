/**
 * The values `extract_frames` keeps in its `keeped_frames` list and the
 * frames it reads. The pixel buffer is a type parameter: nothing in the
 * selection ever looks inside it.
 */
module Records {

  /** A decoded frame: its position in the stream (cap.get(1) before the read) and its pixels. */
  datatype Frame<P> = Frame(number: nat, pixels: P)

  /**
   * One `(key, frame_number, frame)` tuple of `keeped_frames`: the key is the
   * reservoir slot tag in random mode and the motion score in flow mode.
   */
  datatype Record<P> = Record(key: int, number: nat, pixels: P)

  /** Frame numbers strictly increase along the stream, as the decoder's positions do. */
  ghost predicate Increasing<P>(stream: seq<Frame<P>>)
  {
    forall i, j :: 0 <= i < j < |stream| ==> stream[i].number < stream[j].number
  }

  /** No two records carry the same frame number. */
  ghost predicate DistinctNumbers<P>(rs: seq<Record<P>>)
  {
    forall i, j :: 0 <= i < j < |rs| ==> rs[i].number != rs[j].number
  }
}
