/**
 * The frame-selection engine of `extract_frames` and `key_frames`
 * (annolid/data/videos.py). The decoder is replaced by a `Video` value:
 * the frames it returns in order (frame i sits at position i, which is
 * what cap.get(1) reports before reading it), the frame count of the
 * container and the key-frame indices. Motion scores and random draws
 * are inputs; file writes are returned as (file name, pixels) pairs.
 */
module Videos {

  import opened Wrappers
  import opened Records
  import opened Reservoir
  import opened MotionTopK
  import opened VideoFiles

  /** The `algo` argument: the three modes it names, and any other string. */
  datatype Algo = Flow | Random | Keyframes | Other

  /** `start_seconds` and `end_seconds`, present only when `sub_clip` is set and both are given. */
  datatype Span = Span(start: int, end: int)

  /** What the decoder reports for the file that is opened. */
  datatype Video<P> = Video(frames: seq<P>, frameCount: int, keyIndices: seq<nat>)

  /** One cv2.imwrite call: the file name and the pixels written. */
  datatype Written<P> = Written(file: string, pixels: P)

  /** decord returns valid key-frame indices in increasing order. */
  predicate KeyIndicesValid<P>(video: Video<P>)
  {
    && (forall i :: 0 <= i < |video.keyIndices| ==> video.keyIndices[i] < |video.frames|)
    && (forall i, j :: 0 <= i < j < |video.keyIndices| ==> video.keyIndices[i] < video.keyIndices[j])
  }

  /** No file is written twice. */
  predicate DistinctFiles<P>(written: seq<Written<P>>)
  {
    forall i, j :: 0 <= i < j < |written| ==> written[i].file != written[j].file
  }

  // ---- the budget ----

  /** The outcome of the checks on `num_frames`: return at once, return after the first frame, or scan with budget k. */
  datatype Budget = Invalid | FirstOnly | Working(k: int)

  function CheckBudget(numFrames: int, frameCount: int, keepFirst: bool): (b: Budget)
    ensures b == Invalid <==> numFrames < -1 || numFrames > frameCount
    ensures b == FirstOnly <==> -1 <= numFrames <= frameCount && numFrames == 1
    ensures b.Working? ==> -1 <= b.k <= frameCount && b.k != 1
    ensures b.Working? && keepFirst && numFrames > 2 ==> b.k == numFrames - 1
    ensures b.Working? && !(keepFirst && numFrames > 2) ==> b.k == numFrames
  {
    if numFrames < -1 || numFrames > frameCount then Invalid
    else if numFrames == 1 then FirstOnly
    else if numFrames > 2 && keepFirst then Working(numFrames - 1)
    else Working(numFrames)
  }

  // ---- the stream ----

  /** The frames the `while ret` loop reads: all but the first, which was read before the loop. */
  function Arrivals<P>(frames: seq<P>): (s: seq<Frame<P>>)
    ensures |s| == if frames == [] then 0 else |frames| - 1
    ensures forall i :: 0 <= i < |s| ==> s[i] == Frame(i + 1, frames[i + 1])
    ensures Increasing(s)
  {
    if frames == [] then []
    else seq(|frames| - 1, i requires 0 <= i < |frames| - 1 => Frame(i + 1, frames[i + 1]))
  }

  // ---- keep-all mode ----

  /** The files of keep-all mode: each frame read in the loop, under its own number. */
  function FrameWrites<P>(dir: string, arrivals: seq<Frame<P>>): (w: seq<Written<P>>)
    ensures |w| == |arrivals|
  {
    seq(|arrivals|, i requires 0 <= i < |arrivals| => Written(FrameFileName(dir, arrivals[i].number), arrivals[i].pixels))
  }

  /** num_frames == -1: every frame read is written at once, nothing is kept. */
  method KeepAll<P>(dir: string, arrivals: seq<Frame<P>>) returns (written: seq<Written<P>>)
    ensures written == FrameWrites(dir, arrivals)
  {
    written := [];
    var i := 0;
    while i < |arrivals|
      invariant i <= |arrivals| && written == FrameWrites(dir, arrivals[..i])
    {
      written := written + [Written(FrameFileName(dir, arrivals[i].number), arrivals[i].pixels)];
      i := i + 1;
    }
    assert arrivals[..i] == arrivals;
  }

  // ---- random mode ----

  /** The reservoir loop: each frame read is offered with its draw `draws[ki]` from [0, ki]. */
  method SampleRandom<P>(arrivals: seq<Frame<P>>, draws: seq<nat>, k: int) returns (kept: seq<Record<P>>)
    requires |draws| == |arrivals| && forall i :: 0 <= i < |draws| ==> draws[i] <= i
    ensures kept == Sample(arrivals, draws, k)
  {
    var sampler := new Sampler<P>(k);
    var i := 0;
    while i < |arrivals|
      invariant i <= |arrivals| && sampler.Valid() && sampler.capacity == k
      invariant sampler.ki == i && sampler.stream == arrivals[..i] && sampler.draws == draws[..i]
    {
      sampler.Offer(arrivals[i].number, arrivals[i].pixels, draws[i]);
      assert arrivals[..i + 1] == arrivals[..i] + [arrivals[i]];
      assert draws[..i + 1] == draws[..i] + [draws[i]];
      i := i + 1;
    }
    assert arrivals[..i] == arrivals && draws[..i] == draws;
    kept := sampler.slots;
  }

  // ---- flow mode ----

  /**
   * The `(q_score, frame_number, frame)` tuples flow mode offers to the
   * heap: one per frame read whose score could be computed (`scores[i]`
   * is None when the scoring raised and the frame was skipped).
   */
  function Scored<P>(arrivals: seq<Frame<P>>, scores: seq<Option<nat>>): (r: seq<Record<P>>)
    requires |scores| == |arrivals|
    ensures |r| <= |arrivals|
    decreases |arrivals|
  {
    if arrivals == [] then []
    else
      var n := |arrivals| - 1;
      Scored(arrivals[..n], scores[..n]) +
        (match scores[n]
         case None => []
         case Some(q) => [Record(q, arrivals[n].number, arrivals[n].pixels)])
  }

  /** When every frame's score was computed, every frame is offered. */
  lemma {:induction false} ScoredAll<P>(arrivals: seq<Frame<P>>, scores: seq<Option<nat>>)
    requires |scores| == |arrivals|
    requires forall i :: 0 <= i < |scores| ==> scores[i].Some?
    ensures |Scored(arrivals, scores)| == |arrivals|
    decreases |arrivals|
  {
    if arrivals != [] {
      var n := |arrivals| - 1;
      assert forall i :: 0 <= i < n ==> scores[..n][i] == scores[i];
      ScoredAll(arrivals[..n], scores[..n]);
    }
  }

  /** A record is offered exactly when it is a frame read whose score was computed, with that score. */
  lemma {:induction false} ScoredMembers<P>(arrivals: seq<Frame<P>>, scores: seq<Option<nat>>, r: Record<P>)
    requires |scores| == |arrivals|
    ensures r in Scored(arrivals, scores) <==>
              exists i :: 0 <= i < |arrivals| && arrivals[i] == Frame(r.number, r.pixels) && scores[i] == Some(r.key)
    decreases |arrivals|
  {
    if arrivals != [] {
      var n := |arrivals| - 1;
      ScoredMembers(arrivals[..n], scores[..n], r);
      if r in Scored(arrivals, scores) && r !in Scored(arrivals[..n], scores[..n]) {
        assert arrivals[n] == Frame(r.number, r.pixels) && scores[n] == Some(r.key);
      }
      if exists i :: 0 <= i < |arrivals| && arrivals[i] == Frame(r.number, r.pixels) && scores[i] == Some(r.key) {
        var i :| 0 <= i < |arrivals| && arrivals[i] == Frame(r.number, r.pixels) && scores[i] == Some(r.key);
        if i < n {
          assert arrivals[..n][i] == arrivals[i] && scores[..n][i] == scores[i];
        }
      }
    }
  }

  /** One more frame read: its record is offered after the earlier ones when its score was computed. */
  lemma ScoredStep<P>(arrivals: seq<Frame<P>>, scores: seq<Option<nat>>, i: nat)
    requires |scores| == |arrivals| && i < |arrivals|
    ensures Scored(arrivals[..i + 1], scores[..i + 1]) ==
              Scored(arrivals[..i], scores[..i]) +
                (match scores[i]
                 case None => []
                 case Some(q) => [Record(q, arrivals[i].number, arrivals[i].pixels)])
  {
    assert arrivals[..i + 1][..i] == arrivals[..i] && scores[..i + 1][..i] == scores[..i];
  }

  /** Every record offered so far has a smaller frame number than the frame read next. */
  lemma ScoredBefore<P>(arrivals: seq<Frame<P>>, scores: seq<Option<nat>>, i: nat)
    requires |scores| == |arrivals| && i < |arrivals| && Increasing(arrivals)
    ensures forall r :: r in Scored(arrivals[..i], scores[..i]) ==> r.number < arrivals[i].number
  {
    forall r | r in Scored(arrivals[..i], scores[..i])
      ensures r.number < arrivals[i].number
    {
      ScoredMembers(arrivals[..i], scores[..i], r);
      var j :| 0 <= j < i && arrivals[..i][j] == Frame(r.number, r.pixels) && scores[..i][j] == Some(r.key);
      assert arrivals[j].number == r.number;
    }
  }

  /** The flow loop: frames whose score was computed go through heappush / heappushpop. */
  method SelectByMotion<P>(arrivals: seq<Frame<P>>, scores: seq<Option<nat>>, k: nat) returns (kept: seq<Record<P>>)
    requires |scores| == |arrivals| && Increasing(arrivals)
    ensures IsTopK(kept, Scored(arrivals, scores), k)
    ensures IsHeap(kept) && DistinctNumbers(kept)
  {
    var selector := new MotionSelector<P>(k);
    var i := 0;
    while i < |arrivals|
      invariant i <= |arrivals| && selector.Valid() && selector.capacity == k
      invariant selector.scored == Scored(arrivals[..i], scores[..i])
    {
      OfferIfScored(selector, arrivals, scores, i);
      i := i + 1;
    }
    assert arrivals[..i] == arrivals && scores[..i] == scores;
    kept := selector.heap;
  }

  /** One iteration of the flow loop: the i-th frame read is offered when its score was computed. */
  method OfferIfScored<P>(selector: MotionSelector<P>, arrivals: seq<Frame<P>>, scores: seq<Option<nat>>, i: nat)
    requires |scores| == |arrivals| && i < |arrivals| && Increasing(arrivals)
    requires selector.Valid() && selector.scored == Scored(arrivals[..i], scores[..i])
    modifies selector`heap, selector`scored
    ensures selector.Valid() && selector.scored == Scored(arrivals[..i + 1], scores[..i + 1])
  {
    ScoredStep(arrivals, scores, i);
    if scores[i].Some? {
      ScoredBefore(arrivals, scores, i);
      selector.Offer(scores[i].value, arrivals[i].number, arrivals[i].pixels);
    }
  }

  // ---- writing the kept frames ----

  /** The files of the final loop: each kept `(s, f, p)` as "<f:08>_<s>.jpg", in list order. */
  function KeptWrites<P>(dir: string, kept: seq<Record<P>>): (w: seq<Written<P>>)
    ensures |w| == |kept|
  {
    seq(|kept|, i requires 0 <= i < |kept| => KeptWrite(dir, kept[i]))
  }

  /** The file the final loop writes for one kept record. */
  function KeptWrite<P>(dir: string, r: Record<P>): Written<P>
  {
    Written(KeptFileName(dir, r.number, r.key), r.pixels)
  }

  method WriteKept<P>(dir: string, kept: seq<Record<P>>) returns (written: seq<Written<P>>)
    ensures written == KeptWrites(dir, kept)
  {
    ghost var all := KeptWrites(dir, kept);
    written := [];
    for i := 0 to |kept|
      invariant |written| == i
      invariant forall j :: 0 <= j < i ==> written[j] == all[j]
    {
      written := written + [KeptWrite(dir, kept[i])];
    }
  }

  // ---- key-frame mode ----

  /** The files of key_frames: exactly the key frames, each under its own index, in decoder order. */
  function KeyFrameWrites<P>(dir: string, keyIndices: seq<nat>, frames: seq<P>): (w: seq<Written<P>>)
    requires forall i :: 0 <= i < |keyIndices| ==> keyIndices[i] < |frames|
    ensures |w| == |keyIndices|
  {
    seq(|keyIndices|, i requires 0 <= i < |keyIndices| => Written(KeyFrameFileName(dir, keyIndices[i]), frames[keyIndices[i]]))
  }

  /**
   * key_frames: cuts the sub-clip when a span is given, then writes every
   * key frame of the file it opens. Returns the output directory, the
   * clip that was read and the files written.
   */
  method KeyFrames<P>(input: Clip, outDir: Option<string>, span: Option<Span>, video: Video<P>)
    returns (dir: string, clip: Clip, written: seq<Written<P>>)
    requires KeyIndicesValid(video)
    ensures span.None? ==> clip == input
    ensures span.Some? ==> clip == Cut(input, span.value.start, span.value.end)
    ensures dir == GetOr(outDir, KeyFramesOutDir(clip.path))
    ensures written == KeyFrameWrites(dir, video.keyIndices, video.frames)
    ensures DistinctFiles(written)
  {
    clip := input;
    if span.Some? {
      clip := Cut(input, span.value.start, span.value.end);
    }
    dir := if outDir.Some? then outDir.value else KeyFramesOutDir(clip.path);
    written := WriteKeyFrames(dir, video);
  }

  /** The `for key_idx in key_indices` loop of key_frames. */
  method WriteKeyFrames<P>(dir: string, video: Video<P>) returns (written: seq<Written<P>>)
    requires KeyIndicesValid(video)
    ensures written == KeyFrameWrites(dir, video.keyIndices, video.frames)
    ensures DistinctFiles(written)
  {
    written := [];
    for i := 0 to |video.keyIndices|
      invariant written == KeyFrameWrites(dir, video.keyIndices[..i], video.frames)
    {
      var ki := video.keyIndices[i];
      written := written + [Written(KeyFrameFileName(dir, ki), video.frames[ki])];
    }
    assert video.keyIndices[..|video.keyIndices|] == video.keyIndices;
    KeyFrameWritesDistinct(dir, video);
  }

  lemma KeyFrameWritesDistinct<P>(dir: string, video: Video<P>)
    requires KeyIndicesValid(video)
    ensures DistinctFiles(KeyFrameWrites(dir, video.keyIndices, video.frames))
  {
    var w := KeyFrameWrites(dir, video.keyIndices, video.frames);
    forall i, j | 0 <= i < j < |w|
      ensures w[i].file != w[j].file
    {
      if w[i].file == w[j].file {
        KeyFrameFileNameInjective(dir, video.keyIndices[i], video.keyIndices[j]);
      }
    }
  }

  // ---- which file is read ----

  /** The clip extract_frames reads: the video, or its sub-clip. */
  function Source(videoFile: string, span: Option<Span>): (c: Clip)
    ensures span.None? ==> c.path == videoFile && c.from == 0 && c.until == WithOriginal
    ensures span.Some? ==> c.from == span.value.start && c.until == At(span.value.end)
  {
    match span
    case None => Whole(videoFile)
    case Some(w) => Cut(Whole(videoFile), w.start, w.end)
  }

  /** The requested window of the original is what the other modes read. */
  lemma SourceWindow(videoFile: string, start: int, end: int)
    ensures Source(videoFile, Some(Span(start, end))) == Clip(SubclipPath(videoFile, start, end), start, At(end))
  {
    CutOfWhole(videoFile, start, end);
  }

  /**
   * As written, keyframe mode cuts the sub-clip in extract_frames and then
   * passes sub_clip and both times on to key_frames, which cuts the
   * sub-clip again with the same times.
   */
  function KeyframesSourceAsWritten(videoFile: string, span: Option<Span>): (c: Clip)
    ensures span.None? ==> c.path == videoFile && c.from == 0 && c.until == WithOriginal
    ensures span.Some? ==> c.from == 2 * span.value.start
  {
    match span
    case None => Whole(videoFile)
    case Some(w) => Cut(Cut(Whole(videoFile), w.start, w.end), w.start, w.end)
  }

  /** The second cut starts `start` seconds into the first, so the window read starts at twice the start time. */
  lemma KeyframesCutTwice(videoFile: string, start: int, end: int)
    ensures KeyframesSourceAsWritten(videoFile, Some(Span(start, end))) ==
              Clip(SubclipPath(SubclipPath(videoFile, start, end), start, end), 2 * start, At(Min(start + end, end)))
  {
    var c := KeyframesSourceAsWritten(videoFile, Some(Span(start, end)));
    CutOfWhole(videoFile, start, end);
    assert c.path == SubclipPath(SubclipPath(videoFile, start, end), start, end);
    assert c.from == 2 * start;
    assert c.until == At(Min(start + end, end));
  }

  /**
   * The instance: asking keyframe mode for seconds 10 to 20 of a video
   * reads the window from second 20 to second 20, which holds nothing,
   * where the other modes read seconds 10 to 20.
   */
  lemma KeyframesCutTwiceExample(videoFile: string)
    ensures KeyframesSourceAsWritten(videoFile, Some(Span(10, 20))).from == 20
    ensures KeyframesSourceAsWritten(videoFile, Some(Span(10, 20))).until == At(20)
    ensures Source(videoFile, Some(Span(10, 20))).from == 10
    ensures Source(videoFile, Some(Span(10, 20))).until == At(20)
  {
    KeyframesCutTwice(videoFile, 10, 20);
    SourceWindow(videoFile, 10, 20);
  }

  // ---- extract_frames ----

  /** The first frame, written before the budget is checked when keep_first_frame is set. */
  function FirstWrite<P>(dir: string, keepFirst: bool, frames: seq<P>): (w: seq<Written<P>>)
    ensures |w| <= 1
    ensures w != [] <==> keepFirst && frames != []
    ensures w != [] ==> w[0].file == FrameFileName(dir, 0) && w[0].pixels == frames[0]
  {
    if keepFirst && frames != [] then [Written(FrameFileName(dir, 0), frames[0])] else []
  }

  /** One file written before a list of distinct files, under a name none of them has, keeps the names distinct. */
  lemma PrependDistinct<P>(first: seq<Written<P>>, rest: seq<Written<P>>)
    requires |first| <= 1 && DistinctFiles(rest)
    requires forall i, j :: 0 <= i < |first| && 0 <= j < |rest| ==> first[i].file != rest[j].file
    ensures DistinctFiles(first + rest)
  {
    var w := first + rest;
    var m := |first|;
    forall i, j | 0 <= i < j < |w|
      ensures w[i].file != w[j].file
    {
      assert w[j] == rest[j - m];
      if i < m {
        assert w[i] == first[i];
      } else {
        assert w[i] == rest[i - m];
      }
    }
  }

  /** The keep-all files carry distinct frame numbers, so distinct names. */
  lemma FrameWritesDistinct<P>(dir: string, frames: seq<P>)
    ensures DistinctFiles(FrameWrites(dir, Arrivals(frames)))
  {
    var arrivals := Arrivals(frames);
    var w := FrameWrites(dir, arrivals);
    forall i, j | 0 <= i < j < |w|
      ensures w[i].file != w[j].file
    {
      if w[i].file == w[j].file {
        FrameFileNameInjective(dir, arrivals[i].number, arrivals[j].number);
      }
    }
  }

  /** The first frame and the keep-all files never share a name. */
  lemma FirstThenFramesDistinct<P>(dir: string, keepFirst: bool, frames: seq<P>)
    ensures DistinctFiles(FirstWrite(dir, keepFirst, frames) + FrameWrites(dir, Arrivals(frames)))
  {
    var first, rest := FirstWrite(dir, keepFirst, frames), FrameWrites(dir, Arrivals(frames));
    FrameWritesDistinct(dir, frames);
    forall i, j | 0 <= i < |first| && 0 <= j < |rest|
      ensures first[i].file != rest[j].file
    {
      if first[i].file == rest[j].file {
        FrameFileNameInjective(dir, 0, j + 1);
      }
    }
    PrependDistinct(first, rest);
  }

  /** Distinct frame numbers give the kept frames distinct names. */
  lemma KeptWritesDistinct<P>(dir: string, kept: seq<Record<P>>)
    requires DistinctNumbers(kept)
    ensures DistinctFiles(KeptWrites(dir, kept))
  {
    var w := KeptWrites(dir, kept);
    forall i, j | 0 <= i < j < |w|
      ensures w[i].file != w[j].file
    {
      if w[i].file == w[j].file {
        KeptFileNameInjective(dir, kept[i].number, kept[i].key, kept[j].number, kept[j].key);
      }
    }
  }

  /** The first frame and the kept-frame files never share a name, nor do two kept frames. */
  lemma FirstThenKeptDistinct<P>(dir: string, keepFirst: bool, frames: seq<P>, kept: seq<Record<P>>)
    requires DistinctNumbers(kept)
    ensures DistinctFiles(FirstWrite(dir, keepFirst, frames) + KeptWrites(dir, kept))
  {
    var first, rest := FirstWrite(dir, keepFirst, frames), KeptWrites(dir, kept);
    KeptWritesDistinct(dir, kept);
    forall i, j | 0 <= i < |first| && 0 <= j < |rest|
      ensures first[i].file != rest[j].file
    {
      FrameAndKeptNamesDiffer(dir, 0, kept[j].number, kept[j].key);
    }
    PrependDistinct(first, rest);
  }

  /**
   * extract_frames. Returns the output directory (None when the budget
   * check returns early), the clip that was read, the files written in
   * order, and the final `keeped_frames` list.
   */
  method ExtractFrames<P>(videoFile: string, numFrames: int, outDir: Option<string>, algo: Algo,
                          keepFirst: bool, span: Option<Span>, video: Video<P>,
                          draws: seq<nat>, scores: seq<Option<nat>>)
    returns (result: Option<string>, clip: Clip, written: seq<Written<P>>, kept: seq<Record<P>>)
    requires KeyIndicesValid(video)
    requires algo != Keyframes && (keepFirst || CheckBudget(numFrames, video.frameCount, keepFirst).Working?) ==>
               video.frames != []
    requires |draws| == |Arrivals(video.frames)| && forall i :: 0 <= i < |draws| ==> draws[i] <= i
    requires |scores| == |Arrivals(video.frames)|
    ensures clip == Source(videoFile, span)
    ensures DistinctFiles(written)
    ensures algo == Keyframes ==>
              && result == Some(OutputDir(clip.path, outDir))
              && written == KeyFrameWrites(result.value, video.keyIndices, video.frames)
              && kept == []
    ensures algo != Keyframes && !CheckBudget(numFrames, video.frameCount, keepFirst).Working? ==>
              && result == None
              && written == FirstWrite(OutputDir(clip.path, outDir), keepFirst, video.frames)
              && kept == []
    ensures algo != Keyframes && CheckBudget(numFrames, video.frameCount, keepFirst).Working? ==>
              result == Some(OutputDir(clip.path, outDir))
    ensures algo != Keyframes && CheckBudget(numFrames, video.frameCount, keepFirst) == Working(-1) ==>
              && written == FirstWrite(result.value, keepFirst, video.frames) + FrameWrites(result.value, Arrivals(video.frames))
              && kept == []
    ensures algo != Keyframes && CheckBudget(numFrames, video.frameCount, keepFirst).Working? &&
            CheckBudget(numFrames, video.frameCount, keepFirst).k != -1 ==>
              && written == FirstWrite(result.value, keepFirst, video.frames) + KeptWrites(result.value, kept)
              && (algo == Random ==> kept == Sample(Arrivals(video.frames), draws, CheckBudget(numFrames, video.frameCount, keepFirst).k))
              && (algo == Flow ==> IsTopK(kept, Scored(Arrivals(video.frames), scores), CheckBudget(numFrames, video.frameCount, keepFirst).k) && IsHeap(kept))
              && (algo == Other ==> kept == [])
  {
    var file := videoFile;
    clip := Whole(videoFile);
    if span.Some? {
      file := SubclipPath(videoFile, span.value.start, span.value.end);
      clip := Cut(clip, span.value.start, span.value.end);
    }
    var dir := OutputDir(file, outDir);
    if algo == Keyframes {
      var d, o, w := KeyFrames(clip, Some(dir), None, video);
      return Some(d), clip, w, [];
    }
    written := FirstWrite(dir, keepFirst, video.frames);
    kept := [];
    var budget := CheckBudget(numFrames, video.frameCount, keepFirst);
    if !budget.Working? {
      return None, clip, written, kept;
    }
    var k := budget.k;
    var arrivals := Arrivals(video.frames);
    if k == -1 {
      var w := KeepAll(dir, arrivals);
      FirstThenFramesDistinct(dir, keepFirst, video.frames);
      written := written + w;
    } else {
      if algo == Random {
        kept := SampleRandom(arrivals, draws, k);
        SampleDistinct(arrivals, draws, k);
      } else if algo == Flow {
        kept := SelectByMotion(arrivals, scores, k);
      }
      var w := WriteKept(dir, kept);
      FirstThenKeptDistinct(dir, keepFirst, video.frames, kept);
      written := written + w;
    }
    result := Some(dir);
  }
}
