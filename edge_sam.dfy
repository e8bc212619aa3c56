/**
 * `VideoProcessor` of annolid/segmentation/SAM/edge_sam_bg.py: it builds
 * the label -> points prompts from the parsed shapes of a LabelMe file,
 * asks the SAM predictor for one polygon per label, keeps the vertices
 * with both coordinates at least 1, names the annotation and image files
 * of the frame, and steps through a range of frames. The predictor, the
 * decoded frame and the "most recent LabelMe file" lookup are function
 * parameters; nothing is read from or written to disk.
 */
module EdgeSam {

  import opened Wrappers
  import opened Text
  import opened Paths
  import Seqs

  /** An [x, y] point of a LabelMe shape or of a predicted polygon. */
  datatype Point = Point(x: real, y: real)

  /** One parsed entry of "shapes": its "label" and "points" keys, either of which may be missing. */
  datatype Shape = Shape(labelName: Option<string>, points: Option<seq<Point>>)

  /** A Python dict with string keys: the keys in insertion order, and what each one holds. */
  datatype Dict<V> = Dict(keys: seq<string>, values: map<string, V>)

  /** Every key is listed once, and the listed keys are the stored ones. */
  ghost predicate WellFormed<V>(d: Dict<V>)
  {
    && (forall i, j :: 0 <= i < j < |d.keys| ==> d.keys[i] != d.keys[j])
    && (forall k :: k in d.values <==> k in d.keys)
  }

  /** d[k] = v: a new key goes to the end of the order, an existing key keeps its place and takes the new value. */
  function Put<V>(d: Dict<V>, k: string, v: V): (r: Dict<V>)
    requires WellFormed(d)
    ensures WellFormed(r)
    ensures k in r.values && r.values[k] == v
    ensures forall k' :: k' != k ==> (k' in r.values <==> k' in d.values)
    ensures forall k' :: k' != k && k' in d.values ==> r.values[k'] == d.values[k']
  {
    if k in d.values then Dict(d.keys, d.values[k := v])
    else Dict(d.keys + [k], d.values[k := v])
  }

  // ---- load_json_file ----

  /** The shape test of the loop: a present, non-empty label and a non-empty points list (a missing list counts as empty). */
  predicate Accepted(s: Shape)
  {
    s.labelName.Some? && s.labelName.value != "" && GetOr(s.points, []) != []
  }

  /** The two dictionaries load_json_file returns. */
  datatype Prompts = Prompts(points: Dict<seq<Point>>, pointLabels: Dict<int>)

  /**
   * The dictionaries after the loop over `shapes`. Both are well formed,
   * they list the same keys in the same order, and every point label is 1.
   */
  function Load(shapes: seq<Shape>): (p: Prompts)
    ensures WellFormed(p.points) && WellFormed(p.pointLabels)
    ensures p.points.keys == p.pointLabels.keys
    ensures forall l :: l in p.pointLabels.values ==> p.pointLabels.values[l] == 1
    decreases |shapes|
  {
    if shapes == [] then Prompts(Dict([], map[]), Dict([], map[]))
    else
      var n := |shapes| - 1;
      var p := Load(shapes[..n]);
      var s := shapes[n];
      if Accepted(s) then Prompts(Put(p.points, s.labelName.value, s.points.value), Put(p.pointLabels, s.labelName.value, 1))
      else p
  }

  /** Some shape of `shapes` passes the test and carries label `l`. */
  ghost predicate Carries(shapes: seq<Shape>, l: string)
  {
    exists i :: 0 <= i < |shapes| && Accepted(shapes[i]) && shapes[i].labelName == Some(l)
  }

  lemma {:induction false} LoadKey(shapes: seq<Shape>, l: string)
    ensures l in Load(shapes).points.values <==> Carries(shapes, l)
    decreases |shapes|
  {
    if shapes != [] {
      var n := |shapes| - 1;
      LoadKey(shapes[..n], l);
      if Carries(shapes[..n], l) {
        var i :| 0 <= i < n && Accepted(shapes[..n][i]) && shapes[..n][i].labelName == Some(l);
        assert shapes[i] == shapes[..n][i];
      }
      if Carries(shapes, l) {
        var i :| 0 <= i < |shapes| && Accepted(shapes[i]) && shapes[i].labelName == Some(l);
        if i < n {
          assert shapes[..n][i] == shapes[i];
        }
      }
    }
  }

  /** A label is a key exactly when some accepted shape carries it. */
  lemma LoadKeys(shapes: seq<Shape>)
    ensures forall l :: l in Load(shapes).points.keys <==>
              exists i :: 0 <= i < |shapes| && Accepted(shapes[i]) && shapes[i].labelName == Some(l)
  {
    forall l
      ensures l in Load(shapes).points.keys <==> Carries(shapes, l)
    {
      LoadKey(shapes, l);
    }
  }

  /** Shape i is accepted and no later accepted shape carries its label. */
  ghost predicate LastWithLabel(shapes: seq<Shape>, i: int)
  {
    && 0 <= i < |shapes| && Accepted(shapes[i])
    && forall j :: i < j < |shapes| && Accepted(shapes[j]) ==> shapes[j].labelName != shapes[i].labelName
  }

  lemma {:induction false} LoadLast(shapes: seq<Shape>, i: int)
    requires LastWithLabel(shapes, i)
    ensures shapes[i].labelName.value in Load(shapes).points.values
    ensures Load(shapes).points.values[shapes[i].labelName.value] == shapes[i].points.value
    decreases |shapes|
  {
    var n := |shapes| - 1;
    if i < n {
      assert shapes[..n][i] == shapes[i];
      assert forall j :: i < j < n ==> shapes[..n][j] == shapes[j];
      LoadLast(shapes[..n], i);
    }
  }

  /** An accepted shape whose label no later accepted shape carries: its points are the ones stored under that label. */
  lemma LoadLastWins(shapes: seq<Shape>)
    ensures forall i :: LastWithLabel(shapes, i) ==>
              && shapes[i].labelName.value in Load(shapes).points.values
              && Load(shapes).points.values[shapes[i].labelName.value] == shapes[i].points.value
  {
    forall i | LastWithLabel(shapes, i)
      ensures shapes[i].labelName.value in Load(shapes).points.values
      ensures Load(shapes).points.values[shapes[i].labelName.value] == shapes[i].points.value
    {
      LoadLast(shapes, i);
    }
  }

  /**
   * load_json_file on the parsed file: `data` is its "shapes" list, None
   * when the key is missing. The dictionaries are those of `Load`.
   */
  method LoadJsonFile(data: Option<seq<Shape>>) returns (pointsDict: Dict<seq<Point>>, pointLabelsDict: Dict<int>)
    ensures Prompts(pointsDict, pointLabelsDict) == Load(GetOr(data, []))
    ensures data.None? ==> pointsDict.keys == [] && pointLabelsDict.keys == []
  {
    var shapes := GetOr(data, []);
    pointsDict, pointLabelsDict := Dict([], map[]), Dict([], map[]);
    for i := 0 to |shapes|
      invariant Prompts(pointsDict, pointLabelsDict) == Load(shapes[..i])
    {
      var shape := shapes[i];
      var labelName := shape.labelName;
      var points := GetOr(shape.points, []);
      assert shapes[..i + 1][..i] == shapes[..i];
      if labelName.Some? && labelName.value != "" && points != [] {
        pointsDict := Put(pointsDict, labelName.value, points);
        pointLabelsDict := Put(pointLabelsDict, labelName.value, 1);
      }
    }
    assert shapes[..|shapes|] == shapes;
  }

  // ---- process_frame ----

  /** The predictor: the frame number (the image set by set_image), the points and their labels give a polygon. */
  type Predictor = (int, seq<Point>, seq<int>) -> seq<Point>

  /** A LabelMe polygon shape: its label and the vertices added to it. */
  datatype Polygon = Polygon(labelName: string, vertices: seq<Point>)

  /** A predicted vertex is added to the polygon only when both of its coordinates are at least 1. */
  predicate OnCanvas(v: Point)
  {
    v.x >= 1.0 && v.y >= 1.0
  }

  /** The addPoint loop: the vertices with x >= 1 and y >= 1, in polygon order. */
  method KeepVertices(polygon: seq<Point>) returns (kept: seq<Point>)
    ensures kept == Seqs.Filter(OnCanvas, polygon)
    ensures forall v :: v in kept <==> v in polygon && v.x >= 1.0 && v.y >= 1.0
    ensures |kept| <= |polygon|
  {
    kept := [];
    for i := 0 to |polygon|
      invariant kept == Seqs.Filter(OnCanvas, polygon[..i])
    {
      assert polygon[..i + 1][..i] == polygon[..i];
      if polygon[i].x >= 1.0 && polygon[i].y >= 1.0 {
        kept := kept + [polygon[i]];
      }
    }
    assert polygon[..|polygon|] == polygon;
    Seqs.FilterMembers(OnCanvas, polygon);
  }

  /** [1] * n */
  function Ones(n: nat): (r: seq<int>)
    ensures |r| == n && forall i :: 0 <= i < n ==> r[i] == 1
  {
    seq(n, _ => 1)
  }

  /** The label list for one frame: for each label, in dictionary order, its predicted polygon with the off-canvas vertices dropped. */
  function LabelPolygons(frame: int, prompts: Dict<seq<Point>>, predict: Predictor): seq<Polygon>
    requires WellFormed(prompts)
  {
    seq(|prompts.keys|, k requires 0 <= k < |prompts.keys| =>
      var points := prompts.values[prompts.keys[k]];
      Polygon(prompts.keys[k], Seqs.Filter(OnCanvas, predict(frame, points, Ones(|points|)))))
  }

  /** One polygon per label, the k-th named after the k-th label, and none has a vertex with x < 1 or y < 1. */
  lemma LabelPolygonsShape(frame: int, prompts: Dict<seq<Point>>, predict: Predictor)
    requires WellFormed(prompts)
    ensures var r := LabelPolygons(frame, prompts, predict);
            && |r| == |prompts.keys|
            && (forall k :: 0 <= k < |r| ==> r[k].labelName == prompts.keys[k])
            && (forall k, v :: 0 <= k < |r| && v in r[k].vertices ==> v.x >= 1.0 && v.y >= 1.0)
  {
    var r := LabelPolygons(frame, prompts, predict);
    forall k, v | 0 <= k < |r| && v in r[k].vertices
      ensures v.x >= 1.0 && v.y >= 1.0
    {
      var points := prompts.values[prompts.keys[k]];
      Seqs.FilterMembers(OnCanvas, predict(frame, points, Ones(|points|)));
    }
  }

  /** The loop over points_dict.items(). */
  method PredictPolygons(frame: int, pointsDict: Dict<seq<Point>>, predict: Predictor) returns (labelList: seq<Polygon>)
    requires WellFormed(pointsDict)
    ensures labelList == LabelPolygons(frame, pointsDict, predict)
  {
    labelList := [];
    for k := 0 to |pointsDict.keys|
      invariant labelList == LabelPolygons(frame, pointsDict, predict)[..k]
    {
      var labelName := pointsDict.keys[k];
      var points := pointsDict.values[labelName];
      var pointLabels := Ones(|points|);
      var polygon := predict(frame, points, pointLabels);
      var vertices := KeepVertices(polygon);
      labelList := labelList + [Polygon(labelName, vertices)];
    }
  }

  // ---- file names ----

  /** f"{frame_number:0>{9}}": str() of the number right-aligned in 9 characters, filled with '0'. */
  function Padded(frame: int): string
  {
    AlignRight(Str(frame), 9, '0')
  }

  /** video_folder / (video_folder.name + f"_{frame_number:0>{9}}.json") */
  function AnnotationFile(folder: string, frame: int): string
  {
    Join(folder, Name(folder) + "_" + Padded(frame) + ".json")
  }

  /** The image file: the annotation file's name with ".png" in place of ".json", in the same folder. */
  function ImageFile(folder: string, frame: int): string
  {
    Join(folder, Name(folder) + "_" + Padded(frame) + ".png")
  }

  /** A file "<base>.<ext>" joined to a non-empty folder has that folder as its parent, "<base>" as its stem and ".<ext>" as its suffix. */
  lemma FileInFolder(dir: string, base: string, ext: string)
    requires dir != "" && base != "" && '/' !in base && ext != "" && '.' !in ext && '/' !in ext
    ensures var p := Join(dir, base + "." + ext);
            Parent(p) == dir && Name(p) == base + "." + ext && Stem(Name(p)) == base && Suffix(Name(p)) == "." + ext
  {
    JoinSplits(dir, base + "." + ext);
    StemOfDottedName(base, ext);
  }

  /** In any directory, with_suffix('.png') turns "<base>.json" into "<base>.png". */
  lemma JsonToPng(dir: string, base: string)
    requires base != "" && '/' !in base
    ensures WithSuffix(Join(dir, base + ".json"), ".png") == Join(dir, base + ".png")
  {
    assert base + ".json" == base + "." + "json";
    assert base + ".png" == base + "." + "png";
    if dir == "" {
      assert Join(dir, base + ".json") == Join("/", base + ".json");
      assert Join(dir, base + ".png") == Join("/", base + ".png");
      FileInFolder("/", base, "json");
    } else {
      FileInFolder(dir, base, "json");
    }
  }

  /** str(filename.with_suffix('.png')) on the annotation file gives the image file. */
  lemma ImageFileIsWithSuffix(folder: string, frame: int)
    ensures WithSuffix(AnnotationFile(folder, frame), ".png") == ImageFile(folder, frame)
  {
    PaddedHasNoSeparator(frame);
    JsonToPng(folder, Name(folder) + "_" + Padded(frame));
  }

  /** Path(video_path).with_suffix("") */
  function VideoFolder(videoPath: string): string
  {
    WithSuffix(videoPath, "")
  }

  /** The padded frame number holds no '/' and no '.'. */
  lemma PaddedHasNoSeparator(frame: int)
    ensures '/' !in Padded(frame) && '.' !in Padded(frame)
  {
    StrHasNoSeparator(frame);
    var s := Str(frame);
    if |s| < 9 {
      var f := Fill('0', 9 - |s|);
      assert forall i :: 0 <= i < |f| ==> f[i] == '0';
      assert Padded(frame) == f + s;
    }
  }

  /** Every frame number is padded to at least 9 characters; a non-negative one is all digits and reads back as itself. */
  lemma FrameNumberPadding(frame: int)
    ensures |Padded(frame)| >= 9
    ensures frame >= 0 ==> AllDigits(Padded(frame)) && Value(Padded(frame)) == frame
  {
    if frame >= 0 {
      AlignRightOfNatural(frame, 9);
      ZeroPadRoundTrip(frame, 9);
    }
  }

  /**
   * The annotation file sits in the video folder and is named
   * "<folder name>_<padded frame>.json"; the image file is the same path
   * with the suffix ".png", so the two share their folder and their stem.
   */
  lemma FrameFiles(folder: string, frame: int)
    requires folder != ""
    ensures var base := Name(folder) + "_" + Padded(frame);
            && Parent(AnnotationFile(folder, frame)) == folder
            && Name(AnnotationFile(folder, frame)) == base + ".json"
            && ImageFile(folder, frame) == WithSuffix(AnnotationFile(folder, frame), ".png")
            && Parent(ImageFile(folder, frame)) == folder
            && Stem(Name(ImageFile(folder, frame))) == Stem(Name(AnnotationFile(folder, frame))) == base
            && Suffix(Name(AnnotationFile(folder, frame))) == ".json"
            && Suffix(Name(ImageFile(folder, frame))) == ".png"
  {
    var base := Name(folder) + "_" + Padded(frame);
    PaddedHasNoSeparator(frame);
    assert base + ".json" == base + "." + "json";
    assert base + ".png" == base + "." + "png";
    FileInFolder(folder, base, "json");
    FileInFolder(folder, base, "png");
    JsonToPng(folder, base);
  }

  /** Different non-negative frame numbers give different annotation files. */
  lemma AnnotationFilesDistinct(folder: string, a: nat, b: nat)
    requires folder != "" && a != b
    ensures AnnotationFile(folder, a) != AnnotationFile(folder, b)
  {
    if AnnotationFile(folder, a) == AnnotationFile(folder, b) {
      FrameFiles(folder, a);
      FrameFiles(folder, b);
      CancelAround(Name(folder) + "_", Padded(a), Padded(b), ".json");
      AlignRightOfNatural(a, 9);
      AlignRightOfNatural(b, 9);
      ZeroPadInjective(a, b, 9);
    }
  }

  /** The video folder of "dir/base.ext" is "dir/base". */
  lemma VideoFolderOf(dir: string, base: string, ext: string)
    requires dir != "" && dir != "." && dir != "/"
    requires base != "" && '/' !in base && ext != "" && '.' !in ext && '/' !in ext
    ensures VideoFolder(dir + "/" + (base + "." + ext)) == dir + "/" + base
  {
    JoinSplits(dir, base + "." + ext);
    StemOfDottedName(base, ext);
  }

  // ---- process_video_frames ----

  /** One step less in the count (x - 1) / s + 1 that CPython's range uses for its length. */
  lemma CountStep(x: int, s: int)
    requires s > 0 && x >= 0
    ensures x < s ==> x / s == 0
    ensures x >= s ==> (x - s) / s + 1 == x / s
  {
    if x >= s {
      var a, b := (x - s) / s + 1, x / s;
      assert s * a == s * ((x - s) / s) + s;
      assert s * a + (x - s) % s == x && s * b + x % s == x;
      assert s * a - s * b == s * (a - b);
      if a > b && a - b > 1 {
        MulMonotone(1, a - b, s);
      } else if a < b {
        assert s * b - s * a == s * (b - a);
        if b - a > 1 {
          MulMonotone(1, b - a, s);
        }
      }
    }
  }

  /**
   * range(start, stop, step) for a non-zero step. Its length is CPython's
   * (stop - start - 1) / step + 1 when start < stop (mirrored for a
   * negative step), and 0 when no step fits.
   */
  function PyRange(start: int, stop: int, step: int): (r: seq<int>)
    requires step != 0
    ensures step > 0 ==> |r| == if start < stop then (stop - start - 1) / step + 1 else 0
    ensures step < 0 ==> |r| == if start > stop then (start - stop - 1) / -step + 1 else 0
    decreases if step > 0 then stop - start else start - stop
  {
    if (step > 0 && start < stop) || (step < 0 && start > stop) then
      var rest := PyRange(start + step, stop, step);
      if step > 0 then
        CountStep(stop - start - 1, step);
        [start] + rest
      else
        CountStep(start - stop - 1, -step);
        [start] + rest
    else []
  }

  /** The k-th element of the range is start + k·step. */
  lemma {:induction false} PyRangeAt(start: int, stop: int, step: int)
    requires step != 0
    ensures forall k :: 0 <= k < |PyRange(start, stop, step)| ==> PyRange(start, stop, step)[k] == start + k * step
    decreases if step > 0 then stop - start else start - stop
  {
    var r := PyRange(start, stop, step);
    if r != [] {
      PyRangeAt(start + step, stop, step);
      forall k | 1 <= k < |r|
        ensures r[k] == start + k * step
      {
        assert r[k] == PyRange(start + step, stop, step)[k - 1];
        assert (k - 1) * step + step == k * step;
      }
    }
  }

  /** Every element lies before stop in the step's direction. */
  lemma {:induction false} PyRangeWithin(start: int, stop: int, step: int)
    requires step != 0
    ensures forall k :: 0 <= k < |PyRange(start, stop, step)| ==>
              if step > 0 then PyRange(start, stop, step)[k] < stop else PyRange(start, stop, step)[k] > stop
    decreases if step > 0 then stop - start else start - stop
  {
    var r := PyRange(start, stop, step);
    if r != [] {
      PyRangeWithin(start + step, stop, step);
      assert forall k :: 1 <= k < |r| ==> r[k] == PyRange(start + step, stop, step)[k - 1];
    }
  }

  /** The range is maximal: one more step reaches or passes stop. */
  lemma {:induction false} PyRangeMaximal(start: int, stop: int, step: int)
    requires step != 0
    ensures var next := start + |PyRange(start, stop, step)| * step;
            if step > 0 then next >= stop else next <= stop
    decreases if step > 0 then stop - start else start - stop
  {
    var r := PyRange(start, stop, step);
    if r != [] {
      PyRangeMaximal(start + step, stop, step);
      assert start + |r| * step == (start + step) + (|r| - 1) * step;
    }
  }

  /** The frames process_video_frames visits: range(start_frame, end_frame + 1, step). */
  function Schedule(startFrame: int, endFrame: int, step: int): seq<int>
    requires step != 0
  {
    PyRange(startFrame, endFrame + 1, step)
  }

  lemma MulMonotone(a: int, b: int, step: int)
    requires a < b && step > 0
    ensures a * step < b * step
  {
    assert b * step - a * step == (b - a) * step;
  }

  /** With a positive step the frames strictly increase, so no frame is processed twice. */
  lemma ScheduleIncreasing(startFrame: int, endFrame: int, step: int)
    requires step > 0
    ensures var s := Schedule(startFrame, endFrame, step);
            forall i, j :: 0 <= i < j < |s| ==> s[i] < s[j]
  {
    PyRangeAt(startFrame, endFrame + 1, step);
    forall i, j | 0 <= i < j < |Schedule(startFrame, endFrame, step)|
      ensures Schedule(startFrame, endFrame, step)[i] < Schedule(startFrame, endFrame, step)[j]
    {
      MulMonotone(i, j, step);
    }
  }

  /** With a positive step every frame lies in [start_frame, end_frame]. */
  lemma ScheduleBounds(startFrame: int, endFrame: int, step: int)
    requires step > 0
    ensures var s := Schedule(startFrame, endFrame, step);
            forall k :: 0 <= k < |s| ==> startFrame <= s[k] <= endFrame
  {
    PyRangeAt(startFrame, endFrame + 1, step);
    PyRangeWithin(startFrame, endFrame + 1, step);
    forall k | 0 <= k < |Schedule(startFrame, endFrame, step)|
      ensures startFrame <= Schedule(startFrame, endFrame, step)[k]
    {
      assert k * step >= 0;
    }
  }

  /** With a positive step, end_frame is processed when start_frame plus a multiple of step reaches it. */
  lemma ScheduleReachesEnd(startFrame: int, endFrame: int, step: int)
    requires step > 0 && startFrame <= endFrame && (endFrame - startFrame) % step == 0
    ensures endFrame in Schedule(startFrame, endFrame, step)
  {
    var s := Schedule(startFrame, endFrame, step);
    var q := (endFrame - startFrame) / step;
    assert endFrame == startFrame + q * step;
    PyRangeMaximal(startFrame, endFrame + 1, step);
    PyRangeAt(startFrame, endFrame + 1, step);
    if |s| <= q {
      if |s| < q {
        MulMonotone(|s|, q, step);
      }
      assert false;
    }
    assert s[q] == endFrame;
  }

  /** As written, a negative step walks down and stops before end_frame + 1: from 10 to 5 by -1 it visits 10, 9, 8 and 7 only. */
  lemma NegativeStepSchedule()
    ensures Schedule(10, 5, -1) == [10, 9, 8, 7]
    ensures 6 !in Schedule(10, 5, -1) && 5 !in Schedule(10, 5, -1)
  {
    assert PyRange(6, 6, -1) == [];
    assert PyRange(7, 6, -1) == [7];
    assert PyRange(8, 6, -1) == [8, 7];
    assert PyRange(9, 6, -1) == [9, 8, 7];
  }

  /** What process_frame produces for one frame: the two files it writes and the label list saved in the annotation file. */
  datatype FrameOutput = FrameOutput(annotationFile: string, imageFile: string, labels: seq<Polygon>)

  /**
   * The output of process_frame for `frame`, where `latest(frame)` is the
   * "shapes" list of the most recent LabelMe file in the folder at that point.
   */
  function Processed(folder: string, frame: int, latest: int -> Option<seq<Shape>>, predict: Predictor): (o: FrameOutput)
    ensures |o.labels| == |Load(GetOr(latest(frame), [])).points.keys|
    ensures forall k :: 0 <= k < |o.labels| ==> o.labels[k].labelName == Load(GetOr(latest(frame), [])).points.keys[k]
  {
    var prompts := Load(GetOr(latest(frame), []));
    FrameOutput(AnnotationFile(folder, frame), ImageFile(folder, frame), LabelPolygons(frame, prompts.points, predict))
  }

  /** process_frame as a function of the frame number. */
  function FrameProcessor(folder: string, latest: int -> Option<seq<Shape>>, predict: Predictor): int -> FrameOutput
  {
    (f: int) => Processed(folder, f, latest, predict)
  }

  /** Processing a list of frames gives one output per frame, the k-th being process_frame of the k-th frame. */
  lemma VideoOutputsAt(folder: string, frames: seq<int>, latest: int -> Option<seq<Shape>>, predict: Predictor)
    ensures var outputs := Seqs.Map(FrameProcessor(folder, latest, predict), frames);
            |outputs| == |frames| &&
            forall k :: 0 <= k < |frames| ==> outputs[k] == Processed(folder, frames[k], latest, predict)
  {
    Seqs.MapAt(FrameProcessor(folder, latest, predict), frames);
  }

  /** The range had a zero step: Python's range() raises ValueError. */
  datatype RangeError = ZeroStep

  /** The state `VideoProcessor.__init__` sets: the video path, its folder and the SAM model. */
  class VideoProcessor {
    const videoPath: string
    const videoFolder: string
    const predict: Predictor

    constructor (videoPath: string, predict: Predictor)
      ensures this.videoPath == videoPath && this.predict == predict
      ensures videoFolder == VideoFolder(videoPath)
    {
      this.videoPath := videoPath;
      this.videoFolder := WithSuffix(videoPath, "");
      this.predict := predict;
    }

    /** process_frame: load the prompts, predict one polygon per label, and name the two files. */
    method ProcessFrame(frame: int, latest: int -> Option<seq<Shape>>) returns (out: FrameOutput)
      ensures out == Processed(videoFolder, frame, latest, predict)
    {
      var pointsDict, _ := LoadJsonFile(latest(frame));
      var labelList := PredictPolygons(frame, pointsDict, predict);
      var filename := Join(videoFolder, Name(videoFolder) + "_" + Padded(frame) + ".json");
      var imgFilename := WithSuffix(filename, ".png");
      ImageFileIsWithSuffix(videoFolder, frame);
      out := FrameOutput(filename, imgFilename, labelList);
    }

    /** The `for i in range(...)` loop, over the frames of the range in order. */
    method ProcessFrames(frames: seq<int>, latest: int -> Option<seq<Shape>>) returns (outputs: seq<FrameOutput>)
      ensures outputs == Seqs.Map(FrameProcessor(videoFolder, latest, predict), frames)
    {
      ghost var process := FrameProcessor(videoFolder, latest, predict);
      outputs := [];
      for k := 0 to |frames|
        invariant outputs == Seqs.Map(process, frames[..k])
      {
        var out := ProcessFrame(frames[k], latest);
        assert frames[..k + 1][..k] == frames[..k] && frames[..k + 1][k] == frames[k];
        assert Seqs.Map(process, frames[..k + 1]) == Seqs.Map(process, frames[..k]) + [process(frames[k])];
        outputs := outputs + [out];
      }
      assert frames[..|frames|] == frames;
    }

    /** process_video_frames: a zero step raises before any frame; otherwise each frame of the schedule is processed, in order. */
    method ProcessVideoFrames(startFrame: int, endFrame: int, step: int, latest: int -> Option<seq<Shape>>)
      returns (r: Result<seq<FrameOutput>, RangeError>)
      ensures r.Failure? <==> step == 0
      ensures r.Success? ==>
                r.value == Seqs.Map(FrameProcessor(videoFolder, latest, predict), Schedule(startFrame, endFrame, step))
    {
      if step == 0 {
        return Failure(ZeroStep);
      }
      var frames := PyRange(startFrame, endFrame + 1, step);
      var outputs := ProcessFrames(frames, latest);
      r := Success(outputs);
    }
  }
}
