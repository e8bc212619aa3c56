/**
 * The two list-building helpers of annolid/segmentation/SAM/utils.py:
 * `convert_to_annolid_format`, which turns SAM's mask dictionaries into
 * annolid rows (XYWH box to XYXY corners, with defaults for missing
 * fields), and `crop_image_with_masks`, which crops the image to each
 * mask's box and keeps the crops of the masks that pass an area and
 * width/height test. The COCO RLE encoder and the OpenCV pixel step
 * (`cv2.bitwise_and` then `cv2.cvtColor`) are function parameters.
 */
module SamUtils {

  import opened Wrappers
  import Seqs

  /** A row-major 2-D array, as numpy indexes it: grid[row][column]. */
  type Grid<T> = seq<seq<T>>

  /** A `bbox` in XYWH form. */
  datatype Box = Box(x: int, y: int, w: int, h: int)

  /**
   * One mask dictionary of SAM's automatic mask generator. The optional
   * keys read with `mask.get(key, default)` are `Option`s.
   */
  datatype Mask = Mask(
    bbox: Box,
    area: int,
    segmentation: Grid<bool>,
    instanceName: Option<string>,
    predictedIou: Option<real>,
    trackingId: Option<string>)

  // ---- convert_to_annolid_format ----

  /**
   * One annolid row. `score` is `None` where the source stores the
   * default '' for a missing `predicted_iou`.
   */
  datatype Row<E> = Row(
    frameNumber: int,
    x1: int, y1: int, x2: int, y2: int,
    instanceName: string,
    score: Option<real>,
    segmentation: E,
    trackingId: string)

  /** The XYWH box a row's corners describe: x2 - x1 is the width and y2 - y1 the height. */
  function CornersToBox<E>(row: Row<E>): Box
  {
    Box(row.x1, row.y1, row.x2 - row.x1, row.y2 - row.y1)
  }

  /** What the row built for mask `m` holds, field by field. */
  ghost predicate RowOf<E>(frameNumber: int, m: Mask, encode: Grid<bool> -> E, row: Row<E>)
  {
    && row.frameNumber == frameNumber
    && row.x1 == m.bbox.x && row.y1 == m.bbox.y
    && row.x2 == m.bbox.x + m.bbox.w && row.y2 == m.bbox.y + m.bbox.h
    && row.instanceName == GetOr(m.instanceName, "object")
    && row.score == m.predictedIou
    && row.segmentation == encode(m.segmentation)
    && row.trackingId == GetOr(m.trackingId, "")
  }

  /**
   * One row per mask, in mask order, each carrying the given frame number.
   * The corners read back as the mask's box.
   */
  method ConvertToAnnolidFormat<E>(frameNumber: int, masks: seq<Mask>, encode: Grid<bool> -> E)
    returns (predRows: seq<Row<E>>)
    ensures |predRows| == |masks|
    ensures forall i :: 0 <= i < |masks| ==> RowOf(frameNumber, masks[i], encode, predRows[i])
    ensures forall i :: 0 <= i < |masks| ==> CornersToBox(predRows[i]) == masks[i].bbox
  {
    predRows := [];
    for i := 0 to |masks|
      invariant |predRows| == i
      invariant forall k :: 0 <= k < i ==> RowOf(frameNumber, masks[k], encode, predRows[k])
    {
      var mask := masks[i];
      var x1 := mask.bbox.x;
      var y1 := mask.bbox.y;
      var x2 := mask.bbox.x + mask.bbox.w;
      var y2 := mask.bbox.y + mask.bbox.h;
      var instanceName := GetOr(mask.instanceName, "object");
      var segmentation := encode(mask.segmentation);
      var trackingId := GetOr(mask.trackingId, "");
      predRows := predRows + [Row(frameNumber, x1, y1, x2, y2, instanceName, mask.predictedIou, segmentation, trackingId)];
    }
  }

  // ---- slicing ----

  /** A Python slice bound against a length n: negative bounds count from the end, and both are clamped to [0, n]. */
  function Clamp(i: int, n: nat): (c: nat)
    ensures c <= n
    ensures 0 <= i <= n ==> c == i
  {
    if i < 0 then (if i + n < 0 then 0 else i + n)
    else if i > n then n
    else i
  }

  /** s[lo:hi] with Python's (and numpy's) rules: out-of-range bounds are clamped and an empty range gives []. */
  function Slice<T>(s: seq<T>, lo: int, hi: int): (r: seq<T>)
    ensures |r| <= |s|
  {
    var a, b := Clamp(lo, |s|), Clamp(hi, |s|);
    if a < b then s[a..b] else []
  }

  /** grid[y:y+h, x:x+w] */
  function Crop<T>(grid: Grid<T>, box: Box): Grid<T>
  {
    var rows := Slice(grid, box.y, box.y + box.h);
    seq(|rows|, i requires 0 <= i < |rows| => Slice(rows[i], box.x, box.x + box.w))
  }

  /** A box that lies inside the grid gives a crop of h rows of w cells, cell (r, c) being grid[y + r][x + c]. */
  lemma CropWindow<T>(grid: Grid<T>, box: Box)
    requires 0 <= box.x && 0 <= box.y && 0 <= box.w && 0 <= box.h
    requires box.y + box.h <= |grid|
    requires forall r :: box.y <= r < box.y + box.h ==> box.x + box.w <= |grid[r]|
    ensures |Crop(grid, box)| == box.h
    ensures forall r :: 0 <= r < box.h ==>
              |Crop(grid, box)[r]| == box.w &&
              forall c :: 0 <= c < box.w ==> Crop(grid, box)[r][c] == grid[box.y + r][box.x + c]
  {
    var rows := Slice(grid, box.y, box.y + box.h);
    assert |rows| == box.h;
    forall r | 0 <= r < box.h
      ensures rows[r] == grid[box.y + r]
    {
    }
  }

  /** The image and a segmentation of the same shape are cut to crops of the same shape, whatever the box. */
  lemma CropSameShape<A, B>(image: Grid<A>, seg: Grid<B>, box: Box)
    requires |image| == |seg| && forall r :: 0 <= r < |image| ==> |image[r]| == |seg[r]|
    ensures |Crop(image, box)| == |Crop(seg, box)|
    ensures forall r :: 0 <= r < |Crop(image, box)| ==> |Crop(image, box)[r]| == |Crop(seg, box)[r]|
  {
    var a, b := Clamp(box.y, |image|), Clamp(box.y + box.h, |image|);
    if a < b {
      forall r | 0 <= r < b - a
        ensures |Crop(image, box)[r]| == |Crop(seg, box)[r]|
      {
        assert Slice(image, box.y, box.y + box.h)[r] == image[a + r];
        assert Slice(seg, box.y, box.y + box.h)[r] == seg[a + r];
      }
    }
  }

  /** np.asarray(seg, dtype=np.uint8) * 255: a true cell becomes 255 and a false one 0. */
  function ByteMask(seg: Grid<bool>): Grid<int>
  {
    seq(|seg|, i requires 0 <= i < |seg| =>
      seq(|seg[i]|, j requires 0 <= j < |seg[i]| => if seg[i][j] then 255 else 0))
  }

  // ---- the area and ratio test ----

  /** The keyword arguments max_area, min_area and width_height_ratio. */
  datatype Bounds = Bounds(maxArea: int, minArea: int, ratio: real)

  /** Their defaults. */
  const DefaultBounds := Bounds(8000, 500, 0.9)

  /** Both area tests of the `and` chain pass. */
  predicate InAreaBounds(m: Mask, b: Bounds)
  {
    m.area >= b.minArea && m.area <= b.maxArea
  }

  /** The `and` chain reaches `w/h` with h == 0 and raises ZeroDivisionError. */
  predicate DividesByZero(m: Mask, b: Bounds)
  {
    InAreaBounds(m, b) && m.bbox.h == 0
  }

  /** The mask passes the whole test: both area bounds and w/h >= width_height_ratio. */
  predicate Passes(m: Mask, b: Bounds)
    ensures Passes(m, b) ==> InAreaBounds(m, b) && !DividesByZero(m, b)
  {
    InAreaBounds(m, b) && m.bbox.h != 0 && (m.bbox.w as real) / (m.bbox.h as real) >= b.ratio
  }

  function PassesWith(b: Bounds): Mask -> bool
  {
    (m: Mask) => Passes(m, b)
  }

  /** The masks whose crops are kept, in input order. */
  function KeptMasks(masks: seq<Mask>, b: Bounds): seq<Mask>
  {
    Seqs.Filter(PassesWith(b), masks)
  }

  /** A mask is kept exactly when it is an input that meets min_area <= area <= max_area, h != 0 and w/h >= the ratio. */
  lemma KeptMembers(masks: seq<Mask>, b: Bounds)
    ensures forall m :: m in KeptMasks(masks, b) <==>
              m in masks && b.minArea <= m.area <= b.maxArea && m.bbox.h != 0 &&
              (m.bbox.w as real) / (m.bbox.h as real) >= b.ratio
    ensures |KeptMasks(masks, b)| <= |masks|
  {
    Seqs.FilterMembers(PassesWith(b), masks);
  }

  /** The kept masks of two lists in a row are the kept masks of the first, then of the second. */
  lemma KeptAppend(first: seq<Mask>, second: seq<Mask>, b: Bounds)
    ensures KeptMasks(first + second, b) == KeptMasks(first, b) + KeptMasks(second, b)
  {
    Seqs.FilterAppend(PassesWith(b), first, second);
  }

  /** With the defaults and a positive height, a mask passes exactly when 500 <= area <= 8000 and 10·w >= 9·h. */
  lemma DefaultFilter(m: Mask)
    requires m.bbox.h > 0
    ensures Passes(m, DefaultBounds) <==> 500 <= m.area <= 8000 && 10 * m.bbox.w >= 9 * m.bbox.h
  {
    var w, h := m.bbox.w as real, m.bbox.h as real;
    var q := w / h;
    assert q * h == w;
    if q >= 0.9 {
      assert q * h >= 0.9 * h;
    } else {
      assert q * h < 0.9 * h;
    }
  }

  // ---- crop_image_with_masks ----

  /** The exception that stops the loop, with the position of the mask that raised it. */
  datatype CropError = PixelStepRaised(index: nat) | ZeroHeight(index: nat)

  /** The pixel step of one mask: crop the image and the mask to the box, then bitwise_and and cvtColor (None: they raised). */
  function PixelStep<Px, R>(image: Grid<Px>, apply: (Grid<Px>, Grid<int>) -> Option<R>): Mask -> Option<R>
  {
    (m: Mask) => apply(Crop(image, m.bbox), ByteMask(Crop(m.segmentation, m.bbox)))
  }

  /** One loop iteration, on the pixel step's outcome `out` for mask `m` at position i. */
  function Visit<R>(acc: seq<R>, i: nat, m: Mask, out: Option<R>, b: Bounds): Result<seq<R>, CropError>
  {
    if out.None? then Failure(PixelStepRaised(i))
    else if DividesByZero(m, b) then Failure(ZeroHeight(i))
    else if Passes(m, b) then Success(acc + [out.value])
    else Success(acc)
  }

  /** The loop over `masks`: the list of kept crops, or the first exception raised. */
  function Crops<R>(pixel: Mask -> Option<R>, masks: seq<Mask>, b: Bounds): (r: Result<seq<R>, CropError>)
    ensures r.Success? ==> |r.value| <= |masks|
    ensures r.Failure? ==> r.error.index < |masks|
    decreases |masks|
  {
    if masks == [] then Success([])
    else
      var n := |masks| - 1;
      var prev := Crops(pixel, masks[..n], b);
      if prev.Failure? then prev else Visit(prev.value, n, masks[n], pixel(masks[n]), b)
  }

  /** Once a prefix of the masks has raised, the masks after it change nothing. */
  lemma {:induction false} CropsStopsAtFailure<R>(pixel: Mask -> Option<R>, done: seq<Mask>, rest: seq<Mask>, b: Bounds)
    requires Crops(pixel, done, b).Failure?
    ensures Crops(pixel, done + rest, b) == Crops(pixel, done, b)
    decreases |rest|
  {
    if rest == [] {
      assert done + rest == done;
    } else {
      var n := |rest| - 1;
      assert (done + rest)[..|done| + n] == done + rest[..n];
      CropsStopsAtFailure(pixel, done, rest[..n], b);
    }
  }

  /** The function returns exactly when no pixel step raises and no mask within both area bounds has h == 0. */
  lemma {:induction false} CropsSucceeds<R>(pixel: Mask -> Option<R>, masks: seq<Mask>, b: Bounds)
    ensures Crops(pixel, masks, b).Success? <==>
              forall i :: 0 <= i < |masks| ==> pixel(masks[i]).Some? && !DividesByZero(masks[i], b)
    decreases |masks|
  {
    if masks != [] {
      var n := |masks| - 1;
      CropsSucceeds(pixel, masks[..n], b);
      assert forall i :: 0 <= i < n ==> masks[..n][i] == masks[i];
    }
  }

  /** An exception names the first mask that raises it, and says which of the two it was. */
  lemma {:induction false} CropsFirstFailure<R>(pixel: Mask -> Option<R>, masks: seq<Mask>, b: Bounds)
    requires Crops(pixel, masks, b).Failure?
    ensures var i := Crops(pixel, masks, b).error.index;
            && i < |masks|
            && (forall j :: 0 <= j < i ==> pixel(masks[j]).Some? && !DividesByZero(masks[j], b))
            && (Crops(pixel, masks, b).error.PixelStepRaised? ==> pixel(masks[i]).None?)
            && (Crops(pixel, masks, b).error.ZeroHeight? ==> pixel(masks[i]).Some? && DividesByZero(masks[i], b))
    decreases |masks|
  {
    var n := |masks| - 1;
    if Crops(pixel, masks[..n], b).Failure? {
      CropsFirstFailure(pixel, masks[..n], b);
    } else {
      CropsSucceeds(pixel, masks[..n], b);
      assert forall j :: 0 <= j < n ==> masks[..n][j] == masks[j];
    }
  }

  /** On success there is one crop per kept mask, in input order, each the pixel step of that mask. */
  lemma {:induction false} CropsSuccessValue<R>(pixel: Mask -> Option<R>, masks: seq<Mask>, b: Bounds)
    requires Crops(pixel, masks, b).Success?
    ensures var crops, kept := Crops(pixel, masks, b).value, KeptMasks(masks, b);
            |crops| == |kept| && forall k :: 0 <= k < |kept| ==> pixel(kept[k]) == Some(crops[k])
    decreases |masks|
  {
    if masks != [] {
      var n := |masks| - 1;
      CropsSuccessValue(pixel, masks[..n], b);
    }
  }

  /**
   * crop_image_with_masks: every mask is cropped and put through the pixel
   * step before the test, and the crop is kept when the mask passes.
   */
  method CropImageWithMasks<Px, R>(image: Grid<Px>, masks: seq<Mask>, apply: (Grid<Px>, Grid<int>) -> Option<R>,
                                   b: Bounds)
    returns (r: Result<seq<R>, CropError>)
    ensures r == Crops(PixelStep(image, apply), masks, b)
  {
    ghost var pixel := PixelStep(image, apply);
    var croppedImages := [];
    for i := 0 to |masks|
      invariant Crops(pixel, masks[..i], b) == Success(croppedImages)
    {
      var maskData := masks[i];
      var box := maskData.bbox;
      var croppedImage := Crop(image, box);
      var mask := ByteMask(Crop(maskData.segmentation, box));
      var out := apply(croppedImage, mask);
      assert masks[..i + 1][..i] == masks[..i];
      assert out == pixel(masks[..i + 1][i]);
      if out.None? {
        r := Failure(PixelStepRaised(i));
        CropsStopsAtFailure(pixel, masks[..i + 1], masks[i + 1..], b);
        assert masks[..i + 1] + masks[i + 1..] == masks;
        return;
      }
      if maskData.area >= b.minArea && maskData.area <= b.maxArea {
        if box.h == 0 {
          r := Failure(ZeroHeight(i));
          CropsStopsAtFailure(pixel, masks[..i + 1], masks[i + 1..], b);
          assert masks[..i + 1] + masks[i + 1..] == masks;
          return;
        }
        if (box.w as real) / (box.h as real) >= b.ratio {
          croppedImages := croppedImages + [out.value];
        }
      }
    }
    assert masks[..|masks|] == masks;
    r := Success(croppedImages);
  }
}
