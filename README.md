# annolid frame selection and SAM helpers, in Dafny

A model of three pieces of annolid:

- The frame-selection engine of `extract_frames` and `key_frames` in
  `annolid/data/videos.py`. It covers the budget checks on `num_frames`,
  keep-all mode, the reservoir of random mode and the `heapq` top-K of flow
  mode. It also covers the key-frame pass-through, every output file name
  and the sub-clip and output-directory paths. The decoder is a `Video`
  value: the frames it returns, the container's frame count and the
  key-frame indices. Motion scores and random draws are inputs. Every
  `cv2.imwrite` becomes a `(file name, pixels)` pair in the returned list.
- `convert_to_annolid_format` and `crop_image_with_masks` in
  `annolid/segmentation/SAM/utils.py`. The RLE encoder and the OpenCV pixel
  step are function parameters.
- The label→points dictionaries of `VideoProcessor.load_json_file`, the
  vertex filter and file names of `process_frame`, and the frame schedule of
  `process_video_frames` in `annolid/segmentation/SAM/edge_sam_bg.py`. The
  SAM predictor and the "most recent LabelMe file" lookup are function
  parameters.

Modules:

- `Wrappers`: Option, Result and `dict.get` with a default.
- `Text`: `str()`, `format(n, "08")` and `format(s, "0>9")`.
- `Paths`: `pathlib` and `os.path` on POSIX strings.
- `Records`: the `(key, frame_number, frame)` tuples.
- `Reservoir`: the random-mode list as a class.
- `MotionTopK`: the flow-mode heap as a class that follows CPython's
  `heapq`.
- `VideoFiles`: the file and directory names.
- `Videos`: the loops of each mode and `extract_frames` itself.
- `Seqs`: the order-preserving filter and map on sequences.
- `SamUtils` and `EdgeSam`: the two SAM files.

Python's tuple comparison breaks ties by tuple order. On an equal score the
heap therefore evicts the record with the smaller frame number, so the later
frame is kept. A replaced reservoir slot stores the draw `j` as its tag. The
model keeps both behaviours as the code has them.

## Model

| member | source | states |
|---|---|---|
| Videos.CheckBudget | annolid/data/videos.py:207-219 | The run stops before scanning exactly when num_frames < -1 or num_frames > the frame count. It stops after the first frame exactly when a valid budget is 1. Otherwise the working budget lies in [-1, frame count] and is never 1. It is num_frames - 1 when keep_first_frame is set and num_frames > 2, and num_frames in every other case. |
| Videos.Arrivals | annolid/data/videos.py:193-200 | The `while ret` loop reads every frame after the first, and frame i is read under number i. Frame numbers strictly increase. |
| Videos.KeepAll | annolid/data/videos.py:232-238 | Keep-all mode writes every frame it reads at once, under "<dir>/<number:08>.jpg", in reading order, and keeps nothing. |
| Videos.FrameWritesDistinct | annolid/data/videos.py:233 | No two keep-all files share a name. |
| Videos.SampleRandom | annolid/data/videos.py:239-253 | The random-mode list after the loop is the reservoir specification Sample applied to the frames read and their draws. |
| Reservoir.Sampler.Offer | annolid/data/videos.py:240-251 | One frame read: ki rises by one, and the slots become Step of the old slots. Step appends with tag ki while the list is short, overwrites slot j with tag j when j < num_frames, and otherwise leaves the list unchanged. |
| Reservoir.Step | annolid/data/videos.py:241-250 | While the list is shorter than num_frames, the frame is appended with tag ki after the unchanged records. Otherwise the length stays the same: slot j becomes the frame with tag j when j < num_frames, and every other slot is unchanged. |
| Reservoir.Sample | annolid/data/videos.py:239-251 | The reservoir never holds more records than frames were read, and a budget of 0 or less keeps nothing. |
| Reservoir.SampleShape | annolid/data/videos.py:241-251 | The reservoir holds min(num_frames, frames read) records, and slot i always carries tag i. |
| Reservoir.SampleFillsInArrivalOrder | annolid/data/videos.py:241-244 | While no more than num_frames frames have been read, the reservoir is exactly those frames, in arrival order, tagged 0, 1, …. |
| Reservoir.SampleFromStream | annolid/data/videos.py:242-250 | Every record in the reservoir is a frame that was read, with its own number and pixels. |
| Reservoir.SampleDistinct | annolid/data/videos.py:242-250 | With increasing frame numbers, no frame sits in two slots. |
| Videos.ScoredMembers | annolid/data/videos.py:261-289 | A record is offered to the heap exactly when it is a frame read whose score was computed, and it carries that score. A scoring failure skips the frame. |
| Videos.ScoredBefore | annolid/data/videos.py:229-230 | Every record offered so far has a smaller frame number than the frame read next. |
| Videos.SelectByMotion | annolid/data/videos.py:254-291 | After the flow loop the list holds the num_frames highest (score, frame number) pairs offered, or all of them when fewer were offered. Every pair left out is below every pair kept. The list is a heapq heap with distinct frame numbers. |
| Videos.Scored | annolid/data/videos.py:261-289 | At most one record is offered per frame read. |
| Videos.ScoredAll | annolid/data/videos.py:261-289 | When every frame's score was computed, exactly one record is offered per frame read. |
| Videos.OfferIfScored | annolid/data/videos.py:261-291 | One flow iteration offers the frame exactly when its score was computed. The selector stays valid, and its record of offered pairs grows by that one pair. |
| MotionTopK.MotionSelector.Offer | annolid/data/videos.py:279-284 | Below capacity the heap gains the pair (heappush). At capacity the root is replaced exactly when it is below the pair, and otherwise nothing changes (heappushpop). The heap stays the top num_frames of everything offered, and its size is min(num_frames, pairs offered). |
| MotionTopK.MotionSelector.HeapPush | annolid/data/videos.py:280-281 | heappush keeps the heap invariant and adds exactly the item. |
| MotionTopK.MotionSelector.HeapPushPop | annolid/data/videos.py:283-284 | heappushpop keeps the heap invariant and the size. When the root is below the item it returns the root and the heap holds the item in the root's place. Otherwise it returns the item and the heap is unchanged. |
| MotionTopK.MotionSelector.SiftTowardRoot | annolid/data/videos.py:280-281 | heapq's move of a new item toward the root restores the heap invariant and keeps the contents. |
| MotionTopK.MotionSelector.SiftFromRoot | annolid/data/videos.py:283-284 | heapq's move of the new root down to a leaf and back up restores the heap invariant and keeps the contents. |
| MotionTopK.SinkToLeaf | annolid/data/videos.py:283-284 | The hole at the root goes down along the smaller children to a leaf. On the way the contents are kept and only the edge into the hole can be out of order. |
| MotionTopK.RootIsLeast | annolid/data/videos.py:283-284 | The root of a heap is below or equal to every element, so heappushpop compares the item with the least kept pair. |
| MotionTopK.PushKeepsTopK | annolid/data/videos.py:279-281 | Below capacity, pushing keeps every pair offered, and the result is the top-K of the longer sequence. |
| MotionTopK.ReplaceKeepsTopK | annolid/data/videos.py:282-284 | At capacity, an item above the root replaces it. The evicted root is below every pair that stays, so the top-K property holds for the longer sequence. |
| MotionTopK.RejectKeepsTopK | annolid/data/videos.py:282-284 | At capacity, an item not above the root is dropped. It is below every kept pair, so the top-K property holds. |
| MotionTopK.EqualScoreKeepsLater | annolid/data/videos.py:281 | With equal scores, whenever the earlier frame is kept, the later one is kept too. |
| Videos.WriteKept | annolid/data/videos.py:297-299 | Each kept (s, f, p) is written to "<dir>/<f:08>_<s>.jpg", in list order. |
| Videos.KeptWritesDistinct | annolid/data/videos.py:299 | Distinct frame numbers give the kept files distinct names. |
| Videos.FirstThenFramesDistinct | annolid/data/videos.py:202-205 | The first-frame file and the keep-all files never share a name. |
| Videos.FirstThenKeptDistinct | annolid/data/videos.py:202-205 | The first-frame file never shares a name with a kept-frame file. |
| Videos.WriteKeyFrames | annolid/data/videos.py:141-145 | key_frames writes exactly the decoder's key frames, each to "<dir>/<index:08>.jpg", in decoder order, and no name repeats. |
| Videos.KeyFrameWritesDistinct | annolid/data/videos.py:143 | Increasing key indices give distinct key-frame file names. |
| Videos.KeyFrames | annolid/data/videos.py:116-148 | key_frames reads the sub-clip when a span is given and the input otherwise. Its default directory is the video's parent joined with its name, suffix removed. It writes exactly the key frames. |
| Videos.SourceWindow | annolid/data/videos.py:169-172 | With a span, extract_frames reads the sub-clip that holds exactly the requested window of the original. |
| Videos.Source | annolid/data/videos.py:169-172 | Without a span the original is read from its start to its end. With a span the window read is exactly [start, end] of the original. |
| Videos.KeyframesSourceAsWritten | annolid/data/videos.py:124-127 | As written, keyframe mode with a span reads from twice the start time. Without a span it reads the original. |
| Videos.FirstWrite | annolid/data/videos.py:202-205 | A file is written before the loop exactly when keep_first_frame is set and a frame was read. It is "<dir>/00000000.jpg" with the first frame's pixels. |
| Videos.KeyframesCutTwice | annolid/data/videos.py:124-127 | As written, keyframe mode cuts the sub-clip a second time, so the window read starts at twice the start time. |
| Videos.KeyframesCutTwiceExample | annolid/data/videos.py:182-186 | As written, asking keyframe mode for seconds 10 to 20 reads the empty window from 20 to 20. The other modes read 10 to 20. |
| Videos.ExtractFrames | annolid/data/videos.py:151-304 | extract_frames reads the video or its sub-clip, cut once (the corrected behaviour of the second finding). Keyframe mode hands over to key_frames. An invalid budget or a budget of 1 writes at most the first frame. A budget of -1 writes every frame. Random mode keeps the reservoir and flow mode keeps the top-K heap. The kept records are written at the end, and no file name is written twice. |
| VideoFiles.FrameFileNameInjective | annolid/data/videos.py:233 | "<dir>/<n:08>.jpg" names differ for different frame numbers. |
| VideoFiles.KeptFileNameInjective | annolid/data/videos.py:299 | "<dir>/<f:08>_<s>.jpg" names differ for different frame numbers, whatever the scores. |
| VideoFiles.FrameAndKeptNamesDiffer | annolid/data/videos.py:204 | A plain frame file never has the name of a kept-frame file. |
| VideoFiles.KeyFrameFileNameInjective | annolid/data/videos.py:143 | Key-frame names differ for different indices. |
| VideoFiles.OutputDirOfVideo | annolid/data/videos.py:174-175 | Without out_dir, the frames of "dir/base.ext" go to "dir/base". |
| VideoFiles.OutputDirUnder | annolid/data/videos.py:176-178 | With out_dir, the frames of "dir/base.ext" go to os.path.join(out_dir, "base"). |
| VideoFiles.KeyFramesOutDirOfVideo | annolid/data/videos.py:132-135 | key_frames picks the same default directory "dir/base" for "dir/base.ext". |
| VideoFiles.SubclipPathShape | annolid/data/videos.py:102-105 | The sub-clip is in the input's directory and named "<stem>_<start>_<end>.mp4". Its stem is "<stem>_<start>_<end>" and its suffix ".mp4". |
| VideoFiles.SubclipPathOfBareName | annolid/data/videos.py:102-105 | For "base.ext" the sub-clip path is "base_<start>_<end>.mp4". |
| VideoFiles.CutOfWhole | annolid/data/videos.py:99-113 | Cutting a whole video gives the sub-clip path holding exactly the requested window. |
| VideoFiles.FrameFileName | annolid/data/videos.py:233 | The name is "<dir>/", then at least eight digits that read back as the frame number, then ".jpg". |
| VideoFiles.KeptFileName | annolid/data/videos.py:299 | The name is "<dir>/", then the frame number's digits, then "_<score>.jpg". |
| VideoFiles.KeptFileNameNumber | annolid/data/videos.py:299 | Between "<dir>/" and "_<score>.jpg", the name holds digits that read back as the frame number. |
| VideoFiles.KeyFrameFileName | annolid/data/videos.py:143 | For a non-empty directory, the file sits directly in it and is named "<index:08>.jpg". |
| VideoFiles.OutputDir | annolid/data/videos.py:174-178 | Without out_dir, the directory followed by the video's extension gives back the video path. With out_dir, the directory starts with out_dir and ends with the video's base name without its extension. |
| VideoFiles.KeyFramesOutDir | annolid/data/videos.py:132-135 | The directory sits beside the video and is named after the video's stem. |
| VideoFiles.SubclipPath | annolid/data/videos.py:102-105 | Whatever the input's extension, the sub-clip path ends in ".mp4". Its directory and name are stated by VideoFiles.SubclipPathShape. |
| VideoFiles.FfmpegTargetAsWritten | annolid/data/videos.py:69-72 | As written, the target starts with the input's root. When the input has an extension, two dots precede it. |
| VideoFiles.FfmpegTargetAsWrittenDoublesDot | annolid/data/videos.py:69-72 | As written, the default target of a file with an extension has a root that ends in '.', followed by the original extension. |
| VideoFiles.FfmpegTargetAsWrittenExample | annolid/data/videos.py:69-72 | As written, a one-second cut of "<base>.mp4" is named "<base>SUB0_1000..mp4". |
| VideoFiles.FfmpegTargetKeepsExtension | annolid/data/videos.py:69-72 | Corrected, the target splits into the input's root plus "SUB<t1>_<t2>" and the input's own extension. |
| VideoFiles.FfmpegTargetExample | annolid/data/videos.py:69-72 | Corrected, a one-second cut of "<base>.mp4" is named "<base>SUB0_1000.mp4". |
| Text.ZeroPadRoundTrip | annolid/data/videos.py:233 | "{n:08}" is 8 characters unless n needs more digits, is all digits and reads back as n. |
| Text.ZeroPadInjective | annolid/data/videos.py:299 | Two numbers padded to the same width give the same text only when they are equal. |
| Text.AlignRightOfNatural | annolid/segmentation/SAM/edge_sam_bg.py:102 | For a non-negative frame number, "0>9" gives the same text as "09". |
| Text.AlignRightOfNegative | annolid/segmentation/SAM/edge_sam_bg.py:102 | For a negative number, "0>9" puts the zeros before the sign: -5 gives "0000000-5". |
| Text.StrHasNoSeparator | annolid/data/videos.py:103-104 | str() of an int contains no '/', '.' or '_'. |
| Paths.SplitExtSpec | annolid/data/videos.py:69 | splitext gives back the whole path in two parts. The extension is empty, or one '.' followed by neither '.' nor '/'. |
| Paths.SplitExt | annolid/data/videos.py:175 | The root and the extension concatenate back to the path, and the extension is empty or starts with '.'. |
| Paths.WithSuffix | annolid/segmentation/SAM/edge_sam_bg.py:103 | For a path with a name and a suffix without '/', the result stays in the same directory, and its name is the old stem followed by the new suffix. |
| Paths.OsJoin | annolid/data/videos.py:178 | An absolute second part replaces the first. Otherwise the result starts with the first part, ends with the second, and adds at most one '/'. |
| Paths.JoinSplits | annolid/segmentation/SAM/edge_sam_bg.py:101-102 | Joining a name to a directory and splitting the result gives both back. |
| Paths.StemOfSuffixed | annolid/segmentation/SAM/edge_sam_bg.py:103 | A name "base" + ".ext", where ext has no '.', has stem "base" and suffix ".ext". |
| Seqs.Filter | annolid/segmentation/SAM/utils.py:95-98 | The filtered list is never longer than its input. |
| Seqs.FilterMembers | annolid/segmentation/SAM/utils.py:95-98 | An element is kept exactly when it is in the input and passes the test. |
| Seqs.FilterAppend | annolid/segmentation/SAM/edge_sam_bg.py:95-98 | Filtering distributes over concatenation, so the relative order of the kept elements is preserved. |
| SamUtils.ConvertToAnnolidFormat | annolid/segmentation/SAM/utils.py:32-57 | One row per mask, in mask order. Each row has the given frame number, x1 = x, y1 = y, x2 = x + w and y2 = y + h, and the XYWH box reads back from the corners. A missing instance name, score or tracking id becomes "object", no score and "" respectively. The segmentation is the encoded mask. |
| SamUtils.CropWindow | annolid/segmentation/SAM/utils.py:87 | For a box inside the grid, the crop is h rows of w cells, and cell (r, c) is grid[y + r][x + c]. |
| SamUtils.CropSameShape | annolid/segmentation/SAM/utils.py:87-90 | The image and a segmentation of the same shape give crops of the same shape for any box. |
| SamUtils.CropImageWithMasks | annolid/segmentation/SAM/utils.py:78-100 | The loop yields Crops: the pixel-step results of the masks that pass, or the first error raised. |
| SamUtils.CropsSucceeds | annolid/segmentation/SAM/utils.py:80-98 | The function returns exactly when no mask's pixel step raises and no mask that passes both area bounds has h == 0. |
| SamUtils.CropsFirstFailure | annolid/segmentation/SAM/utils.py:80-98 | An error names the first mask that fails and which of the two errors it raised. Every earlier mask succeeds. |
| SamUtils.CropsSuccessValue | annolid/segmentation/SAM/utils.py:95-98 | On success, the result has one entry per kept mask, in input order, and each entry is that mask's pixel-step result. |
| SamUtils.CropsStopsAtFailure | annolid/segmentation/SAM/utils.py:80-98 | Once a prefix of the masks has raised, later masks change nothing. |
| SamUtils.Crops | annolid/segmentation/SAM/utils.py:80-98 | On success there are at most as many crops as masks. An error names the position of a mask in the list. |
| SamUtils.Passes | annolid/segmentation/SAM/utils.py:95-97 | A mask that passes meets both area bounds and never reaches the division by zero. |
| SamUtils.KeptMembers | annolid/segmentation/SAM/utils.py:95-98 | A mask is kept exactly when min_area <= area <= max_area, h != 0 and w/h >= the ratio. No more masks are kept than were given. |
| SamUtils.KeptAppend | annolid/segmentation/SAM/utils.py:80-98 | The kept masks of a concatenation are the kept masks of each part, in order. |
| SamUtils.DefaultFilter | annolid/segmentation/SAM/utils.py:62-64 | With the defaults 8000, 500 and 0.9 and h > 0, a mask passes exactly when 500 <= area <= 8000 and 10·w >= 9·h. |
| EdgeSam.Load | annolid/segmentation/SAM/edge_sam_bg.py:58-68 | After the loop both dictionaries are well formed and list the same keys in the same order. Every point label is 1. |
| EdgeSam.LoadJsonFile | annolid/segmentation/SAM/edge_sam_bg.py:58-70 | The loop builds the dictionaries of Load. A missing "shapes" key gives two empty dictionaries. |
| EdgeSam.LoadKeys | annolid/segmentation/SAM/edge_sam_bg.py:61-66 | A label is a key exactly when some shape has that non-empty label and a non-empty points list. |
| EdgeSam.LoadLastWins | annolid/segmentation/SAM/edge_sam_bg.py:66 | A label stores the points of the last accepted shape that carries it. |
| EdgeSam.LoadLast | annolid/segmentation/SAM/edge_sam_bg.py:61-66 | For one accepted shape that no later accepted shape relabels, its label is stored with its points. |
| EdgeSam.Put | annolid/segmentation/SAM/edge_sam_bg.py:66-68 | Storing under a label keeps the dictionary well formed, sets that label's value and leaves every other label as it was. |
| EdgeSam.KeepVertices | annolid/segmentation/SAM/edge_sam_bg.py:95-98 | A vertex is kept exactly when x >= 1 and y >= 1, in the original order, and the result is no longer than the polygon. |
| EdgeSam.PredictPolygons | annolid/segmentation/SAM/edge_sam_bg.py:87-99 | The label list is LabelPolygons: one polygon per prompt label, in dictionary order, holding the on-canvas vertices the predictor returns for that label's points, all labelled 1. |
| EdgeSam.LabelPolygonsShape | annolid/segmentation/SAM/edge_sam_bg.py:87-99 | The label list has as many polygons as labels, the k-th named after the k-th label, and all of their vertices have x >= 1 and y >= 1. |
| EdgeSam.VideoProcessor.constructor | annolid/segmentation/SAM/edge_sam_bg.py:16-28 | The processor keeps the video path and the predictor, and its video folder is the path with its suffix removed. |
| EdgeSam.VideoProcessor.ProcessFrame | annolid/segmentation/SAM/edge_sam_bg.py:72-107 | process_frame gives the annotation file, the image file and the label list of Processed. |
| EdgeSam.FrameFiles | annolid/segmentation/SAM/edge_sam_bg.py:101-103 | The annotation file is "<folder name>_<frame:0>9>.json" inside the video folder. The image file is the same path with suffix ".png", in the same folder and with the same stem. |
| EdgeSam.FrameNumberPadding | annolid/segmentation/SAM/edge_sam_bg.py:102 | A frame number is padded to at least 9 characters. A non-negative one is all digits and reads back as the number. |
| EdgeSam.AnnotationFilesDistinct | annolid/segmentation/SAM/edge_sam_bg.py:101-102 | Different non-negative frame numbers give different annotation files. |
| EdgeSam.ImageFileIsWithSuffix | annolid/segmentation/SAM/edge_sam_bg.py:101-103 | `with_suffix('.png')` of the annotation path is the image file, for every folder. |
| EdgeSam.JsonToPng | annolid/segmentation/SAM/edge_sam_bg.py:103 | In any directory, with_suffix('.png') turns "<base>.json" into "<base>.png". |
| EdgeSam.FileInFolder | annolid/segmentation/SAM/edge_sam_bg.py:101-103 | "<base>.<ext>" joined to a folder has that folder as parent, "<base>" as stem and ".<ext>" as suffix. |
| EdgeSam.PaddedHasNoSeparator | annolid/segmentation/SAM/edge_sam_bg.py:102 | The padded frame number contains no '/' and no '.'. |
| EdgeSam.VideoFolderOf | annolid/segmentation/SAM/edge_sam_bg.py:26 | The video folder of "dir/base.ext" is "dir/base". |
| EdgeSam.PyRangeAt | annolid/segmentation/SAM/edge_sam_bg.py:118 | The k-th frame of range(start, stop, step) is start + k·step. |
| EdgeSam.PyRangeWithin | annolid/segmentation/SAM/edge_sam_bg.py:118 | Every frame of the range lies before stop in the step's direction. |
| EdgeSam.PyRangeMaximal | annolid/segmentation/SAM/edge_sam_bg.py:118 | One more step would reach or pass stop. |
| EdgeSam.PyRange | annolid/segmentation/SAM/edge_sam_bg.py:118 | The length is CPython's range length: (stop - start - 1) / step + 1 when start < stop with a positive step, mirrored for a negative step, and 0 when no step fits. |
| EdgeSam.ScheduleIncreasing | annolid/segmentation/SAM/edge_sam_bg.py:118 | With a positive step the frames strictly increase, so none is processed twice. |
| EdgeSam.ScheduleBounds | annolid/segmentation/SAM/edge_sam_bg.py:118 | With a positive step every frame is in [start_frame, end_frame]. |
| EdgeSam.ScheduleReachesEnd | annolid/segmentation/SAM/edge_sam_bg.py:118 | With a positive step, end_frame is processed when it is start_frame plus a multiple of step. |
| EdgeSam.NegativeStepSchedule | annolid/segmentation/SAM/edge_sam_bg.py:118 | With step -1 from 10 to end 5, the frames are 10, 9, 8 and 7. Neither 6 nor end_frame is processed. |
| EdgeSam.VideoProcessor.ProcessFrames | annolid/segmentation/SAM/edge_sam_bg.py:118-119 | The loop calls process_frame for each scheduled frame, in order: the outputs are process_frame mapped over the frames. |
| EdgeSam.VideoOutputsAt | annolid/segmentation/SAM/edge_sam_bg.py:118-119 | There is one output per frame, and the k-th output is Processed of the k-th frame. |
| EdgeSam.Processed | annolid/segmentation/SAM/edge_sam_bg.py:83-99 | process_frame saves one polygon per label of the most recent file's prompts, in dictionary order, each named after its label. |
| Seqs.MapAt | annolid/segmentation/SAM/edge_sam_bg.py:118-119 | A mapped list has one element per input, and the k-th is the function of the k-th input. |
| EdgeSam.VideoProcessor.ProcessVideoFrames | annolid/segmentation/SAM/edge_sam_bg.py:109-119 | A zero step raises before any frame is processed. Otherwise the outputs are process_frame of each frame of range(start_frame, end_frame + 1, step), in order. |

## Left out

- Video decoding (OpenCV and decord): the decoder is a `Video` value. Frame i of the stream sits at position i, which is what `cap.get(1)` reports before the read.
- The ffmpeg lookup and the subprocess in `ffmpeg_extract_subclip`, together with its return-code handling: only the file names are modelled. A sub-clip is followed as a window of the original video.
- `int(1000*t)` and `"%0.2f"` in `ffmpeg_extract_subclip`: float formatting. The target-name functions take the millisecond integers directly.
- Motion scoring (MOG2, Farneback flow and the sum of the flow): the score of each frame is an input. `None` stands for a scoring exception, which skips the offer.
- The `show_flow` display and the Esc-key break: UI. A run is modelled as reading the whole video.
- `random.randrange`: the draw is an input in [0, ki]. The probability of being kept is not modelled.
- `track()`, model loading, `set_image` and `predict_polygon_from_points`: the predictor is a function parameter of the frame number, the points and the point labels.
- JSON reading in `load_json_file`: the parsed "shapes" list is an input, and `None` stands for a missing key. A label is an optional string, so a non-string label is not modelled.
- `find_most_recent_file`: the parsed shapes of the most recent file are given per frame as a function parameter.
- `Shape`, `addPoint` and `save_labels`: a polygon is a label and a vertex list, and process_frame returns the two file paths and the label list.
- COCO RLE encoding, `cv2.bitwise_and` and `cv2.cvtColor`: the encoder and the pixel step are function parameters. The pixel step may raise, which stops `crop_image_with_masks`.
- `mask.get("segmentation", '')`: a mask always carries a segmentation. Encoding the empty default would raise in the library, so that path is not modelled.
- `mask.get("bbox")` on a mask without a box (a TypeError in the source): every mask carries a box of four ints.
- `load_frame` and the frame's height and width handed to `save_labels`: the decoded frame is not modelled. The predictor takes the frame number in place of the image given to `set_image`.
- Every `imwrite`, `print` and `mkdir`: the files written are returned as names with their pixels, and directory creation is not modelled.
- SamUtils.KeptMembers: w/h is an exact real division, not a float. A ratio that float rounding pushes across width_height_ratio is not modelled.
- Videos.ExtractFrames: in flow mode it states which records are kept and that they form a heap, not the exact list order heapq leaves them in. That order is computed by the body of MotionTopK.MotionSelector.Offer and is not stated by any contract.
- Videos.ExtractFrames: in keyframe mode with a span, the model reads the sub-clip cut once (Videos.Source), the corrected behaviour of the second finding. The code as written cuts it a second time inside key_frames; Videos.KeyframesSourceAsWritten and Videos.KeyframesCutTwice model that separately.
- Videos.ExtractFrames: its requires asks for at least one frame whenever keep_first_frame is set or the budget check passes. On an empty or unreadable video the source hands None to cv2.imwrite (line 205) or to np.zeros_like and the hsv assignment (lines 221-222), which raise. That error path is not modelled.
- Videos.Scored: the last pass of the flow loop reads no frame (frame is None) and calls subtractor.apply and cv2.bitwise_and outside the try (lines 255-260). The model takes that pass as making no offer, like a skipped frame. Whether OpenCV raises there, which would end extract_frames before any kept frame is written, is not modelled.
- Sub-clip times (`Videos.Span`) are whole seconds. The source takes floats and writes str(start_time) into the sub-clip name (lines 103-104), so a name such as "v_1.5_3.0.mp4" is not modelled.
- Path normalisation in `pathlib` (repeated or trailing '/', "." components): paths are plain POSIX strings with single separators.

## Findings

| source | as written | input that shows it | evidently intended | confidence | as-written member | corrected member |
|---|---|---|---|---|---|---|
| annolid/data/videos.py:69-72 | The default target puts a '.' before the extension, but `os.path.splitext` already returns the extension with its '.'. | "clip.mp4", t1 = 0, t2 = 1 gives "clipSUB0_1000..mp4" | "clipSUB0_1000.mp4" | high, not executed | VideoFiles.FfmpegTargetAsWrittenDoublesDot | VideoFiles.FfmpegTargetKeepsExtension |
| annolid/data/videos.py:169-186 | Keyframe mode cuts the sub-clip in `extract_frames`, then passes `sub_clip` and both times on to `key_frames`, which cuts the sub-clip again with the same times. | sub_clip with start 10 and end 20 reads seconds 20 to 20 of the video, which is empty | read seconds 10 to 20, as the other modes do | high, not executed | Videos.KeyframesCutTwice | Videos.SourceWindow |
