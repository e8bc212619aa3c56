/**
 * The file and directory names of annolid/data/videos.py: the frame files
 * written by `extract_frames` and `key_frames`, their output directories,
 * the sub-clip path of `extract_subclip` and the default target name of
 * `ffmpeg_extract_subclip`. A sub-clip is also followed as a window of the
 * original video, so that the file a mode reads can be stated.
 * os.sep is '/'.
 */
module VideoFiles {

  import opened Wrappers
  import opened Text
  import opened Paths

  // ---- frame files ----

  /** f"{out_dir}{os.sep}{name}" */
  function InDir(dir: string, name: string): string
  {
    dir + "/" + name
  }

  /** A file name "<a><b>" in `dir` is `dir`, a '/', then `a` and `b` in place. */
  lemma InDirParts(dir: string, a: string, b: string)
    ensures |InDir(dir, a + b)| == |dir| + 1 + |a| + |b|
    ensures InDir(dir, a + b)[..|dir| + 1] == dir + "/"
    ensures InDir(dir, a + b)[|dir| + 1..|dir| + 1 + |a|] == a
    ensures InDir(dir, a + b)[|dir| + 1 + |a|..] == b
  {
    assert InDir(dir, a + b) == (dir + "/") + a + b;
  }

  /** f"{out_dir}{os.sep}{frame_number:08}.jpg" (first frame and keep-all mode) */
  function FrameFileName(dir: string, number: nat): (p: string)
    ensures |p| >= |dir| + 13 && p[..|dir| + 1] == dir + "/" && p[|p| - 4..] == ".jpg"
    ensures Spells(p[|dir| + 1..|p| - 4], number)
  {
    ZeroPadRoundTrip(number, 8);
    InDirParts(dir, ZeroPad(number, 8), ".jpg");
    InDir(dir, ZeroPad(number, 8) + ".jpg")
  }

  /** f"{out_dir}{os.sep}{f:08}_{s}.jpg" for a kept `(s, f, p)` record */
  function KeptFileName(dir: string, number: nat, key: int): (p: string)
    ensures |p| >= |dir| + 14 + |Str(key)| && p[..|dir| + 1] == dir + "/"
    ensures p[|p| - |Str(key)| - 5..] == "_" + (Str(key) + ".jpg")
  {
    InDirParts(dir, ZeroPad(number, 8), "_" + (Str(key) + ".jpg"));
    InDir(dir, ZeroPad(number, 8) + ("_" + (Str(key) + ".jpg")))
  }

  /** Between the directory and "_<key>.jpg" the kept file's name holds digits that read back as the frame number. */
  lemma KeptFileNameNumber(dir: string, number: nat, key: int)
    ensures Spells(KeptFileName(dir, number, key)[|dir| + 1..|KeptFileName(dir, number, key)| - |Str(key)| - 5], number)
  {
    ZeroPadRoundTrip(number, 8);
    InDirParts(dir, ZeroPad(number, 8), "_" + (Str(key) + ".jpg"));
  }

  /** out_dir / f"{ki:08}.jpg" in key_frames */
  function KeyFrameFileName(dir: string, index: nat): (p: string)
    ensures dir != "" ==> Parent(p) == dir && Name(p) == ZeroPad(index, 8) + ".jpg"
  {
    var name := ZeroPad(index, 8) + ".jpg";
    if dir != "" then
      ZeroPadRoundTrip(index, 8);
      assert '/' !in name by {
        assert forall k :: 0 <= k < |name| ==> IsDigit(name[k]) || name[k] in ".jpg";
      }
      JoinSplits(dir, name);
      Join(dir, name)
    else
      Join(dir, name)
  }

  lemma InDirInjective(dir: string, x: string, y: string)
    requires InDir(dir, x) == InDir(dir, y)
    ensures x == y
  {
    assert x == InDir(dir, x)[|dir| + 1..];
    assert y == InDir(dir, y)[|dir| + 1..];
  }

  /** Two frame files in one directory have the same name only for the same frame number. */
  lemma FrameFileNameInjective(dir: string, a: nat, b: nat)
    requires FrameFileName(dir, a) == FrameFileName(dir, b)
    ensures a == b
  {
    var x, y := ZeroPad(a, 8) + ".jpg", ZeroPad(b, 8) + ".jpg";
    InDirInjective(dir, x, y);
    assert ZeroPad(a, 8) == x[..|x| - 4] && ZeroPad(b, 8) == y[..|y| - 4];
    ZeroPadInjective(a, b, 8);
  }

  /** Two kept-frame files in one directory have the same name only for the same frame number. */
  lemma KeptFileNameInjective(dir: string, a: nat, s: int, b: nat, t: int)
    requires KeptFileName(dir, a, s) == KeptFileName(dir, b, t)
    ensures a == b
  {
    var za, zb := ZeroPad(a, 8), ZeroPad(b, 8);
    var x, y := za + ("_" + (Str(s) + ".jpg")), zb + ("_" + (Str(t) + ".jpg"));
    assert x == y by {
      InDirInjective(dir, x, y);
    }
    assert x == za + "_" + (Str(s) + ".jpg") && y == zb + "_" + (Str(t) + ".jpg");
    ZeroPadExcludes(a, 8, '_');
    ZeroPadExcludes(b, 8, '_');
    assert za == zb by {
      SplitAtSeparator(za, Str(s) + ".jpg", zb, Str(t) + ".jpg", '_');
    }
    ZeroPadInjective(a, b, 8);
  }

  /** A kept-frame file never has the name of a plain frame file of the same directory. */
  lemma FrameAndKeptNamesDiffer(dir: string, a: nat, b: nat, s: int)
    ensures FrameFileName(dir, a) != KeptFileName(dir, b, s)
  {
    var za, zb := ZeroPad(a, 8), ZeroPad(b, 8);
    var x, y := za + ".jpg", zb + ("_" + (Str(s) + ".jpg"));
    var m := Min(|za|, |zb|);
    assert x[m] != y[m] by {
      ZeroPadRoundTrip(a, 8);
      ZeroPadRoundTrip(b, 8);
      assert x[m] == '.' || IsDigit(x[m]);
      assert y[m] == '_' || IsDigit(y[m]);
    }
    assert FrameFileName(dir, a)[|dir| + 1 + m] == x[m];
    assert KeptFileName(dir, b, s)[|dir| + 1 + m] == y[m];
  }

  /** Two key-frame files in one directory have the same name only for the same index. */
  lemma KeyFrameFileNameInjective(dir: string, a: nat, b: nat)
    requires KeyFrameFileName(dir, a) == KeyFrameFileName(dir, b)
    ensures a == b
  {
    var x, y := ZeroPad(a, 8) + ".jpg", ZeroPad(b, 8) + ".jpg";
    if dir == "/" {
      assert x == Join(dir, x)[1..] && y == Join(dir, y)[1..];
    } else if dir != "." {
      InDirInjective(dir, x, y);
    }
    assert ZeroPad(a, 8) == x[..|x| - 4] && ZeroPad(b, 8) == y[..|y| - 4];
    ZeroPadInjective(a, b, 8);
  }

  // ---- output directories ----

  /** The output directory of extract_frames: the video path without its extension, or out_dir/<video name without extension>. */
  function OutputDir(videoFile: string, outDir: Option<string>): (r: string)
    ensures outDir.None? ==> r + SplitExt(videoFile).1 == videoFile
    ensures outDir.Some? ==> |r| >= |outDir.value| + |SplitExt(Basename(videoFile)).0|
    ensures outDir.Some? ==> r[..|outDir.value|] == outDir.value
    ensures outDir.Some? ==> r[|r| - |SplitExt(Basename(videoFile)).0|..] + SplitExt(Basename(videoFile)).1 == Basename(videoFile)
  {
    var stem := SplitExt(Basename(videoFile)).0;
    assert stem == Basename(videoFile)[..|stem|];
    assert stem == "" || stem[0] != '/';
    match outDir
    case None => SplitExt(videoFile).0
    case Some(d) => OsJoin(d, SplitExt(Basename(videoFile)).0)
  }

  /** The default output directory of key_frames: the video's parent joined with its name, suffix removed. */
  function KeyFramesOutDir(videoFile: string): (r: string)
    ensures Name(videoFile) != "" ==> Parent(r) == Parent(videoFile) && Name(r) == Stem(Name(videoFile))
  {
    if Name(videoFile) != "" then
      JoinSplits(Parent(videoFile), Name(videoFile));
      assert Stem(Name(videoFile)) + "" == Stem(Name(videoFile));
      WithSuffix(Join(Parent(videoFile), Name(videoFile)), "")
    else
      WithSuffix(Join(Parent(videoFile), Name(videoFile)), "")
  }

  /** For a video "dir/base.ext" the default output directory of extract_frames is "dir/base". */
  lemma OutputDirOfVideo(dir: string, base: string, ext: string)
    requires '/' !in base && '/' !in ext && '.' !in ext
    requires base != "" && base[0] != '.'
    ensures OutputDir(InDir(dir, base + "." + ext), None) == InDir(dir, base)
  {
    SplitExtAfterSlash(dir, base, ext);
  }

  /** With an out_dir given, the frames of "dir/base.ext" go to "<out_dir>/base". */
  lemma OutputDirUnder(dir: string, base: string, ext: string, outDir: string)
    requires '/' !in base && '/' !in ext && '.' !in ext
    requires base != "" && base[0] != '.'
    ensures OutputDir(InDir(dir, base + "." + ext), Some(outDir)) == OsJoin(outDir, base)
  {
    var name := base + "." + ext;
    assert Basename(InDir(dir, name)) == name by {
      NameAfterSlash(dir, name);
    }
    SplitExtOfDottedName(base, ext);
  }

  /** key_frames picks the same default directory "dir/base" for a video "dir/base.ext". */
  lemma KeyFramesOutDirOfVideo(dir: string, base: string, ext: string)
    requires dir != "" && dir != "." && dir != "/" && '/' !in base && '/' !in ext && '.' !in ext
    requires base != "" && ext != ""
    ensures KeyFramesOutDir(InDir(dir, base + "." + ext)) == InDir(dir, base)
  {
    var name := base + "." + ext;
    var v := InDir(dir, name);
    assert v == Join(dir, name);
    assert Parent(v) == dir && Name(v) == name by {
      assert '/' !in name;
      JoinSplits(dir, name);
    }
    assert Stem(name) == base by {
      StemOfDottedName(base, ext);
    }
    assert Stem(name) + "" == base;
  }

  // ---- sub-clips ----

  /** The stem of extract_subclip's output: the input's stem and the two times, joined by '_'. */
  function SubclipStem(videoFile: string, start: int, end: int): string
  {
    Stem(Name(videoFile)) + "_" + Str(start) + "_" + Str(end)
  }

  /** extract_subclip's output path: "<stem>_<start>_<end>.mp4" beside the input video. */
  function SubclipPath(videoFile: string, start: int, end: int): (p: string)
    ensures |p| >= 4 && p[|p| - 4..] == ".mp4"
  {
    JoinEndsWith(Parent(videoFile), SubclipStem(videoFile, start, end), ".mp4");
    Join(Parent(videoFile), SubclipStem(videoFile, start, end) + ".mp4")
  }

  /** A joined path ends with the name it was given. */
  lemma JoinEndsWith(dir: string, base: string, ext: string)
    ensures |Join(dir, base + ext)| >= |ext| && Join(dir, base + ext)[|Join(dir, base + ext)| - |ext|..] == ext
  {
    var j := Join(dir, base + ext);
    var front := j[..|j| - |base + ext|];
    assert j == front + base + ext;
  }

  lemma SubclipStemHasNoSlash(videoFile: string, start: int, end: int)
    ensures '/' !in SubclipStem(videoFile, start, end)
  {
    var name := Name(videoFile);
    var stem := Stem(name);
    assert '/' !in stem by {
      assert stem == name[..|stem|];
    }
    StrHasNoSeparator(start);
    StrHasNoSeparator(end);
  }

  /** The sub-clip lies in the input's directory, is named after the input's stem and the two times, and ends in ".mp4". */
  lemma SubclipPathShape(videoFile: string, start: int, end: int)
    ensures Parent(SubclipPath(videoFile, start, end)) == Parent(videoFile)
    ensures Name(SubclipPath(videoFile, start, end)) == SubclipStem(videoFile, start, end) + ".mp4"
    ensures Stem(Name(SubclipPath(videoFile, start, end))) == SubclipStem(videoFile, start, end)
    ensures Suffix(Name(SubclipPath(videoFile, start, end))) == ".mp4"
  {
    var base := SubclipStem(videoFile, start, end);
    SubclipStemHasNoSlash(videoFile, start, end);
    assert '/' !in base + ".mp4";
    JoinSplits(Parent(videoFile), base + ".mp4");
    StemOfMp4Name(base);
  }

  /** For a bare file name "base.ext" the sub-clip is "base_<start>_<end>.mp4" in the current directory. */
  lemma SubclipPathOfBareName(base: string, ext: string, start: int, end: int)
    requires base != "" && ext != "" && '.' !in ext && '/' !in base && '/' !in ext
    ensures SubclipPath(base + "." + ext, start, end) == base + "_" + Str(start) + "_" + Str(end) + ".mp4"
  {
    var p := base + "." + ext;
    assert '/' !in p;
    LastIndexIs(p, '/', -1);
    assert Name(p) == p;
    StemOfDottedName(base, ext);
  }

  /**
   * A file and the stretch of the original video it holds, in seconds:
   * from `from` to `until`, or to the end of the original. The window is
   * empty when it ends at or before `from`.
   */
  datatype Clip = Clip(path: string, from: int, until: End)

  /** Where a clip's window ends: with the original, or at a second of it. */
  datatype End = WithOriginal | At(second: int)

  /** A video file as it is. */
  function Whole(videoFile: string): Clip
  {
    Clip(videoFile, 0, WithOriginal)
  }

  /**
   * extract_subclip(clip.path, start, end): ffmpeg copies the part from
   * `start` to `end` seconds of the clip into the sub-clip file.
   */
  function Cut(c: Clip, start: int, end: int): Clip
  {
    var until := if c.until.At? then Min(c.from + end, c.until.second) else c.from + end;
    Clip(SubclipPath(c.path, start, end), c.from + start, At(until))
  }

  /** Cutting a whole video gives exactly the requested window of it. */
  lemma CutOfWhole(videoFile: string, start: int, end: int)
    ensures Cut(Whole(videoFile), start, end) == Clip(SubclipPath(videoFile, start, end), start, At(end))
  {
  }

  // ---- ffmpeg_extract_subclip's default target ----

  /** The text both versions put between the root and the extension: "SUB<t1>_<t2>". */
  function Tag(t1: int, t2: int): string
  {
    "SUB" + Str(t1) + "_" + Str(t2)
  }

  /** "%sSUB%d_%d.%s" % (name, T1, T2, ext) with (name, ext) = os.path.splitext(filename), as written. */
  function FfmpegTargetAsWritten(filename: string, t1: int, t2: int): (t: string)
    ensures |t| > |SplitExt(filename).0| + |SplitExt(filename).1| && t[..|SplitExt(filename).0|] == SplitExt(filename).0
    ensures SplitExt(filename).1 != "" ==> t[|t| - |SplitExt(filename).1| - 1] == '.' && t[|t| - |SplitExt(filename).1|] == '.'
  {
    TargetLayout(SplitExt(filename).0, Tag(t1, t2), SplitExt(filename).1);
    SplitExt(filename).0 + Tag(t1, t2) + "." + SplitExt(filename).1
  }

  /** Where the parts of `root + tag + "." + ext` sit. */
  lemma TargetLayout(root: string, tag: string, ext: string)
    ensures |root + tag + "." + ext| == |root| + |tag| + 1 + |ext|
    ensures (root + tag + "." + ext)[..|root|] == root
    ensures (root + tag + "." + ext)[|root| + |tag|] == '.'
    ensures (root + tag + "." + ext)[|root| + |tag| + 1..] == ext
  {
    assert root + tag + "." + ext == root + (tag + "." + ext);
  }

  /** The same name with the extension appended once, as splitext already returns it with its '.'. */
  function FfmpegTarget(filename: string, t1: int, t2: int): string
  {
    var (name, ext) := SplitExt(filename);
    name + Tag(t1, t2) + ext
  }

  /** The tag starts with 'S' and holds neither '/' nor '.'. */
  lemma TagChars(t1: int, t2: int)
    ensures Tag(t1, t2) != [] && Tag(t1, t2)[0] == 'S'
    ensures forall k :: 0 <= k < |Tag(t1, t2)| ==> Tag(t1, t2)[k] != '/' && Tag(t1, t2)[k] != '.'
  {
    var a, b := Str(t1), Str(t2);
    var m := Tag(t1, t2);
    StrHasNoSeparator(t1);
    StrHasNoSeparator(t2);
    forall k | 0 <= k < |m|
      ensures m[k] != '/' && m[k] != '.'
    {
      if 3 <= k < 3 + |a| {
        assert m[k] == a[k - 3];
      } else if 3 + |a| < k {
        assert m[k] == b[k - 4 - |a|];
      }
    }
  }

  /** As written, a file with an extension gets an extra '.' before it: splitext of the target sees the root end in '.'. */
  lemma FfmpegTargetAsWrittenDoublesDot(filename: string, t1: int, t2: int)
    requires SplitExt(filename).1 != ""
    ensures SplitExt(FfmpegTargetAsWritten(filename, t1, t2)) ==
              (SplitExt(filename).0 + Tag(t1, t2) + ".", SplitExt(filename).1)
  {
    var (name, ext) := SplitExt(filename);
    var mid := Tag(t1, t2) + ".";
    assert ext[0] == '.' && '.' !in ext[1..] && '/' !in ext by {
      SplitExtSpec(filename);
    }
    assert mid[0] != '.' && '/' !in mid by {
      TagChars(t1, t2);
      assert forall k :: 0 <= k < |mid| ==> mid[k] == if k < |Tag(t1, t2)| then Tag(t1, t2)[k] else '.';
    }
    assert FfmpegTargetAsWritten(filename, t1, t2) == name + mid + ext;
    SplitExtAppend(name, mid, ext);
  }

  /** The instance: a one-second cut of "<base>.mp4" is named "<base>SUB0_1000..mp4". */
  lemma FfmpegTargetAsWrittenExample(base: string)
    requires base != "" && base[0] != '.' && '/' !in base
    ensures FfmpegTargetAsWritten(base + ".mp4", 0, 1000) == base + "SUB0_1000..mp4"
  {
    var f := base + ".mp4";
    assert SplitExt(f) == (base, ".mp4") by {
      SplitExtAppend("", base, ".mp4");
      assert "" + base + ".mp4" == f;
    }
    var tag := Tag(0, 1000);
    assert tag + "." + ".mp4" == "SUB0_1000..mp4" by {
      OneSecond();
      OneSecondTags();
    }
    var t := FfmpegTargetAsWritten(f, 0, 1000);
    assert t == base + tag + "." + ".mp4";
    assert t == base + (tag + "." + ".mp4");
  }

  /** Corrected, the target keeps the input's extension and its root is the input's root with the tag appended. */
  lemma FfmpegTargetKeepsExtension(filename: string, t1: int, t2: int)
    requires SplitExt(filename).1 != ""
    ensures SplitExt(FfmpegTarget(filename, t1, t2)) == (SplitExt(filename).0 + Tag(t1, t2), SplitExt(filename).1)
  {
    var (name, ext) := SplitExt(filename);
    assert ext[0] == '.' && '.' !in ext[1..] && '/' !in ext by {
      SplitExtSpec(filename);
    }
    assert Tag(t1, t2) != [] && Tag(t1, t2)[0] != '.' && '/' !in Tag(t1, t2) by {
      TagChars(t1, t2);
    }
    assert FfmpegTarget(filename, t1, t2) == name + Tag(t1, t2) + ext;
    SplitExtAppend(name, Tag(t1, t2), ext);
  }

  /** The instance: a one-second cut of "<base>.mp4" is named "<base>SUB0_1000.mp4". */
  lemma FfmpegTargetExample(base: string)
    requires base != "" && base[0] != '.' && '/' !in base
    ensures FfmpegTarget(base + ".mp4", 0, 1000) == base + "SUB0_1000.mp4"
  {
    var f := base + ".mp4";
    assert SplitExt(f) == (base, ".mp4") by {
      SplitExtAppend("", base, ".mp4");
      assert "" + base + ".mp4" == f;
    }
    var tag := Tag(0, 1000);
    assert tag + ".mp4" == "SUB0_1000.mp4" by {
      OneSecond();
      OneSecondTags();
    }
    var t := FfmpegTarget(f, 0, 1000);
    assert t == base + tag + ".mp4";
    assert t == base + (tag + ".mp4");
  }

  lemma OneSecondTags()
    ensures "SUB" + "0" + "_" + "1000" + "." + ".mp4" == "SUB0_1000..mp4"
    ensures "SUB" + "0" + "_" + "1000" + ".mp4" == "SUB0_1000.mp4"
  {
  }

  lemma OneSecond()
    ensures Str(0) == "0" && Str(1000) == "1000"
  {
    assert Digits(10) == "10";
    assert Digits(100) == "100";
  }
}
