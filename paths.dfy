/**
 * The pathlib and os.path operations the core uses to name its outputs,
 * on POSIX path strings ('/' as the separator). Paths are taken as given:
 * pathlib's normalisation of "//", "." components and trailing slashes is
 * not modelled.
 */
module Paths {

  /** Index of the last occurrence of `c` in `s`, or -1 (str.rfind). */
  function LastIndex(s: string, c: char): (i: int)
    ensures -1 <= i < |s|
  {
    if s == [] then -1
    else if s[|s| - 1] == c then |s| - 1
    else LastIndex(s[..|s| - 1], c)
  }

  /** What str.rfind finds: a `c` with no `c` after it, or -1 when `s` holds none. */
  lemma {:induction false} LastIndexSpec(s: string, c: char)
    ensures 0 <= LastIndex(s, c) ==> s[LastIndex(s, c)] == c
    ensures forall j :: LastIndex(s, c) < j < |s| ==> s[j] != c
    decreases |s|
  {
    if s != [] && s[|s| - 1] != c {
      var t := s[..|s| - 1];
      LastIndexSpec(t, c);
      assert forall j :: 0 <= j < |t| ==> t[j] == s[j];
    }
  }

  /** The position of a `c` with no `c` after it is what str.rfind returns. */
  lemma LastIndexIs(s: string, c: char, i: int)
    requires -1 <= i < |s| && (0 <= i ==> s[i] == c)
    requires forall j :: i < j < |s| ==> s[j] != c
    ensures LastIndex(s, c) == i
  {
    LastIndexSpec(s, c);
  }

  /** The last `c` of a concatenation is in the second part if it holds one, else in the first. */
  lemma {:induction false} LastIndexConcat(a: string, b: string, c: char)
    ensures LastIndex(a + b, c) == if c in b then |a| + LastIndex(b, c) else LastIndex(a, c)
    decreases |b|
  {
    if b == [] {
      assert a + b == a;
    } else {
      var n := |b| - 1;
      assert (a + b)[..|a + b| - 1] == a + b[..n];
      LastIndexConcat(a, b[..n], c);
      assert b == b[..n] + [b[n]];
    }
  }

  // ---- pathlib.PurePosixPath ----

  /** PurePath.name: the last component. */
  function Name(p: string): (n: string)
    ensures '/' !in n
  {
    LastIndexSpec(p, '/');
    p[LastIndex(p, '/') + 1..]
  }

  /** PurePath.parent: "." for a bare name, "/" for a file at the root. */
  function Parent(p: string): (d: string)
    ensures d != ""
  {
    var i := LastIndex(p, '/');
    if i < 0 then "." else if i == 0 then "/" else p[..i]
  }

  /** `dir / name` for a single relative component, as str() prints the result. */
  function Join(dir: string, name: string): string
  {
    if dir == "." then name else if dir == "/" then "/" + name else dir + "/" + name
  }

  /** Where PurePath.suffix starts: the last '.' unless it begins the name or ends it. */
  function SuffixStart(name: string): (i: nat)
    ensures 0 < i <= |name| || name == []
  {
    var i := LastIndex(name, '.');
    if 0 < i < |name| - 1 then i else |name|
  }

  /** PurePath.stem */
  function Stem(name: string): string
  {
    name[..SuffixStart(name)]
  }

  /** PurePath.suffix */
  function Suffix(name: string): string
  {
    name[SuffixStart(name)..]
  }

  /** PurePath.with_suffix: the name's suffix replaced by `suffix`, in the same directory. */
  function WithSuffix(p: string, suffix: string): (r: string)
    ensures '/' !in suffix && Name(p) != "" ==> Parent(r) == Parent(p) && Name(r) == Stem(Name(p)) + suffix
  {
    var name := Stem(Name(p)) + suffix;
    if '/' !in suffix && Name(p) != "" then
      assert Stem(Name(p)) == Name(p)[..|Stem(Name(p))|];
      JoinSplits(Parent(p), name);
      Join(Parent(p), name)
    else
      Join(Parent(p), name)
  }

  /** Joining a name to a directory and splitting the result again gives both back. */
  lemma JoinSplits(dir: string, name: string)
    requires dir != "" && name != "" && '/' !in name
    ensures Parent(Join(dir, name)) == dir && Name(Join(dir, name)) == name
  {
    var p := Join(dir, name);
    if dir == "." {
      LastIndexIs(p, '/', -1);
    } else if dir == "/" {
      assert p[0] == '/';
      assert forall j :: 0 < j < |p| ==> p[j] == name[j - 1];
      LastIndexIs(p, '/', 0);
      assert p[1..] == name;
    } else {
      assert p[|dir|] == '/';
      assert forall j :: |dir| < j < |p| ==> p[j] == name[j - |dir| - 1];
      LastIndexIs(p, '/', |dir|);
      assert p[..|dir|] == dir && p[|dir| + 1..] == name;
    }
  }

  /** The name of "dir/name" is `name`, whatever `dir` holds. */
  lemma NameAfterSlash(dir: string, name: string)
    requires '/' !in name
    ensures Name(dir + "/" + name) == name
  {
    LastIndexConcat(dir + "/", name, '/');
    assert LastIndex(dir + "/", '/') == |dir|;
    assert (dir + "/" + name)[|dir| + 1..] == name;
  }

  /** A name that ends in `.ext` (with no other '.' in it) has that as its suffix, and the rest as its stem. */
  lemma StemOfDottedName(base: string, ext: string)
    requires base != "" && ext != "" && '.' !in ext
    ensures Stem(base + "." + ext) == base && Suffix(base + "." + ext) == "." + ext
  {
    var n := base + "." + ext;
    assert n[|base|] == '.';
    assert forall j :: |base| < j < |n| ==> n[j] == ext[j - |base| - 1];
    LastIndexIs(n, '.', |base|);
    assert n[..|base|] == base;
  }

  /** The same for the ".mp4" names of the sub-clips. */
  lemma StemOfMp4Name(base: string)
    requires base != ""
    ensures Stem(base + ".mp4") == base && Suffix(base + ".mp4") == ".mp4"
  {
    var n := base + ".mp4";
    assert n[|base|] == '.';
    assert n[|base| + 1] == 'm' && n[|base| + 2] == 'p' && n[|base| + 3] == '4';
    LastIndexIs(n, '.', |base|);
    assert n[..|base|] == base && n[|base|..] == ".mp4";
  }

  /** A name "base" + ext, where ext is a '.' and at least one more character but no other '.', has ext as its suffix. */
  lemma StemOfSuffixed(base: string, ext: string)
    requires base != "" && |ext| >= 2 && ext[0] == '.'
    requires forall j :: 1 <= j < |ext| ==> ext[j] != '.'
    ensures Stem(base + ext) == base && Suffix(base + ext) == ext
  {
    var n := base + ext;
    assert n[|base|] == '.';
    assert forall j :: |base| < j < |n| ==> n[j] == ext[j - |base|];
    LastIndexIs(n, '.', |base|);
    assert n[..|base|] == base && n[|base|..] == ext;
  }

  // ---- os.path (posixpath) ----

  /** os.path.basename */
  function Basename(p: string): string
  {
    Name(p)
  }

  /** os.path.join(a, b): b replaces a when absolute, otherwise joined with one '/'. */
  function OsJoin(a: string, b: string): (r: string)
    ensures |b| > 0 && b[0] == '/' ==> r == b
    ensures !(|b| > 0 && b[0] == '/') ==> |a| + |b| <= |r| <= |a| + |b| + 1 && r[..|a|] == a && r[|r| - |b|..] == b
  {
    if |b| > 0 && b[0] == '/' then b
    else if a == "" || a[|a| - 1] == '/' then a + b
    else a + "/" + b
  }

  /**
   * Where os.path.splitext cuts: at the last '.' when it lies in the last
   * component after at least one character that is not a '.', else nowhere.
   */
  function ExtStart(p: string): (i: nat)
    ensures i <= |p|
  {
    var sep := LastIndex(p, '/');
    var dot := LastIndex(p, '.');
    if sep < dot && exists k :: sep < k < dot && p[k] != '.' then dot else |p|
  }

  /** os.path.splitext */
  function SplitExt(p: string): (r: (string, string))
    ensures r.0 + r.1 == p
    ensures r.1 == "" || r.1[0] == '.'
  {
    LastIndexSpec(p, '.');
    assert p[..ExtStart(p)] + p[ExtStart(p)..] == p;
    (p[..ExtStart(p)], p[ExtStart(p)..])
  }

  /** splitext gives back the whole path in two parts; the extension is empty or one '.' followed by neither '.' nor '/'. */
  lemma SplitExtSpec(p: string)
    ensures SplitExt(p).0 + SplitExt(p).1 == p
    ensures var ext := SplitExt(p).1; ext == "" || (ext[0] == '.' && '/' !in ext && '.' !in ext[1..])
  {
    var i := ExtStart(p);
    assert p[..i] + p[i..] == p;
    if i < |p| {
      LastIndexSpec(p, '.');
      LastIndexSpec(p, '/');
      assert forall j :: i < j < |p| ==> p[j] != '/' && p[j] != '.';
      assert forall j :: 0 <= j < |p| - i ==> p[i..][j] == p[i + j];
    }
  }

  /**
   * os.path.splitext cuts before the last '.' when the part before it in
   * the last component starts with something other than a '.'.
   */
  lemma SplitExtAppend(head: string, mid: string, ext: string)
    requires mid != [] && mid[0] != '.' && '/' !in mid
    requires ext != [] && ext[0] == '.' && '.' !in ext[1..] && '/' !in ext
    ensures SplitExt(head + mid + ext) == (head + mid, ext)
  {
    var p := head + mid + ext;
    var d := |head| + |mid|;
    forall j | |head| <= j < |p|
      ensures p[j] != '/' && (j == |head| ==> p[j] != '.') && (j == d ==> p[j] == '.') && (d < j ==> p[j] != '.')
    {
      if j < d {
        assert p[j] == mid[j - |head|];
      } else {
        assert p[j] == ext[j - d];
        if d < j {
          assert ext[j - d] == ext[1..][j - d - 1];
        }
      }
    }
    assert p[d] == '.' && p[|head|] != '.';
    LastIndexIs(p, '.', d);
    LastIndexSpec(p, '/');
    assert LastIndex(p, '/') < |head|;
    assert ExtStart(p) == d;
    assert p[..d] == head + mid && p[d..] == ext;
  }

  /** A bare name "base.ext" splits into "base" and ".ext". */
  lemma SplitExtOfDottedName(base: string, ext: string)
    requires base != "" && base[0] != '.' && '/' !in base && '.' !in ext && '/' !in ext
    ensures SplitExt(base + "." + ext) == (base, "." + ext)
  {
    var p := base + "." + ext;
    var d := |base|;
    assert p[d] == '.' && p[0] == base[0];
    assert forall j :: 0 <= j < d ==> p[j] == base[j];
    assert forall j :: d < j < |p| ==> p[j] == ext[j - d - 1];
    LastIndexIs(p, '/', -1);
    LastIndexIs(p, '.', d);
    assert ExtStart(p) == d;
    assert p[..d] == base && p[d..] == "." + ext;
  }

  /** A path "dir/base.ext" splits into "dir/base" and ".ext", whatever `dir` holds. */
  lemma SplitExtAfterSlash(dir: string, base: string, ext: string)
    requires base != "" && base[0] != '.' && '/' !in base && '.' !in ext && '/' !in ext
    ensures SplitExt(dir + "/" + (base + "." + ext)) == (dir + "/" + base, "." + ext)
  {
    var p := dir + "/" + (base + "." + ext);
    var s := |dir|;
    var d := s + 1 + |base|;
    assert p[s] == '/' && p[d] == '.' && p[s + 1] == base[0];
    assert forall j :: s < j < d ==> p[j] == base[j - s - 1];
    assert forall j :: d < j < |p| ==> p[j] == ext[j - d - 1];
    LastIndexIs(p, '/', s);
    LastIndexIs(p, '.', d);
    assert ExtStart(p) == d;
    assert p[..d] == dir + "/" + base && p[d..] == "." + ext;
  }
}
