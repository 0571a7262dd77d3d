/** Upward search for configuration files: `lookupFile`,
    `_lookupMultipleFiles` and `lookupMultipleFiles`.

    A directory is the sequence of its segments from the filesystem root
    (`[]` is the root itself); the filesystem is the map from the absolute
    path of every regular file to that file. The dotenv parser is not part
    of the model: a file carries its text and the entries the parser yields
    for it. */
module Locate {
  import opened Wrappers
  import opened Text

  type Dir = seq<string>
  type Path = seq<string>

  datatype File = File(text: string, entries: map<string, string>)

  type FileSystem = map<Path, File>

  /** What a lookup yields: the joined path when `pathOnly` is set, the
      file's content otherwise. */
  datatype Found = AtPath(path: Path) | WithContent(file: File)

  /** `rootDir` holds the text of the already resolved root, or `None` when
      the caller gave none (an empty string counts as none); `filter` is the
      optional `predicate`, which sees what would be returned. */
  datatype Options = Options(pathOnly: bool, rootDir: Option<string>, filter: Option<string -> bool>)

  /** Segments that `path.resolve` could produce: non-empty, without '/'. */
  predicate ValidDir(d: Dir) {
    forall i :: 0 <= i < |d| ==> d[i] != "" && '/' !in d[i]
  }

  function Segments(d: Dir): string
  {
    if |d| == 0 then "" else Segments(d[..|d| - 1]) + "/" + d[|d| - 1]
  }

  /** The absolute path string of a directory. */
  function PathText(d: Dir): string
  {
    if |d| == 0 then "/" else Segments(d)
  }

  /** `path.dirname`: the filesystem root is its own parent. */
  function Parent(d: Dir): (p: Dir)
    ensures StartsWith(d, p)
    ensures p == d <==> d == []
    ensures d != [] ==> |p| == |d| - 1
  {
    if |d| == 0 then [] else d[..|d| - 1]
  }

  function Produce(fs: FileSystem, p: Path, opts: Options): (f: Found)
    requires p in fs
    ensures f.AtPath? <==> opts.pathOnly
  {
    if opts.pathOnly then AtPath(p) else WithContent(fs[p])
  }

  /** The string the caller would receive, and the predicate would see,
      when the directory is spelled as its absolute path. */
  function View(f: Found): string
  {
    match f
    case AtPath(p) => PathText(p)
    case WithContent(file) => file.text
  }

  predicate Accepts(opts: Options, f: Found) {
    opts.filter.None? || opts.filter.value(View(f))
  }

  /** A regular file named `name` in `dir` that the filter accepts. */
  predicate Hit(fs: FileSystem, dir: Dir, name: string, opts: Options) {
    dir + [name] in fs && Accepts(opts, Produce(fs, dir + [name], opts))
  }

  /** The loop over `formats` in `lookupFile`: the first accepted match. */
  function FirstIn(fs: FileSystem, dir: Dir, formats: seq<string>, opts: Options): (r: Option<Found>)
    ensures r.Some? ==> exists i :: && 0 <= i < |formats|
                                    && Hit(fs, dir, formats[i], opts)
                                    && r.value == Produce(fs, dir + [formats[i]], opts)
                                    && forall j :: 0 <= j < i ==> !Hit(fs, dir, formats[j], opts)
    ensures r.None? <==> forall i :: 0 <= i < |formats| ==> !Hit(fs, dir, formats[i], opts)
    ensures r.Some? ==> Accepts(opts, r.value) && (r.value.AtPath? <==> opts.pathOnly)
    ensures r.Some? && r.value.AtPath? ==> r.value.path in fs && |r.value.path| == |dir| + 1 && r.value.path[..|dir|] == dir
  {
    if |formats| == 0 then None
    else if Hit(fs, dir, formats[0], opts) then Some(Produce(fs, dir + [formats[0]], opts))
    else
      assert forall i :: 1 <= i < |formats| ==> formats[i] == formats[1..][i - 1];
      FirstIn(fs, dir, formats[1..], opts)
  }

  /** The loop over `formats` in `_lookupMultipleFiles`: every accepted
      match in `dir`, in format order. */
  function MatchesIn(fs: FileSystem, dir: Dir, formats: seq<string>, opts: Options): (r: seq<Found>)
    ensures |r| <= |formats|
    ensures forall i | 0 <= i < |formats| && Hit(fs, dir, formats[i], opts) :: Produce(fs, dir + [formats[i]], opts) in r
    ensures forall f | f in r :: exists i :: 0 <= i < |formats| && Hit(fs, dir, formats[i], opts) && f == Produce(fs, dir + [formats[i]], opts)
    ensures forall f | f in r :: Accepts(opts, f) && (f.AtPath? <==> opts.pathOnly)
    ensures forall f | f in r && f.AtPath? :: f.path in fs && |f.path| == |dir| + 1 && f.path[..|dir|] == dir
  {
    if |formats| == 0 then []
    else
      var rest := MatchesIn(fs, dir, formats[1..], opts);
      assert forall i :: 1 <= i < |formats| ==> formats[i] == formats[1..][i - 1];
      if Hit(fs, dir, formats[0], opts) then [Produce(fs, dir + [formats[0]], opts)] + rest else rest
  }

  /** Whether the search goes on to the parent: the parent differs from the
      directory as written, and, when a root is given, the parent's absolute
      text starts with the root's.
      `absoluteSpelling` says whether the caller wrote `dir` as its own
      resolved absolute path; a relative spelling such as '.' or '' never
      equals the parent's absolute text, so the first test passes
      even at the filesystem root. */
  predicate MayAscend(dir: Dir, absoluteSpelling: bool, opts: Options)
    ensures MayAscend(dir, absoluteSpelling, opts) && absoluteSpelling ==> |Parent(dir)| == |dir| - 1
    ensures opts.rootDir.None? ==> (MayAscend(dir, absoluteSpelling, opts) <==> !absoluteSpelling || dir != [])
  {
    && (!absoluteSpelling || Parent(dir) != dir)
    && (opts.rootDir.None? || StartsWith(PathText(Parent(dir)), opts.rootDir.value))
  }

  /** The directories searched, starting directory first, each next one
      the parent of the one before. */
  function Chain(dir: Dir, absoluteSpelling: bool, opts: Options): (r: seq<Dir>)
    ensures |r| >= 1 && r[0] == dir
    ensures |r| <= |dir| + (if absoluteSpelling then 1 else 2)
    ensures forall i :: 1 <= i < |r| ==> r[i] == Parent(r[i - 1])
    ensures forall i :: 1 <= i < |r| ==> opts.rootDir.Some? ==> StartsWith(PathText(r[i]), opts.rootDir.value)
    ensures forall i :: 0 <= i < |r| ==> StartsWith(dir, r[i])
    ensures forall i :: 0 <= i < |r| - 1 ==> MayAscend(r[i], if i == 0 then absoluteSpelling else true, opts)
    ensures !MayAscend(r[|r| - 1], if |r| == 1 then absoluteSpelling else true, opts)
    decreases |dir|, if absoluteSpelling then 0 else 1
  {
    if MayAscend(dir, absoluteSpelling, opts) then
      var up := Chain(Parent(dir), true, opts);
      ChainCons(dir, absoluteSpelling, opts, up);
      AscentContinues(dir, absoluteSpelling, opts, up);
      assert ([dir] + up)[|up|] == up[|up| - 1];
      [dir] + up
    else [dir]
  }

  /** Putting `dir` in front of the chain of its parent keeps the parent
      steps, the root test on every later directory, and the ancestry. */
  lemma {:induction false} ChainCons(dir: Dir, absoluteSpelling: bool, opts: Options, up: seq<Dir>)
    requires MayAscend(dir, absoluteSpelling, opts)
    requires |up| >= 1 && up[0] == Parent(dir)
    requires forall i :: 1 <= i < |up| ==> up[i] == Parent(up[i - 1])
    requires forall i :: 1 <= i < |up| ==> opts.rootDir.Some? ==> StartsWith(PathText(up[i]), opts.rootDir.value)
    requires forall i :: 0 <= i < |up| ==> StartsWith(Parent(dir), up[i])
    ensures var r := [dir] + up;
            && (forall i :: 1 <= i < |r| ==> r[i] == Parent(r[i - 1]))
            && (forall i :: 1 <= i < |r| ==> opts.rootDir.Some? ==> StartsWith(PathText(r[i]), opts.rootDir.value))
            && (forall i :: 0 <= i < |r| ==> StartsWith(dir, r[i]))
  {
    var r := [dir] + up;
    PrefixOfParent(up, dir);
    forall i | 1 <= i < |r|
      ensures r[i] == Parent(r[i - 1])
      ensures opts.rootDir.Some? ==> StartsWith(PathText(r[i]), opts.rootDir.value)
      ensures StartsWith(dir, r[i])
    {
      assert r[i] == up[i - 1];
      if i > 1 {
        assert r[i - 1] == up[i - 2];
      }
    }
  }

  /** When `dir` may ascend and every directory of `up` but its last may
      too, so may every directory of `[dir] + up` but its last. */
  lemma {:induction false} AscentContinues(dir: Dir, absoluteSpelling: bool, opts: Options, up: seq<Dir>)
    requires MayAscend(dir, absoluteSpelling, opts)
    requires forall i :: 0 <= i < |up| - 1 ==> MayAscend(up[i], true, opts)
    ensures var r := [dir] + up;
            forall i :: 0 <= i < |r| - 1 ==> MayAscend(r[i], if i == 0 then absoluteSpelling else true, opts)
  {
    var r := [dir] + up;
    forall i | 1 <= i < |r| - 1
      ensures MayAscend(r[i], true, opts)
    {
      assert r[i] == up[i - 1];
    }
  }

  /** Ancestors of the parent of `dir` are ancestors of `dir`. */
  lemma {:induction false} PrefixOfParent(ds: seq<Dir>, dir: Dir)
    requires forall i :: 0 <= i < |ds| ==> StartsWith(Parent(dir), ds[i])
    ensures forall i :: 0 <= i < |ds| ==> StartsWith(dir, ds[i])
  {
    forall i | 0 <= i < |ds|
      ensures StartsWith(dir, ds[i])
    {
      assert dir[..|ds[i]|] == Parent(dir)[..|ds[i]|];
    }
  }

  /** `lookupFile`: the first accepted match, trying the formats in order
      in each directory before moving to its parent. */
  function LookupFile(fs: FileSystem, dir: Dir, formats: seq<string>, opts: Options, absoluteSpelling: bool): (r: Option<Found>)
    ensures r.Some? ==> Accepts(opts, r.value) && (r.value.AtPath? <==> opts.pathOnly)
    ensures r.Some? && r.value.AtPath? ==> r.value.path in fs && |r.value.path| >= 1 && StartsWith(dir, r.value.path[..|r.value.path| - 1])
    ensures FirstIn(fs, dir, formats, opts).Some? ==> r == FirstIn(fs, dir, formats, opts)
    decreases |dir|, if absoluteSpelling then 0 else 1
  {
    match FirstIn(fs, dir, formats, opts)
    case Some(f) => Some(f)
    case None =>
      if MayAscend(dir, absoluteSpelling, opts) then LookupFile(fs, Parent(dir), formats, opts, true)
      else None
  }

  /** `lookupMultipleFiles`: every accepted match along the ascent. */
  function LookupMultipleFiles(fs: FileSystem, dir: Dir, formats: seq<string>, opts: Options, absoluteSpelling: bool): (r: seq<Found>)
    ensures StartsWith(r, MatchesIn(fs, dir, formats, opts))
    ensures forall i | 0 <= i < |formats| && Hit(fs, dir, formats[i], opts) :: Produce(fs, dir + [formats[i]], opts) in r
    ensures forall f | f in r :: Accepts(opts, f) && (f.AtPath? <==> opts.pathOnly)
    ensures forall f | f in r && f.AtPath? :: f.path in fs && |f.path| >= 1 && StartsWith(dir, f.path[..|f.path| - 1])
    decreases |dir|, if absoluteSpelling then 0 else 1
  {
    var here := MatchesIn(fs, dir, formats, opts);
    assert forall f | f in here && f.AtPath? :: f.path[..|f.path| - 1] == dir;
    assert forall f | f in here && f.AtPath? :: |f.path| >= 1 && StartsWith(dir, f.path[..|f.path| - 1]);
    if MayAscend(dir, absoluteSpelling, opts) then
      var up := LookupMultipleFiles(fs, Parent(dir), formats, opts, true);
      UnderParent(up, dir);
      var r := here + up;
      assert forall f | f in here :: f in r;
      assert forall f | f in r :: f in here || f in up;
      r
    else here
  }

  /** Paths whose directory lies at or above the parent of `dir` lie at or
      above `dir` itself. */
  lemma {:induction false} UnderParent(found: seq<Found>, dir: Dir)
    requires forall f | f in found && f.AtPath? :: |f.path| >= 1 && StartsWith(Parent(dir), f.path[..|f.path| - 1])
    ensures forall f | f in found && f.AtPath? :: StartsWith(dir, f.path[..|f.path| - 1])
  {
    forall f | f in found && f.AtPath?
      ensures StartsWith(dir, f.path[..|f.path| - 1])
    {
      var p := f.path[..|f.path| - 1];
      assert Parent(dir)[..|p|] == p;
      assert dir[..|p|] == Parent(dir)[..|p|];
    }
  }

  /** The matches of every directory of `dirs`, in that order. */
  function MatchesAlong(fs: FileSystem, dirs: seq<Dir>, formats: seq<string>, opts: Options): seq<Found>
  {
    if |dirs| == 0 then [] else MatchesIn(fs, dirs[0], formats, opts) + MatchesAlong(fs, dirs[1..], formats, opts)
  }

  /** A single format contributes its match, if any. */
  lemma {:induction false} MatchesInOne(fs: FileSystem, dir: Dir, name: string, opts: Options)
    ensures MatchesIn(fs, dir, [name], opts) == if Hit(fs, dir, name, opts) then [Produce(fs, dir + [name], opts)] else []
  {
    assert [name][1..] == [];
  }

  /** The matches of two format lists in a row are those of the first list
      followed by those of the second: the loop keeps format order. */
  lemma {:induction false} MatchesInAppend(fs: FileSystem, dir: Dir, a: seq<string>, b: seq<string>, opts: Options)
    ensures MatchesIn(fs, dir, a + b, opts) == MatchesIn(fs, dir, a, opts) + MatchesIn(fs, dir, b, opts)
    decreases |a|
  {
    if |a| == 0 {
      assert a + b == b;
    } else {
      assert (a + b)[0] == a[0];
      assert (a + b)[1..] == a[1..] + b;
      MatchesInAppend(fs, dir, a[1..], b, opts);
      var x := MatchesIn(fs, dir, a[1..], opts);
      var y := MatchesIn(fs, dir, b, opts);
      if Hit(fs, dir, a[0], opts) {
        var h := [Produce(fs, dir + [a[0]], opts)];
        assert h + (x + y) == (h + x) + y;
      }
    }
  }

  /** `lookupMultipleFiles` lists the matches of the searched directories
      innermost first, and within a directory in format order. */
  lemma {:induction false} MultipleFollowsChain(fs: FileSystem, dir: Dir, formats: seq<string>, opts: Options, absoluteSpelling: bool)
    ensures LookupMultipleFiles(fs, dir, formats, opts, absoluteSpelling)
         == MatchesAlong(fs, Chain(dir, absoluteSpelling, opts), formats, opts)
    decreases |dir|, if absoluteSpelling then 0 else 1
  {
    if MayAscend(dir, absoluteSpelling, opts) {
      MultipleFollowsChain(fs, Parent(dir), formats, opts, true);
      var c := Chain(dir, absoluteSpelling, opts);
      assert c[1..] == Chain(Parent(dir), true, opts);
    }
  }

  /** Within one directory, the loop of `lookupFile` picks the head of the
      matches the loop of `_lookupMultipleFiles` collects. */
  lemma {:induction false} FirstInIsHead(fs: FileSystem, dir: Dir, formats: seq<string>, opts: Options)
    ensures var m := MatchesIn(fs, dir, formats, opts);
            FirstIn(fs, dir, formats, opts) == if |m| == 0 then None else Some(m[0])
  {
    if |formats| > 0 && !Hit(fs, dir, formats[0], opts) {
      FirstInIsHead(fs, dir, formats[1..], opts);
    }
  }

  /** For the same arguments, `lookupFile` returns the first element of
      `lookupMultipleFiles`, and nothing exactly when that list is empty. */
  lemma {:induction false} LookupFileIsFirst(fs: FileSystem, dir: Dir, formats: seq<string>, opts: Options, absoluteSpelling: bool)
    ensures var all := LookupMultipleFiles(fs, dir, formats, opts, absoluteSpelling);
            LookupFile(fs, dir, formats, opts, absoluteSpelling) == if |all| == 0 then None else Some(all[0])
    decreases |dir|, if absoluteSpelling then 0 else 1
  {
    FirstInIsHead(fs, dir, formats, opts);
    if MayAscend(dir, absoluteSpelling, opts) {
      LookupFileIsFirst(fs, Parent(dir), formats, opts, true);
    }
  }

  /** With no files at all, a search finds nothing. */
  lemma {:induction false} NothingFound(dir: Dir, formats: seq<string>, opts: Options, absoluteSpelling: bool)
    ensures LookupFile(map[], dir, formats, opts, absoluteSpelling) == None
    decreases |dir|, if absoluteSpelling then 0 else 1
  {
    if MayAscend(dir, absoluteSpelling, opts) {
      NothingFound(Parent(dir), formats, opts, true);
    }
  }

  /** With valid segments, a strictly shorter ancestor has a strictly
      shorter path string. */
  lemma {:induction false} TextGrows(p: Dir, d: Dir)
    requires ValidDir(d) && StartsWith(d, p) && |p| < |d|
    ensures |PathText(p)| < |PathText(d)|
    decreases |d|
  {
    var up := d[..|d| - 1];
    assert |Segments(d)| == |Segments(up)| + 1 + |d[|d| - 1]|;
    if |up| == 0 {
    } else {
      assert ValidDir(up);
      if |p| < |up| {
        assert StartsWith(up, p);
        TextGrows(p, up);
      } else {
        assert p == up;
      }
    }
  }

  /** The string-prefix root check cannot admit an ancestor of a directory
      that lies above a root that is itself an ancestor of that directory. */
  lemma {:induction false} AncestorWithinRoot(root: Dir, p: Dir, d: Dir)
    requires ValidDir(d) && StartsWith(d, root) && StartsWith(d, p)
    requires StartsWith(PathText(p), PathText(root))
    ensures StartsWith(p, root)
  {
    if |p| < |root| {
      assert StartsWith(root, p);
      assert ValidDir(root);
      TextGrows(p, root);
    }
  }

  /** A search started inside the root never returns a file located above
      the root's resolved absolute path. */
  lemma {:induction false} NeverAboveRoot(fs: FileSystem, root: Dir, dir: Dir, formats: seq<string>, opts: Options, absoluteSpelling: bool)
    requires ValidDir(dir) && StartsWith(dir, root)
    requires opts.rootDir == Some(PathText(root))
    ensures forall f | f in LookupMultipleFiles(fs, dir, formats, opts, absoluteSpelling) && f.AtPath? :: StartsWith(f.path, root)
    decreases |dir|, if absoluteSpelling then 0 else 1
  {
    var here := MatchesIn(fs, dir, formats, opts);
    assert forall f | f in here && f.AtPath? :: StartsWith(f.path, root) by {
      forall f | f in here && f.AtPath?
        ensures StartsWith(f.path, root)
      {
        assert f.path[..|dir|] == dir;
        assert f.path[..|root|] == dir[..|root|];
      }
    }
    if MayAscend(dir, absoluteSpelling, opts) {
      var p := Parent(dir);
      AncestorWithinRoot(root, p, dir);
      assert ValidDir(p);
      NeverAboveRoot(fs, root, p, formats, opts, true);
    }
  }

  /** The root check compares strings, not segments: a sibling whose name
      extends the root's last segment passes it. */
  lemma {:induction false} SiblingPassesRootCheck()
    ensures var c := Chain(["a", "bc", "d"], true, Options(false, Some("/a/b"), None));
            |c| > 1 && c[1] == ["a", "bc"]
  {
    assert PathText(["a", "bc"]) == "/a/bc" by {
      assert Segments(["a"]) == "/a" by {
        assert ["a"][..0] == [];
      }
      assert ["a", "bc"][..1] == ["a"];
    }
    assert ["a", "bc", "d"][..2] == ["a", "bc"];
  }
}
