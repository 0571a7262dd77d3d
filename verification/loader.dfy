/** `loadEnv`: resolves the search root, the names of the mode variables
    and the mode, builds the list of env files for that mode, merges every
    copy of them found up the directory tree, and writes the mode back
    under every mode-variable name.

    Reading the process environment and the files is replaced by the
    `Host` value; nothing is written back to a global table here. */
module Loader {
  import opened Wrappers
  import opened Env
  import opened Locate

  /** `useModeEnv`: one variable name or a list of them. */
  datatype ModeEnv = Single(name: string) | Names(names: seq<string>)

  datatype Config = Config(
    mode: Option<string>,
    defaultMode: Option<string>,
    folder: Option<string>,
    useModeEnv: Option<ModeEnv>,
    defaultEnvFile: Option<string>)

  /** The world `loadEnv` reads: the process environment, the current
      directory, the files, and `path.resolve` for the root folder. */
  datatype Host = Host(env: Environment, cwd: Dir, fs: FileSystem, resolve: string -> string)

  const RootKey := "ENV_ROOT_FOLDER"
  const ModeEnvKey := "MODE_ENV"

  /** The `key` entry of the file `name` in the current directory, when the
      file can be read and has one. */
  function CwdValue(host: Host, name: string, key: string): (r: Option<string>)
    ensures r.Some? ==> host.cwd + [name] in host.fs && key in host.fs[host.cwd + [name]].entries
  {
    var p := host.cwd + [name];
    if p in host.fs && key in host.fs[p].entries then Some(host.fs[p].entries[key]) else None
  }

  /** Reading `name` in the current directory for the entry `key`: the
      entry's value replaces `prev` when the file can be read and has the
      entry; a missing or unreadable file leaves `prev` as it was. */
  function CwdEntry(host: Host, name: string, key: string, prev: Option<string>): Option<string>
  {
    var v := CwdValue(host, name, key);
    if v.Some? then v else prev
  }

  /** The `key` entry of a file found by content, skipped when the content
      is empty. */
  function FoundValue(found: Option<Found>, key: string): Option<string>
  {
    match found
    case Some(WithContent(f)) => if f.text != "" && key in f.entries then Some(f.entries[key]) else None
    case _ => None
  }

  /** The folder the upward searches are bounded by: `config.folder`, then
      `ENV_ROOT_FOLDER` from the environment, then the content of
      `.root.env`, then `ENV_ROOT_FOLDER` from `.env.local`, then from
      `.env`; an empty value from the first of those files that is present
      yields ".", as does the absence of all of them. */
  function RootFolder(config: Config, host: Host): (r: string)
    ensures r != ""
    ensures Truthy(config.folder) ==> r == config.folder.value
    ensures !Truthy(config.folder) && Truthy(Lookup(host.env, RootKey)) ==> r == host.env[RootKey]
    ensures !Truthy(config.folder) && !Truthy(Lookup(host.env, RootKey)) ==>
              var rootEnv := host.cwd + [".root.env"];
              var local := CwdValue(host, ".env.local", RootKey);
              var base := CwdValue(host, ".env", RootKey);
              r == if rootEnv in host.fs then Or(Some(host.fs[rootEnv].text), ".")
                   else if local.Some? then Or(local, ".")
                   else Or(base, ".")
  {
    var folder := config.folder;
    if Truthy(folder) then folder.value
    else
      var fromEnv := Lookup(host.env, RootKey);
      if Truthy(fromEnv) then fromEnv.value
      else
        var f1 := CwdEntry(host, ".env", RootKey, fromEnv);
        var f2 := CwdEntry(host, ".env.local", RootKey, f1);
        var rootEnv := host.cwd + [".root.env"];
        var f3 := if rootEnv in host.fs then Some(host.fs[rootEnv].text) else f2;
        Or(f3, ".")
  }

  /** The search options of `loadEnv`: bounded by the resolved root. */
  function RootOptions(host: Host, root: string, pathOnly: bool): Options
  {
    Options(pathOnly, Some(host.resolve(root)), None)
  }

  /** `useModeEnv` when it is set (a list always is, even an empty one);
      otherwise a single name: `MODE_ENV` from the environment, then
      `MODE_ENV` from the nearest `.env.local`, then from the nearest
      `.env`, then "MODE". */
  function ModeEnvSetting(config: Config, host: Host, root: string): (r: ModeEnv)
    ensures config.useModeEnv.Some? && config.useModeEnv.value != Single("") ==> r == config.useModeEnv.value
    ensures config.useModeEnv.None? || config.useModeEnv.value == Single("") ==>
              var fromEnv := Lookup(host.env, ModeEnvKey);
              var opts := RootOptions(host, root, false);
              var local := FoundValue(LookupFile(host.fs, host.cwd, [".env.local"], opts, false), ModeEnvKey);
              var base := FoundValue(LookupFile(host.fs, host.cwd, [".env"], opts, false), ModeEnvKey);
              && r.Single? && r.name != ""
              && r.name == if Truthy(fromEnv) then fromEnv.value
                           else if local.Some? then Or(local, "MODE")
                           else Or(base, "MODE")
  {
    if config.useModeEnv.Some? && config.useModeEnv.value != Single("") then config.useModeEnv.value
    else
      var fromEnv := Lookup(host.env, ModeEnvKey);
      var name :=
        if Truthy(fromEnv) then fromEnv
        else
          var opts := RootOptions(host, root, false);
          var n1 := FoundValue(LookupFile(host.fs, host.cwd, [".env"], opts, false), ModeEnvKey);
          var n1 := if n1.Some? then n1 else fromEnv;
          var n2 := FoundValue(LookupFile(host.fs, host.cwd, [".env.local"], opts, false), ModeEnvKey);
          if n2.Some? then n2 else n1;
      Single(Or(name, "MODE"))
  }

  function ModeEnvNames(m: ModeEnv): seq<string>
  {
    match m
    case Single(n) => [n]
    case Names(ns) => ns
  }

  /** The mode: `config.mode`, then the first non-empty value among the
      mode variables, then `config.defaultMode`, then "local". It is never
      empty. */
  function ResolveMode(config: Config, host: Host, m: ModeEnv): (r: string)
    ensures r != ""
    ensures r == if Truthy(config.mode) then config.mode.value
                 else if FirstSet(ModeEnvNames(m), host.env).Some? then FirstSet(ModeEnvNames(m), host.env).value
                 else Or(config.defaultMode, "local")
  {
    var mode := config.mode;
    var mode :=
      if Truthy(mode) then mode
      else
        match m
        case Single(n) => Lookup(host.env, n)
        case Names(ns) => ScanNames(ns, host.env, mode);
    Or(mode, Or(config.defaultMode, "local"))
  }

  /** The env files in increasing precedence: the optional default file,
      `.env`, `.env.local`, and for a mode other than "local" also
      `.env.<mode>` and `.env.<mode>.local`. */
  function EnvFiles(config: Config, mode: string): (r: seq<string>)
    ensures var k := if Truthy(config.defaultEnvFile) then 1 else 0;
            && |r| == k + 2 + (if mode != "" && mode != "local" then 2 else 0)
            && (k == 1 ==> r[0] == config.defaultEnvFile.value)
            && r[k] == ".env" && r[k + 1] == ".env.local"
            && (mode != "" && mode != "local" ==> r[k + 2] == ".env." + mode && r[k + 3] == ".env." + mode + ".local")
  {
    var files := [".env", ".env.local"];
    var files := if Truthy(config.defaultEnvFile) then [config.defaultEnvFile.value] + files else files;
    if mode != "" && mode != "local" then files + [".env." + mode, ".env." + mode + ".local"] else files
  }

  function EntriesOf(fs: FileSystem, f: Found): map<string, string>
  {
    match f
    case AtPath(p) => if p in fs then fs[p].entries else map[]
    case WithContent(file) => file.entries
  }

  function Reversed<T>(s: seq<T>): (r: seq<T>)
    ensures |r| == |s|
    ensures forall i :: 0 <= i < |s| ==> r[i] == s[|s| - 1 - i]
  {
    if |s| == 0 then [] else Reversed(s[1..]) + [s[0]]
  }

  /** The entries of every file found, in the order found. */
  function EntriesEach(fs: FileSystem, found: seq<Found>): seq<map<string, string>>
  {
    seq(|found|, i requires 0 <= i < |found| => EntriesOf(fs, found[i]))
  }

  /** Every copy of one env file from the current directory up to the
      root, outermost first, so that the innermost copy is merged last. */
  function FileLayers(host: Host, name: string, rootText: string): (r: seq<map<string, string>>)
    ensures |r| == |LookupMultipleFiles(host.fs, host.cwd, [name], Options(true, Some(rootText), None), false)|
  {
    var found := LookupMultipleFiles(host.fs, host.cwd, [name], Options(true, Some(rootText), None), false);
    Reversed(EntriesEach(host.fs, found))
  }

  function Layers(host: Host, files: seq<string>, rootText: string): seq<map<string, string>>
  {
    if |files| == 0 then [] else FileLayers(host, files[0], rootText) + Layers(host, files[1..], rootText)
  }

  /** Layer `i` is the last one that defines `k`. */
  predicate LastHolder(layers: seq<map<string, string>>, k: string, i: int) {
    && 0 <= i < |layers|
    && k in layers[i]
    && forall j :: i < j < |layers| ==> k !in layers[j]
  }

  /** `Object.fromEntries` over the layers' entries in order: last write
      wins. */
  function Merge(layers: seq<map<string, string>>): (r: map<string, string>)
    ensures forall k :: k in r <==> exists i :: 0 <= i < |layers| && k in layers[i]
    ensures forall k, i :: LastHolder(layers, k, i) ==> k in r && r[k] == layers[i][k]
  {
    if |layers| == 0 then map[]
    else
      var init := layers[..|layers| - 1];
      MergeStep(layers, Merge(init));
      Merge(init) + layers[|layers| - 1]
  }

  /** Adding one more layer on top keeps the last-write-wins reading. */
  lemma {:induction false} MergeStep(layers: seq<map<string, string>>, m: map<string, string>)
    requires |layers| > 0
    requires var init := layers[..|layers| - 1];
             && (forall k :: k in m <==> exists i :: 0 <= i < |init| && k in init[i])
             && (forall k, i :: LastHolder(init, k, i) ==> k in m && m[k] == init[i][k])
    ensures var r := m + layers[|layers| - 1];
            && (forall k :: k in r <==> exists i :: 0 <= i < |layers| && k in layers[i])
            && (forall k, i :: LastHolder(layers, k, i) ==> k in r && r[k] == layers[i][k])
  {
    var init := layers[..|layers| - 1];
    var last := layers[|layers| - 1];
    var r := m + last;
    forall k
      ensures k in r <==> exists i :: 0 <= i < |layers| && k in layers[i]
    {
      if k in m {
        var i :| 0 <= i < |init| && k in init[i];
        assert k in layers[i];
      }
      if exists i :: 0 <= i < |layers| && k in layers[i] {
        var i :| 0 <= i < |layers| && k in layers[i];
        if i < |init| {
          assert k in init[i];
        }
      }
    }
    forall k, i | LastHolder(layers, k, i)
      ensures k in r && r[k] == layers[i][k]
    {
      if i < |init| {
        assert k !in last;
        assert LastHolder(init, k, i);
      }
    }
  }

  /** Sets every name to the mode, one after the other. */
  function WriteBack(env: map<string, string>, names: seq<string>, mode: string): (r: map<string, string>)
    ensures r.Keys == env.Keys + set n | n in names
    ensures forall n | n in names :: r[n] == mode
    ensures forall k | k in env && k !in names :: r[k] == env[k]
    decreases |names|
  {
    if |names| == 0 then env
    else WriteBack(env[names[0] := mode], names[1..], mode)
  }

  /** What `loadEnv` works out before it writes anything: the root, the
      mode-variable names, the mode, and the merged env files. */
  datatype Plan = Plan(root: string, modeEnv: ModeEnv, mode: string, merged: map<string, string>)

  function PlanFor(config: Config, host: Host): Plan
  {
    var root := RootFolder(config, host);
    var m := ModeEnvSetting(config, host, root);
    var mode := ResolveMode(config, host, m);
    Plan(root, m, mode, Merge(Layers(host, EnvFiles(config, mode), host.resolve(root))))
  }

  /** The environment `loadEnv` returns: the merged files, with every
      mode-variable name mapped to the resolved mode and nothing else
      added. */
  function LoadEnv(config: Config, host: Host): (r: map<string, string>)
    ensures var p := PlanFor(config, host);
            && r.Keys == p.merged.Keys + (set n | n in ModeEnvNames(p.modeEnv))
            && (forall n | n in ModeEnvNames(p.modeEnv) :: r[n] == p.mode && r[n] != "")
            && (forall k | k in p.merged && k !in ModeEnvNames(p.modeEnv) :: r[k] == p.merged[k])
  {
    var p := PlanFor(config, host);
    WriteBack(p.merged, ModeEnvNames(p.modeEnv), p.mode)
  }

  /** With no files and no `MODE_ENV`, `loadEnv` writes the mode under
      "MODE", and the mode comes from "MODE" or falls back. */
  lemma {:induction false} NoFilesModeVariable(config: Config, host: Host)
    requires host.fs == map[] && ModeEnvKey !in host.env
    requires config.useModeEnv.None? && !Truthy(config.mode) && config.defaultMode.None?
    ensures var r := LoadEnv(config, host);
            "MODE" in r && r["MODE"] == Or(Lookup(host.env, "MODE"), "local")
  {
    var root := RootFolder(config, host);
    var opts := RootOptions(host, root, false);
    NothingFound(host.cwd, [".env"], opts, false);
    NothingFound(host.cwd, [".env.local"], opts, false);
    var m := ModeEnvSetting(config, host, root);
    assert m == Single("MODE");
    assert ModeEnvNames(m) == ["MODE"];
  }

  lemma {:induction false} LayersAppend(host: Host, a: seq<string>, b: seq<string>, rootText: string)
    ensures Layers(host, a + b, rootText) == Layers(host, a, rootText) + Layers(host, b, rootText)
  {
    if |a| > 0 {
      assert (a + b)[0] == a[0];
      assert (a + b)[1..] == a[1..] + b;
      LayersAppend(host, a[1..], b, rootText);
      calc {
        Layers(host, a + b, rootText);
        FileLayers(host, a[0], rootText) + Layers(host, a[1..] + b, rootText);
        FileLayers(host, a[0], rootText) + (Layers(host, a[1..], rootText) + Layers(host, b, rootText));
        (FileLayers(host, a[0], rootText) + Layers(host, a[1..], rootText)) + Layers(host, b, rootText);
      }
    } else {
      assert a + b == b;
    }
  }

  lemma {:induction false} LayersOne(host: Host, f: string, rootText: string)
    ensures Layers(host, [f], rootText) == FileLayers(host, f, rootText)
  {
    assert [f][1..] == [];
  }

  /** Two file names give the layers of the first, then of the second. */
  lemma {:induction false} PairLayers(host: Host, a: string, b: string, rootText: string)
    ensures Layers(host, [a, b], rootText) == FileLayers(host, a, rootText) + FileLayers(host, b, rootText)
  {
    LayersOne(host, a, rootText);
    LayersOne(host, b, rootText);
    LayersAppend(host, [a], [b], rootText);
    assert [a] + [b] == [a, b];
  }

  /** Without a default file, the layers are `.env`, then `.env.local`,
      then (for a mode other than "local") `.env.<mode>` and
      `.env.<mode>.local`, so each later file overrides the earlier ones. */
  lemma {:induction false} ModeFilesOverride(config: Config, host: Host, mode: string, rootText: string)
    requires !Truthy(config.defaultEnvFile) && mode != ""
    ensures var base := FileLayers(host, ".env", rootText) + FileLayers(host, ".env.local", rootText);
            Layers(host, EnvFiles(config, mode), rootText)
            == if mode == "local" then base
               else base + FileLayers(host, ".env." + mode, rootText) + FileLayers(host, ".env." + mode + ".local", rootText)
  {
    var files := EnvFiles(config, mode);
    PairLayers(host, ".env", ".env.local", rootText);
    if mode != "local" {
      var m0 := ".env." + mode;
      var m1 := ".env." + mode + ".local";
      assert files == [".env", ".env.local"] + [m0, m1];
      PairLayers(host, m0, m1, rootText);
      LayersAppend(host, [".env", ".env.local"], [m0, m1], rootText);
    } else {
      assert files == [".env", ".env.local"];
    }
  }

  /** Layer `i` of one env file holds the entries of the copy found at
      position `n-1-i`: the copies are merged from the outermost in. */
  lemma {:induction false} FileLayersOrder(host: Host, name: string, rootText: string)
    ensures var found := LookupMultipleFiles(host.fs, host.cwd, [name], Options(true, Some(rootText), None), false);
            var r := FileLayers(host, name, rootText);
            && |r| == |found|
            && forall i :: 0 <= i < |r| ==> r[i] == EntriesOf(host.fs, found[|found| - 1 - i])
  {
    var found := LookupMultipleFiles(host.fs, host.cwd, [name], Options(true, Some(rootText), None), false);
    var r := FileLayers(host, name, rootText);
    assert r == Reversed(EntriesEach(host.fs, found));
    assert |r| == |found| by {
      CopiesOutward(host.fs, found);
    }
    forall i | 0 <= i < |r|
      ensures r[i] == EntriesOf(host.fs, found[|found| - 1 - i])
    {
      CopiesOutward(host.fs, found);
    }
  }

  /** When the current directory holds the file, its entries form the last
      layer, the one merged last. */
  lemma {:induction false} CwdCopyLast(host: Host, name: string, rootText: string)
    requires host.cwd + [name] in host.fs
    ensures var r := FileLayers(host, name, rootText);
            |r| > 0 && r[|r| - 1] == host.fs[host.cwd + [name]].entries
  {
    var opts := Options(true, Some(rootText), None);
    var found := LookupMultipleFiles(host.fs, host.cwd, [name], opts, false);
    MatchesInOne(host.fs, host.cwd, name, opts);
    assert found[0] == AtPath(host.cwd + [name]);
    FileLayersOrder(host, name, rootText);
  }

  /** For any list of copies, nearest first: reversing their entries puts
      copy `n-1-i` at layer `i`. */
  lemma {:induction false} CopiesOutward(fs: FileSystem, found: seq<Found>)
    ensures var r := Reversed(EntriesEach(fs, found));
            && |r| == |found|
            && forall i :: 0 <= i < |r| ==> r[i] == EntriesOf(fs, found[|found| - 1 - i])
  {
    var outward := EntriesEach(fs, found);
    var r := Reversed(outward);
    forall i | 0 <= i < |r|
      ensures r[i] == EntriesOf(fs, found[|found| - 1 - i])
    {
      assert r[i] == outward[|found| - 1 - i];
    }
  }

  /** Merging the copies from the outermost in, a key takes its value from
      the first copy in the found order that defines it. */
  lemma {:induction false} NearestWins(outward: seq<map<string, string>>, k: string, i: int)
    requires 0 <= i < |outward| && k in outward[i]
    requires forall j :: 0 <= j < i ==> k !in outward[j]
    ensures var merged := Merge(Reversed(outward));
            k in merged && merged[k] == outward[i][k]
  {
    var layers := Reversed(outward);
    var n := |outward|;
    var h := n - 1 - i;
    assert layers[h] == outward[i];
    forall j | h < j < n
      ensures k !in layers[j]
    {
      assert layers[j] == outward[n - 1 - j];
    }
    assert LastHolder(layers, k, h);
  }

  /** For any list of copies, nearest first: merged from the outermost
      in, a key takes its value from the nearest copy that defines it. */
  lemma {:induction false} NearestCopyWins(fs: FileSystem, found: seq<Found>, k: string, i: int)
    requires 0 <= i < |found| && k in EntriesOf(fs, found[i])
    requires forall j :: 0 <= j < i ==> k !in EntriesOf(fs, found[j])
    ensures var merged := Merge(Reversed(EntriesEach(fs, found)));
            k in merged && merged[k] == EntriesOf(fs, found[i])[k]
  {
    var outward := EntriesEach(fs, found);
    assert forall j :: 0 <= j < |found| ==> outward[j] == EntriesOf(fs, found[j]);
    NearestWins(outward, k, i);
  }

  /** Within one env file name, a key takes its value from the nearest
      copy that defines it: the copies found earlier (further in) override
      those found further up. */
  lemma {:induction false} InnermostWins(host: Host, name: string, rootText: string, k: string, i: int)
    requires var found := LookupMultipleFiles(host.fs, host.cwd, [name], Options(true, Some(rootText), None), false);
             && 0 <= i < |found| && k in EntriesOf(host.fs, found[i])
             && forall j :: 0 <= j < i ==> k !in EntriesOf(host.fs, found[j])
    ensures var found := LookupMultipleFiles(host.fs, host.cwd, [name], Options(true, Some(rootText), None), false);
            var merged := Merge(FileLayers(host, name, rootText));
            k in merged && merged[k] == EntriesOf(host.fs, found[i])[k]
  {
    var found := LookupMultipleFiles(host.fs, host.cwd, [name], Options(true, Some(rootText), None), false);
    NearestCopyWins(host.fs, found, k, i);
    assert FileLayers(host, name, rootText) == Reversed(EntriesEach(host.fs, found));
  }
}
