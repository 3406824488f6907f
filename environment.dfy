/** Where tvault finds its tools and its vault file (tvault.py:129-148).
    `shutil.which`, `os.path.isdir` and the home directory come in as
    parameters. */
module Environment {
  import opened Failures

  /** `shutil.which(tool)` gave a path Python treats as true (not None and
      not empty). */
  predicate Found(which: string -> Option, tool: string) {
    which(tool).Some? && which(tool).value != []
  }

  /** `gettoolpaths(*tools)`: the tools that were found, each with the path
      `which` gave for it. */
  method GetToolPaths(tools: seq<string>, which: string -> Option) returns (res: map<string, string>)
    ensures forall t :: t in res <==> t in tools && Found(which, t)
    ensures forall t :: t in res ==> which(t).Some? && res[t] == which(t).value
  {
    res := map[];
    var i := 0;
    while i < |tools|
      invariant 0 <= i <= |tools|
      invariant forall t :: t in res <==> t in tools[..i] && Found(which, t)
      invariant forall t :: t in res ==> which(t).Some? && res[t] == which(t).value
    {
      var t := tools[i];
      var path := which(t);
      if path.Some? && path.value != [] {
        res := res[t := path.value];
      }
      assert tools[..i + 1] == tools[..i] + [t];
      i := i + 1;
    }
    assert tools[..i] == tools;
  }

  /** `os.path.join(a, b)` for a relative `b`. */
  function JoinPath(a: string, b: string): (r: string)
    ensures a <= r && |r| >= |a| + |b| && r[|r| - |b|..] == b
    ensures |r| == |a| + |b| <==> a == [] || a[|a| - 1] == '/'
    ensures |r| != |a| + |b| ==> |r| == |a| + 1 + |b| && r[|a|] == '/'
  {
    if a == [] || a[|a| - 1] == '/' then a + b else a + "/" + b
  }

  /** The separator `os.path.join` puts after `home`. */
  function HomeSep(home: string): string {
    if home == [] || home[|home| - 1] == '/' then [] else "/"
  }

  /** `getvaultpath()`: `~/.config/tvault` when `~/.config` is a directory,
      `~/.tvault` otherwise. */
  function GetVaultPath(home: string, isDir: string -> bool): (path: string)
    ensures isDir(JoinPath(home, ".config")) ==> path == home + HomeSep(home) + ".config/tvault"
    ensures !isDir(JoinPath(home, ".config")) ==> path == home + HomeSep(home) + ".tvault"
  {
    var configDir := JoinPath(home, ".config");
    JoinWithSep(home, ".config");
    if isDir(configDir) then
      JoinWithSep(configDir, "tvault");
      assert configDir[|configDir| - 1] == 'g';
      assert configDir + "/" + "tvault" == home + HomeSep(home) + ".config/tvault";
      JoinPath(configDir, "tvault")
    else
      JoinWithSep(home, ".tvault");
      JoinPath(home, ".tvault")
  }

  lemma JoinWithSep(a: string, b: string)
    ensures JoinPath(a, b) == a + HomeSep(a) + b
  {
  }
}
