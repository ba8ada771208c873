/** The checks `copy` and `move` (app.py) make before touching the file
    system. Paths are the resolved absolute paths, as sequences of
    components; the file system is the map from every existing path to
    whether it is a directory. */
module Transfer {

  type Path = seq<string>

  /** The reply of the checks, in the order they are made. */
  datatype Verdict =
    | NoSource             // 400: no source path in the request
    | SourceNotFound       // 404: the source does not exist
    | NoDestDir            // 400: the destination directory does not exist or is a file
    | DestExists           // 400: the destination directory already holds that name
    | IntoItself           // 400: a directory would go into itself or one of its subdirectories
    | Proceed(dest: Path)  // the copy or move is attempted at `dest`

  /** `Path.name`: the last component, or "" for the root. */
  function Name(p: Path): (n: string)
    ensures p != [] ==> n == p[|p| - 1]
  {
    if p == [] then "" else p[|p| - 1]
  }

  /** `dir / name`: joining an empty name leaves the directory as it is. */
  function Child(dir: Path, name: string): (p: Path)
    ensures name == "" ==> p == dir
    ensures name != "" ==> |p| == |dir| + 1 && p[..|dir|] == dir && p[|dir|] == name
  {
    if name == "" then dir else dir + [name]
  }

  /** `PurePath.is_relative_to`: `base` is `p` itself or one of its ancestors. */
  predicate IsRelativeTo(p: Path, base: Path)
  {
    |base| <= |p| && p[..|base|] == base
  }

  /** The guard of `copy` and `move`. `sourceArg` is the raw form field; `source`
      and `destDir` are the paths it and the destination field resolve to. */
  function CheckTransfer(fs: map<Path, bool>, sourceArg: string, source: Path, destDir: Path): (v: Verdict)
    ensures v == NoSource <==> sourceArg == ""
    ensures v == SourceNotFound <==> sourceArg != "" && source !in fs
    ensures v == NoDestDir <==>
              sourceArg != "" && source in fs && !(destDir in fs && fs[destDir])
    ensures v == DestExists <==>
              && sourceArg != "" && source in fs && destDir in fs && fs[destDir]
              && Child(destDir, Name(source)) in fs
    ensures v == IntoItself <==>
              && sourceArg != "" && source in fs && destDir in fs && fs[destDir]
              && Child(destDir, Name(source)) !in fs
              && fs[source] && IsRelativeTo(Child(destDir, Name(source)), source)
    ensures v.Proceed? <==>
              && sourceArg != "" && source in fs && destDir in fs && fs[destDir]
              && Child(destDir, Name(source)) !in fs
              && !(fs[source] && IsRelativeTo(Child(destDir, Name(source)), source))
    ensures v.Proceed? ==> v.dest == Child(destDir, Name(source))
  {
    if sourceArg == "" then NoSource
    else if source !in fs then SourceNotFound
    else if destDir !in fs || !fs[destDir] then NoDestDir
    else
      var dest := Child(destDir, Name(source));
      if dest in fs then DestExists
      else if fs[source] && IsRelativeTo(dest, source) then IntoItself
      else Proceed(dest)
  }

  /** The target is below the source exactly when the destination directory
      is the source or below it, unless the target is the source itself. */
  lemma {:induction false} ChildRelativeTo(destDir: Path, source: Path)
    requires source != [] && Name(source) != ""
    ensures IsRelativeTo(Child(destDir, Name(source)), source) <==>
              IsRelativeTo(destDir, source) || Child(destDir, Name(source)) == source
  {
    var dest := Child(destDir, Name(source));
    if IsRelativeTo(dest, source) && dest != source {
      assert |source| <= |destDir|;
      assert destDir[..|source|] == dest[..|destDir|][..|source|];
    }
    if IsRelativeTo(destDir, source) {
      assert dest[..|source|] == destDir[..|destDir|][..|source|];
    }
  }

  /** A directory is never copied or moved into itself or below itself: when
      the destination directory is the source or inside it, the request is
      refused, either because the name is already there or by the guard. */
  lemma NeverIntoItself(fs: map<Path, bool>, sourceArg: string, source: Path, destDir: Path)
    requires source in fs && fs[source] && source != [] && Name(source) != ""
    requires IsRelativeTo(destDir, source)
    ensures !CheckTransfer(fs, sourceArg, source, destDir).Proceed?
  {
    ChildRelativeTo(destDir, source);
  }

  /** The guard refuses exactly the directories whose destination directory is
      the source or below it, once the earlier checks have passed. */
  lemma IntoItselfExactly(fs: map<Path, bool>, sourceArg: string, source: Path, destDir: Path)
    requires source != [] && Name(source) != ""
    ensures CheckTransfer(fs, sourceArg, source, destDir) == IntoItself <==>
              && sourceArg != "" && source in fs && destDir in fs && fs[destDir]
              && Child(destDir, Name(source)) !in fs
              && fs[source] && IsRelativeTo(destDir, source)
  {
    ChildRelativeTo(destDir, source);
  }

  /** The string comparison used when `is_relative_to` is missing (Python 3.8
      and older): the text of the target starts with the text of the source. */
  predicate StartsWithAsText(dest: string, source: string)
  {
    |source| <= |dest| && dest[..|source|] == source
  }

  /** `str()` of an absolute path. */
  function PathText(p: Path): (t: string)
    ensures p == [] ==> t == "/"
    ensures |t| >= 1 && t[0] == '/'
  {
    if p == [] then "/"
    else if |p| == 1 then "/" + p[0]
    else PathText(p[..|p| - 1]) + "/" + p[|p| - 1]
  }

  /** The string fallback refuses a directory that is not an ancestor of the
      target: moving "/srv/ab" into "/srv/abc" is refused, since the text
      "/srv/abc/ab" starts with "/srv/ab". */
  lemma TextGuardOverRefuses()
    ensures var source := ["srv", "ab"];
            var dest := Child(["srv", "abc"], Name(source));
            && StartsWithAsText(PathText(dest), PathText(source))
            && !IsRelativeTo(dest, source)
  {
    var source := ["srv", "ab"];
    var dest := Child(["srv", "abc"], Name(source));
    assert dest == ["srv", "abc", "ab"];
    assert PathText(source) == "/srv/ab";
    assert PathText(dest) == "/srv/abc/ab";
    assert dest[..2] == ["srv", "abc"];
    assert dest[..2][1] != source[1];
  }
}
