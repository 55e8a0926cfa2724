/**
 * `src/inventory/Packager.py`: turns an item directory into a `.pyz`
 * archive. The packager derives the module name from the directory, checks
 * that the required files are present and importable, copies the directory
 * into a scratch area, appends a `__main__` launcher to the staged module,
 * writes the archive and always removes the scratch area again.
 */
module Packager {
  import opened Bytes
  import opened Wrappers
  import opened Text
  import opened Naming
  import opened Files
  import opened Runtime
  import Utf8

  /** The characters `directory.rstrip('/\\')` strips. */
  const Separators: set<char> := {'/', '\\'}

  /** The text whose presence means the staged module already has a launcher. */
  const Marker: string := "if __name__ == '__main__'"

  /** `snake_to_camel(os.path.basename(directory.rstrip('/\\')))` */
  function ModuleNameOf(directory: string): (m: string)
    ensures '/' !in m && '_' !in m
  {
    var base := Basename(StripEndOf(directory, Separators));
    SnakeToCamelKeepsUncased(base, '/');
    SnakeToCamelRemovesUnderscores(base);
    SnakeToCamel(base)
  }

  /** `output_dir or os.getcwd()` */
  function OutputDirOf(cwd: Path, outputDir: Option<string>): (r: string)
    ensures r != ""
  {
    if outputDir.None? || outputDir.value == "" then Render(cwd) else outputDir.value
  }

  /** The archive's file name, a plain name for every module name. */
  function ArchiveName(m: string): (r: string)
    requires '/' !in m
    ensures IsName(r) && EndsWith(r, ".pyz")
  {
    var r := m + ".pyz";
    assert r[|r| - 4..] == ".pyz";
    assert '/' !in r by {
      forall i | 0 <= i < |r|
        ensures r[i] != '/'
      {
        if i < |m| {
          assert r[i] == m[i];
        } else {
          assert r[i] == ".pyz"[i - |m|];
        }
      }
    }
    r
  }

  /** The files `_validate_structure` requires, in the order it reports them. */
  function RequiredFiles(m: string): seq<string>
  {
    ["meta.py", m + ".py"]
  }

  /** `[f for f in names if not os.path.exists(os.path.join(directory, f))]` */
  function Missing(fs: FileSystem, directory: Path, names: seq<string>): (r: seq<string>)
    ensures forall f :: f in r <==> f in names && directory + [f] !in fs
    ensures |r| <= |names|
  {
    if names == [] then []
    else (if directory + [names[0]] in fs then [] else [names[0]]) + Missing(fs, directory, names[1..])
  }

  datatype PackageError =
    | OutputDirFailed(cause: FsError)
    | ArchiveExists
    | MissingFiles(missing: seq<string>)
    | InvalidMeta
    | InvalidModule
    | ModuleUnreadable
    | HasMainFile
    | InvalidEntryPoint(main: string)
    | WriteFailed(cause: FsError)

  /** The `RuntimeError` that `package` raises in place of any other exception. */
  datatype PackageFailure = RuntimeError(directory: Path, cause: PackageError)

  /**
   * `_validate_structure`: every missing required file is reported together;
   * then `meta.py` must run and define a dict `metadata`, and the module file
   * must run and define an attribute named after the module.
   */
  function ValidateStructure(fs: FileSystem, directory: Path, m: string, run: Interpreter): Outcome<PackageError>
  {
    var missing := Missing(fs, directory, RequiredFiles(m));
    if missing != [] then Fail(MissingFiles(missing))
    else
      match ExecFile(fs, directory + ["meta.py"], "meta.py", run)
      case Raised => Fail(InvalidMeta)
      case Namespace(meta) =>
        if !DefinesDict(meta, "metadata") then Fail(InvalidMeta)
        else
          match ExecFile(fs, directory + [m + ".py"], m + ".py", run)
          case Raised => Fail(InvalidModule)
          case Namespace(defined) => if m in defined then Pass else Fail(InvalidModule)
  }

  /** The missing-files error lists exactly the absent required files, `meta.py` first. */
  lemma ValidateReportsMissing(fs: FileSystem, directory: Path, m: string, run: Interpreter)
    ensures var expected := (if directory + ["meta.py"] !in fs then ["meta.py"] else [])
                            + (if directory + [m + ".py"] !in fs then [m + ".py"] else []);
      (ValidateStructure(fs, directory, m, run) == Fail(MissingFiles(expected)) <==> expected != [])
      && (ValidateStructure(fs, directory, m, run).Fail? && ValidateStructure(fs, directory, m, run).error.MissingFiles?
          ==> expected != [])
  {
    var names := RequiredFiles(m);
    assert names[1..] == [m + ".py"];
    assert Missing(fs, directory, names[1..][1..]) == [];
    assert Missing(fs, directory, names[1..]) == (if directory + [m + ".py"] in fs then [] else [m + ".py"]);
  }

  /**
   * The structure check passes exactly when both files exist, `meta.py`
   * defines a dict `metadata` and the module defines the class attribute.
   */
  lemma ValidatePasses(fs: FileSystem, directory: Path, m: string, run: Interpreter)
    ensures ValidateStructure(fs, directory, m, run).Pass? <==>
      IsFile(fs, directory + ["meta.py"]) && IsFile(fs, directory + [m + ".py"])
      && run(directory + ["meta.py"], fs[directory + ["meta.py"]].data).Namespace?
      && DefinesDict(run(directory + ["meta.py"], fs[directory + ["meta.py"]].data).attrs, "metadata")
      && run(directory + [m + ".py"], fs[directory + [m + ".py"]].data).Namespace?
      && m in run(directory + [m + ".py"], fs[directory + [m + ".py"]].data).attrs
  {
    ValidateReportsMissing(fs, directory, m, run);
    assert EndsWith("meta.py", ".py");
    assert EndsWith(m + ".py", ".py") by {
      var f := m + ".py";
      assert f[|f| - 3..] == ".py";
    }
  }

  /** The launcher `_add_entrypoint` appends. */
  function EntrypointCode(m: string): string
  {
    "\n\n" + Marker + ":\n    " + m + "().use()"
  }

  lemma EntrypointHasMarker(m: string)
    ensures Contains(EntrypointCode(m), Marker)
  {
    var code := EntrypointCode(m);
    assert code[2..] == Marker + (":\n    " + m + "().use()");
    assert StartsWith(code[2..], Marker);
    assert code[1..][1..] == code[2..];
  }

  /**
   * `_add_entrypoint` on the file at `p`: read it as UTF-8, and append the
   * launcher unless the marker is already there.
   */
  function WithEntrypoint(fs: FileSystem, p: Path, m: string): (r: Result<FileSystem, PackageError>)
  {
    match ReadFile(fs, p)
    case Err(_) => Err(ModuleUnreadable)
    case Ok(data) =>
      match Utf8.Decode(data)
      case None => Err(ModuleUnreadable)
      case Some(text) =>
        if Contains(text, Marker) then Ok(fs)
        else Ok(fs[p := File(data + Utf8.Encode(EntrypointCode(m)))])
  }

  /**
   * After `_add_entrypoint` the module text holds the marker, and it is the
   * old text, possibly followed by the launcher.
   */
  lemma WithEntrypointAddsMarker(fs: FileSystem, p: Path, m: string)
    requires WithEntrypoint(fs, p, m).Ok?
    ensures var fs' := WithEntrypoint(fs, p, m).value;
      var old_text := Utf8.Decode(fs[p].data).value;
      IsFile(fs', p) && Utf8.Decode(fs'[p].data).Some?
      && Contains(Utf8.Decode(fs'[p].data).value, Marker)
      && (Utf8.Decode(fs'[p].data).value == old_text
          || Utf8.Decode(fs'[p].data).value == old_text + EntrypointCode(m))
  {
    var data := fs[p].data;
    var text := Utf8.Decode(data).value;
    if !Contains(text, Marker) {
      var code := EntrypointCode(m);
      Utf8.DecodeEncode(code);
      Utf8.DecodeAppend(data, Utf8.Encode(code));
      EntrypointHasMarker(m);
      ContainsInSuffix(text, code, Marker);
    }
  }

  /** A second `_add_entrypoint` leaves the module file unchanged. */
  lemma WithEntrypointIdempotent(fs: FileSystem, p: Path, m: string)
    requires WithEntrypoint(fs, p, m).Ok?
    ensures WithEntrypoint(WithEntrypoint(fs, p, m).value, p, m) == WithEntrypoint(fs, p, m)
  {
    WithEntrypointAddsMarker(fs, p, m);
  }

  // -----------------------------------------------------------------------
  // Staging

  /** The staging loop's progress at one path: the children in `done` are copied below `tmp`. */
  ghost predicate StagedAt(files: FileSystem, before: FileSystem, directory: Path, tmp: Path, done: set<string>, q: Path)
  {
    (q in files <==>
      (q in before
       || (Under(q, tmp) && (|q| == |tmp| || q[|tmp|] in done) && directory + q[|tmp|..] in before)))
    && (q in files ==> files[q] == if q in before then before[q] else before[directory + q[|tmp|..]])
  }

  /** The staging loop's progress at every path. */
  ghost predicate StagedSoFar(files: FileSystem, before: FileSystem, directory: Path, tmp: Path, done: set<string>)
  {
    forall q :: StagedAt(files, before, directory, tmp, done, q)
  }

  /** The disjointness `mkdtemp` gives: nothing exists below `tmp`, and `tmp` is not inside `directory`. */
  ghost predicate Apart(before: FileSystem, directory: Path, tmp: Path)
  {
    (forall q :: q in before ==> !Under(q, tmp)) && !Under(tmp, directory) && directory in before
  }

  lemma SourceUnchanged(files: FileSystem, before: FileSystem, directory: Path, tmp: Path, done: set<string>, p: Path)
    requires StagedSoFar(files, before, directory, tmp, done) && Apart(before, directory, tmp)
    requires Under(p, directory)
    ensures p in files <==> p in before
    ensures p in files ==> files[p] == before[p]
  {
    assert StagedAt(files, before, directory, tmp, done, p);
  }

  lemma StagingStep(files: FileSystem, before: FileSystem, directory: Path, tmp: Path, done: set<string>, n: string)
    requires StagedSoFar(files, before, directory, tmp, done) && Apart(before, directory, tmp)
    ensures StagedSoFar(files + CopyTree(files, directory + [n], tmp + [n]), before, directory, tmp, done + {n})
  {
    forall q
      ensures StagedAt(files + CopyTree(files, directory + [n], tmp + [n]), before, directory, tmp, done + {n}, q)
    {
      assert StagedAt(files, before, directory, tmp, done, q);
      if Under(q, tmp + [n]) {
        var src := directory + [n] + q[|tmp| + 1..];
        assert Under(src, directory);
        SourceUnchanged(files, before, directory, tmp, done, src);
      }
      StagingStepAt(files, before, directory, tmp, done, n, q);
    }
  }

  /** One path's step of the staging loop: copying child `n` adds the paths below `tmp + [n]`. */
  lemma StagingStepAt(files: FileSystem, before: FileSystem, directory: Path, tmp: Path, done: set<string>, n: string, q: Path)
    requires StagedAt(files, before, directory, tmp, done, q) && Apart(before, directory, tmp)
    requires Under(q, tmp + [n]) ==>
      var src := directory + [n] + q[|tmp| + 1..];
      (src in files <==> src in before) && (src in files ==> files[src] == before[src])
    ensures StagedAt(files + CopyTree(files, directory + [n], tmp + [n]), before, directory, tmp, done + {n}, q)
  {
    var files' := files + CopyTree(files, directory + [n], tmp + [n]);
    CopyTreeAt(files, directory + [n], tmp + [n], q);
    ChildUnder(q, tmp, n);
    if Under(q, tmp + [n]) {
      var src := directory + [n] + q[|tmp| + 1..];
      assert q[..|tmp|] == tmp;
      assert q[|tmp|..] == [n] + q[|tmp| + 1..];
      assert directory + q[|tmp|..] == src;
      assert q !in before;
      assert q in files' <==> src in before;
    } else {
      assert q in files' <==> q in files;
    }
  }

  lemma ChildUnder(q: Path, tmp: Path, n: string)
    ensures Under(q, tmp) && |q| > |tmp| && q[|tmp|] == n ==> Under(q, tmp + [n])
  {
    if Under(q, tmp) && |q| > |tmp| && q[|tmp|] == n {
      assert q[..|tmp| + 1] == tmp + [n];
    }
  }

  /** The staged copy at one path, once every child of `directory` is done. */
  lemma FullyStagedAt(before: FileSystem, directory: Path, tmp: Path, q: Path)
    requires WellFormed(before) && Apart(before, directory, tmp)
    ensures var goal := before + CopyTree(before, directory, tmp);
      (q in goal <==>
        (q in before
         || (Under(q, tmp) && (|q| == |tmp| || q[|tmp|] in Children(before, directory)) && directory + q[|tmp|..] in before)))
      && (q in goal ==> goal[q] == if q in before then before[q] else before[directory + q[|tmp|..]])
  {
    CopyTreeAt(before, directory, tmp, q);
    if Under(q, tmp) && |q| > |tmp| && directory + q[|tmp|..] in before {
      ChildOfSource(before, directory, tmp, q);
    }
  }

  lemma ChildOfSource(before: FileSystem, directory: Path, tmp: Path, q: Path)
    requires WellFormed(before) && Under(q, tmp) && |q| > |tmp| && directory + q[|tmp|..] in before
    ensures q[|tmp|] in Children(before, directory)
  {
    var src := directory + q[|tmp|..];
    if |src| > |directory| + 1 {
      AncestorsAreDirs(before, src, |directory| + 1);
    }
    assert src[..|directory| + 1] == directory + [q[|tmp|]];
  }

  lemma StagingDone(files: FileSystem, before: FileSystem, directory: Path, tmp: Path, done: set<string>)
    requires done == Children(before, directory)
    requires StagedSoFar(files, before, directory, tmp, done) && Apart(before, directory, tmp)
    requires WellFormed(before)
    ensures files == before + CopyTree(before, directory, tmp)
  {
    var goal := before + CopyTree(before, directory, tmp);
    forall q
      ensures q in files <==> q in goal
      ensures q in files ==> files[q] == goal[q]
    {
      assert StagedAt(files, before, directory, tmp, done, q);
      FullyStagedAt(before, directory, tmp, q);
    }
  }

  /** The parent of every staged path is a directory. */
  lemma StagedParent(before: FileSystem, directory: Path, tmp: Path, q: Path)
    requires WellFormed(before) && FreshScratch(before, tmp) && Apart(before, directory, tmp)
    requires q in before + CopyTree(before, directory, tmp) && q != []
    ensures IsDir(before + CopyTree(before, directory, tmp), q[..|q| - 1])
  {
    var parent := q[..|q| - 1];
    var copy := CopyTree(before, directory, tmp);
    CopyTreeAt(before, directory, tmp, q);
    CopyTreeAt(before, directory, tmp, parent);
    if q in copy {
      if |q| == |tmp| {
        assert parent == tmp[..|tmp| - 1];
        assert parent !in copy;
      } else {
        CopiedParent(before, directory, tmp, q);
      }
    } else {
      UnderParent(q, tmp);
      assert !Under(parent, tmp);
      assert parent !in copy;
    }
  }

  /** A path copied from below `directory` has a copied directory as its parent. */
  lemma CopiedParent(before: FileSystem, directory: Path, tmp: Path, q: Path)
    requires WellFormed(before) && Under(q, tmp) && |q| > |tmp| && directory + q[|tmp|..] in before
    ensures var parent := q[..|q| - 1];
      Under(parent, tmp) && IsDir(before, directory + parent[|tmp|..])
  {
    var parent := q[..|q| - 1];
    var src := directory + q[|tmp|..];
    assert src[..|src| - 1] == directory + parent[|tmp|..];
    assert parent[..|tmp|] == q[..|tmp|];
    AncestorsAreDirs(before, src, |src| - 1);
  }

  lemma StagedWellFormed(before: FileSystem, directory: Path, tmp: Path)
    requires WellFormed(before) && FreshScratch(before, tmp) && Apart(before, directory, tmp)
    ensures WellFormed(before + CopyTree(before, directory, tmp))
  {
    var after := before + CopyTree(before, directory, tmp);
    forall q | q in after && q != []
      ensures IsDir(after, q[..|q| - 1])
    {
      StagedParent(before, directory, tmp, q);
    }
    CopyTreeAt(before, directory, tmp, []);
  }

  lemma NonEmpty<T>(s: set<T>)
    requires s != {}
    ensures exists x :: x in s
  {
  }

  lemma StagingStart(before: FileSystem, directory: Path, tmp: Path)
    requires IsDir(before, directory) && Apart(before, directory, tmp)
    ensures StagedSoFar(before[tmp := Dir], before, directory, tmp, {})
  {
    var files := before[tmp := Dir];
    forall q
      ensures StagedAt(files, before, directory, tmp, {}, q)
    {
      if q == tmp {
        assert q[|tmp|..] == [] && directory + [] == directory;
      }
    }
  }

  /** The staged tree holds `tmp` as a directory and leaves everything else as it was. */
  lemma StagedKeepsRest(before: FileSystem, directory: Path, tmp: Path)
    requires Apart(before, directory, tmp)
    ensures var after := before + CopyTree(before, directory, tmp);
      IsDir(after, tmp) <==> IsDir(before, directory)
    ensures forall q :: q in before ==>
      (q in before + CopyTree(before, directory, tmp) && (before + CopyTree(before, directory, tmp))[q] == before[q])
    ensures forall q :: q in before + CopyTree(before, directory, tmp) && q !in before ==> Under(q, tmp)
  {
    CopyTreeAt(before, directory, tmp, tmp);
    assert tmp[|tmp|..] == [] && directory + [] == directory;
    forall q | q in before + CopyTree(before, directory, tmp)
      ensures q in before || Under(q, tmp)
    {
      CopyTreeAt(before, directory, tmp, q);
    }
    forall q | q in before
      ensures q !in CopyTree(before, directory, tmp)
    {
      CopyTreeAt(before, directory, tmp, q);
    }
  }

  /** The staged module file is the source module file. */
  lemma StagedModule(before: FileSystem, directory: Path, tmp: Path, name: string)
    requires Apart(before, directory, tmp) && directory + [name] in before
    ensures var after := before + CopyTree(before, directory, tmp);
      tmp + [name] in after && after[tmp + [name]] == before[directory + [name]]
  {
    var q := tmp + [name];
    CopyTreeAt(before, directory, tmp, q);
    assert q[|tmp|..] == [name];
  }

  // -----------------------------------------------------------------------
  // zipapp

  predicate IsAsciiLetter(c: char) { 'a' <= c <= 'z' || 'A' <= c <= 'Z' }

  /** `str.isidentifier` over ASCII: a letter or `_`, then letters, digits or `_`. */
  predicate IsIdentifier(s: string) {
    s != [] && (IsAsciiLetter(s[0]) || s[0] == '_')
    && forall i :: 1 <= i < |s| ==> IsAsciiLetter(s[i]) || '0' <= s[i] <= '9' || s[i] == '_'
  }

  /** Every `.`-separated part is an identifier. */
  predicate IsDottedName(s: string) {
    var parts := Split(s, '.');
    forall i :: 0 <= i < |parts| ==> IsIdentifier(parts[i])
  }

  /**
   * The check `zipapp.create_archive` makes of `main`: partitioned at the
   * first `:`, both the module and the function part are dotted names.
   */
  predicate ValidEntryPoint(main: string) {
    var mod := FirstField(main, ':');
    |mod| < |main| && IsDottedName(mod) && IsDottedName(main[|mod| + 1..])
  }

  /** `f"{module_name}:{module_name}"` */
  function EntryPoint(m: string): string
  {
    m + ":" + m
  }

  /** For a module name without `:`, the entry point is valid exactly when the name is a dotted name. */
  lemma EntryPointValid(m: string)
    requires ':' !in m
    ensures ValidEntryPoint(EntryPoint(m)) <==> IsDottedName(m)
  {
    var main := EntryPoint(m);
    assert main == m + [':'] + m;
    FirstFieldAt(m, ':', m);
    assert main[|m| + 1..] == m;
  }

  /** The bytes of an archive of the tree at a path with the given entry point. */
  type Archiver = (FileSystem, Path, string) -> seq<byte>

  /**
   * `zipapp.create_archive(source, target, main)` for a source directory: the
   * source must not hold a `__main__.py` file, `main` must be a valid entry
   * point, and the archive is written to `target`.
   */
  function CreateArchive(fs: FileSystem, source: Path, main: string, target: Path, archive: Archiver): (r: Result<FileSystem, PackageError>)
    ensures r.Ok? <==> !IsFile(fs, source + ["__main__.py"]) && ValidEntryPoint(main)
                       && target != [] && !IsDir(fs, target) && IsDir(fs, target[..|target| - 1])
    ensures r.Ok? ==> r.value == fs[target := File(archive(fs, source, main))]
    ensures WellFormed(fs) && r.Ok? ==> WellFormed(r.value)
  {
    if IsFile(fs, source + ["__main__.py"]) then Err(HasMainFile)
    else if !ValidEntryPoint(main) then Err(InvalidEntryPoint(main))
    else
      match WriteFile(fs, target, archive(fs, source, main))
      case Err(e) => Err(WriteFailed(e))
      case Ok(written) => Ok(written)
  }

  // -----------------------------------------------------------------------
  // The whole run

  /** What the `try` block of `package` leaves behind: the disk, whether staging ran, and its result. */
  datatype Attempted = Attempted(files: FileSystem, staged: bool, outcome: Result<string, PackageError>)

  /** `base` with the item directory copied to `tmp`. */
  function Staged(base: FileSystem, directory: Path, tmp: Path): FileSystem
  {
    base + CopyTree(base, directory, tmp)
  }

  /**
   * The `try` block of `package`: create the output directory, refuse an
   * existing archive unless forced, validate, stage, add the launcher and
   * write the archive.
   */
  function Attempt(fs: FileSystem, cwd: Path, directory: Path, m: string, outputDir: string, pyzPath: string,
                   force: bool, tmp: Path, run: Interpreter, archive: Archiver): Attempted
  {
    match MakeDirs(fs, Resolve(cwd, outputDir))
    case Err(e) => Attempted(fs, false, Err(OutputDirFailed(e)))
    case Ok(made) =>
      var pyzLoc := Resolve(cwd, pyzPath);
      if pyzLoc in made && !force then Attempted(made, false, Err(ArchiveExists))
      else
        match ValidateStructure(made, directory, m, run)
        case Fail(e) => Attempted(made, false, Err(e))
        case Pass => Build(made, directory, m, tmp, pyzLoc, pyzPath, archive)
  }

  /** The steps of the attempt from staging on: stage, add the launcher, write the archive. */
  function Build(made: FileSystem, directory: Path, m: string, tmp: Path, pyzLoc: Path, pyzPath: string,
                 archive: Archiver): (a: Attempted)
    ensures a.staged
    ensures a.outcome.Ok? ==> a.outcome.value == pyzPath
  {
    var staged := Staged(made, directory, tmp);
    match WithEntrypoint(staged, tmp + [m + ".py"], m)
    case Err(e) => Attempted(staged, true, Err(e))
    case Ok(launched) =>
      match CreateArchive(launched, tmp, EntryPoint(m), pyzLoc, archive)
      case Err(e) => Attempted(launched, true, Err(e))
      case Ok(written) => Attempted(written, true, Ok(pyzPath))
  }

  /**
   * Removing the scratch tree after a build leaves the disk as it was
   * before staging, plus the archive when the build succeeded.
   */
  lemma BuildThenClean(made: FileSystem, directory: Path, m: string, tmp: Path, pyzLoc: Path, pyzPath: string,
                       archive: Archiver)
    requires Apart(made, directory, tmp) && IsDir(made, directory) && !Under(pyzLoc, tmp)
    ensures var a := Build(made, directory, m, tmp, pyzLoc, pyzPath, archive);
      tmp in a.files
      && RemoveTree(a.files, tmp) ==
           if a.outcome.Ok?
           then made[pyzLoc := File(archive(WithEntrypoint(Staged(made, directory, tmp), tmp + [m + ".py"], m).value,
                                             tmp, EntryPoint(m)))]
           else made
  {
    var a := Build(made, directory, m, tmp, pyzLoc, pyzPath, archive);
    var staged := Staged(made, directory, tmp);
    StagedKeepsRest(made, directory, tmp);
    var launch := WithEntrypoint(staged, tmp + [m + ".py"], m);
    if launch.Ok? {
      LaunchedShape(made, directory, tmp, m);
      var built := CreateArchive(launch.value, tmp, EntryPoint(m), pyzLoc, archive);
      if built.Ok? {
        RemoveGrown(made, built.value, tmp, Some(pyzLoc));
      } else {
        RemoveGrown(made, launch.value, tmp, None);
      }
    } else {
      RemoveGrown(made, staged, tmp, None);
    }
  }

  /** `package`: the attempt, any error wrapped as `RuntimeError`, and the `finally` clean-up. */
  function PackageRun(fs: FileSystem, cwd: Path, directory: Path, m: string, outputDir: string, pyzPath: string,
                      force: bool, tmp: Path, run: Interpreter, archive: Archiver): (Result<string, PackageFailure>, FileSystem)
  {
    var a := Attempt(fs, cwd, directory, m, outputDir, pyzPath, force, tmp, run, archive);
    var result := match a.outcome
      case Ok(p) => Ok(p)
      case Err(e) => Err(RuntimeError(directory, e));
    (result, if a.staged && tmp in a.files then RemoveTree(a.files, tmp) else a.files)
  }

  /** `os.path.join(output_dir, f"{module_name}.pyz")` resolves to the archive name inside the output directory. */
  lemma PyzLocation(cwd: Path, outputDir: string, m: string)
    requires '/' !in m
    ensures Resolve(cwd, JoinPath(outputDir, ArchiveName(m))) == Resolve(cwd, outputDir) + [ArchiveName(m)]
  {
    ResolveJoin(cwd, outputDir, ArchiveName(m));
  }

  /** A path below a path below `root` is below `root`. */
  lemma UnderTransitive(p: Path, q: Path, root: Path)
    requires Under(p, q) && Under(q, root)
    ensures Under(p, root)
  {
    assert p[..|root|] == p[..|q|][..|root|];
  }

  /** A successful structure check implies the item directory is a directory. */
  lemma ValidatedIsDir(fs: FileSystem, directory: Path, m: string, run: Interpreter)
    requires WellFormed(fs) && ValidateStructure(fs, directory, m, run).Pass?
    ensures IsDir(fs, directory)
  {
    ValidatePasses(fs, directory, m, run);
    var meta := directory + ["meta.py"];
    AncestorsAreDirs(fs, meta, |directory|);
    assert meta[..|directory|] == directory;
  }

  /** `os.makedirs` of the output directory leaves a fresh scratch directory fresh. */
  lemma StillFresh(fs: FileSystem, outLoc: Path, tmp: Path)
    requires WellFormed(fs) && FreshScratch(fs, tmp) && !Under(outLoc, tmp) && MakeDirs(fs, outLoc).Ok?
    ensures FreshScratch(MakeDirs(fs, outLoc).value, tmp)
    ensures forall q :: q in MakeDirs(fs, outLoc).value ==> !Under(q, tmp)
  {
    var made := MakeDirs(fs, outLoc).value;
    FreshHasNothingBelow(fs, tmp);
    forall q | q in made
      ensures !Under(q, tmp)
    {
      if q !in fs && Under(q, tmp) {
        UnderTransitive(outLoc, q, tmp);
      }
    }
  }

  /** The premises of one run of `package`: a well-formed disk and a `mkdtemp` name apart from the item and the archive. */
  predicate Premises(fs: FileSystem, cwd: Path, directory: Path, m: string, outputDir: string, pyzPath: string, tmp: Path)
  {
    WellFormed(fs) && IsCanonical(cwd) && '/' !in m
    && pyzPath == JoinPath(outputDir, ArchiveName(m))
    && FreshScratch(fs, tmp) && !Under(tmp, directory) && !Under(Resolve(cwd, pyzPath), tmp)
  }

  /** The output directory is not below the scratch directory, because the archive is not. */
  lemma OutputApart(cwd: Path, outputDir: string, m: string, tmp: Path)
    requires '/' !in m && !Under(Resolve(cwd, JoinPath(outputDir, ArchiveName(m))), tmp)
    ensures !Under(Resolve(cwd, outputDir), tmp)
  {
    PyzLocation(cwd, outputDir, m);
    var outLoc := Resolve(cwd, outputDir);
    if Under(outLoc, tmp) {
      UnderTransitive(outLoc + [ArchiveName(m)], outLoc, tmp);
    }
  }

  /** The staged tree with the launcher: the old disk, plus entries below `tmp`, with `tmp` among them. */
  lemma LaunchedShape(made: FileSystem, directory: Path, tmp: Path, m: string)
    requires Apart(made, directory, tmp) && IsDir(made, directory)
    requires WithEntrypoint(Staged(made, directory, tmp), tmp + [m + ".py"], m).Ok?
    ensures var launched := WithEntrypoint(Staged(made, directory, tmp), tmp + [m + ".py"], m).value;
      tmp in launched
      && (forall q :: q in made ==> q in launched && launched[q] == made[q])
      && (forall q :: q in launched && q !in made ==> Under(q, tmp))
  {
    StagedKeepsRest(made, directory, tmp);
    assert (tmp + [m + ".py"])[..|tmp|] == tmp;
  }

  /** When `os.makedirs` fails, `package` raises with that cause and nothing on disk changes. */
  lemma PackageOutputDirFails(fs: FileSystem, cwd: Path, directory: Path, m: string, outputDir: string, pyzPath: string,
                              force: bool, tmp: Path, run: Interpreter, archive: Archiver)
    requires MakeDirs(fs, Resolve(cwd, outputDir)).Err?
    ensures PackageRun(fs, cwd, directory, m, outputDir, pyzPath, force, tmp, run, archive)
      == (Err(RuntimeError(directory, OutputDirFailed(MakeDirs(fs, Resolve(cwd, outputDir)).error))), fs)
  {
  }

  /**
   * A failed `package` leaves the disk as `os.makedirs` left it: the scratch
   * tree is gone and no archive was written.
   */
  lemma PackageFailureKeepsDisk(fs: FileSystem, cwd: Path, directory: Path, m: string, outputDir: string, pyzPath: string,
                                force: bool, tmp: Path, run: Interpreter, archive: Archiver)
    requires Premises(fs, cwd, directory, m, outputDir, pyzPath, tmp)
    requires MakeDirs(fs, Resolve(cwd, outputDir)).Ok?
    requires PackageRun(fs, cwd, directory, m, outputDir, pyzPath, force, tmp, run, archive).0.Err?
    ensures PackageRun(fs, cwd, directory, m, outputDir, pyzPath, force, tmp, run, archive).1
      == MakeDirs(fs, Resolve(cwd, outputDir)).value
  {
    var outLoc := Resolve(cwd, outputDir);
    var made := MakeDirs(fs, outLoc).value;
    var a := Attempt(fs, cwd, directory, m, outputDir, pyzPath, force, tmp, run, archive);
    AttemptSteps(fs, cwd, directory, m, outputDir, pyzPath, force, tmp, run, archive);
    if a.staged {
      AttemptStaged(fs, cwd, directory, m, outputDir, pyzPath, force, tmp, run, archive);
      BuildThenClean(made, directory, m, tmp, Resolve(cwd, pyzPath), pyzPath, archive);
      assert a.outcome.Err? && tmp in a.files && RemoveTree(a.files, tmp) == made;
    } else {
      assert a.files == made;
    }
  }

  /**
   * A successful `package` returns the archive path, and the disk is the
   * one `os.makedirs` left plus the archive of the staged tree with its
   * launcher; the scratch tree is gone.
   */
  lemma PackageSuccess(fs: FileSystem, cwd: Path, directory: Path, m: string, outputDir: string, pyzPath: string,
                       force: bool, tmp: Path, run: Interpreter, archive: Archiver)
    requires Premises(fs, cwd, directory, m, outputDir, pyzPath, tmp)
    requires PackageRun(fs, cwd, directory, m, outputDir, pyzPath, force, tmp, run, archive).0.Ok?
    ensures MakeDirs(fs, Resolve(cwd, outputDir)).Ok?
    ensures var made := MakeDirs(fs, Resolve(cwd, outputDir)).value;
      var r := PackageRun(fs, cwd, directory, m, outputDir, pyzPath, force, tmp, run, archive);
      r.0.value == pyzPath
      && r.1 == made[Resolve(cwd, pyzPath) := File(archive(
           WithEntrypoint(Staged(made, directory, tmp), tmp + [m + ".py"], m).value, tmp, EntryPoint(m)))]
  {
    var outLoc := Resolve(cwd, outputDir);
    var a := Attempt(fs, cwd, directory, m, outputDir, pyzPath, force, tmp, run, archive);
    AttemptSteps(fs, cwd, directory, m, outputDir, pyzPath, force, tmp, run, archive);
    assert a.outcome.Ok?;
    assert MakeDirs(fs, outLoc).Ok?;
    var made := MakeDirs(fs, outLoc).value;
    assert a == Build(made, directory, m, tmp, Resolve(cwd, pyzPath), pyzPath, archive);
    AttemptStaged(fs, cwd, directory, m, outputDir, pyzPath, force, tmp, run, archive);
    BuildThenClean(made, directory, m, tmp, Resolve(cwd, pyzPath), pyzPath, archive);
    assert a.staged && tmp in a.files && a.outcome == Ok(pyzPath);
    assert PackageRun(fs, cwd, directory, m, outputDir, pyzPath, force, tmp, run, archive) == (Ok(pyzPath), RemoveTree(a.files, tmp));
  }

  /** Without `force`, an existing archive is refused before anything is validated or staged, and nothing changes. */
  lemma RefusesExistingArchive(fs: FileSystem, cwd: Path, directory: Path, m: string, outputDir: string, pyzPath: string,
                               tmp: Path, run: Interpreter, archive: Archiver)
    requires Premises(fs, cwd, directory, m, outputDir, pyzPath, tmp)
    requires Resolve(cwd, pyzPath) in fs
    ensures PackageRun(fs, cwd, directory, m, outputDir, pyzPath, false, tmp, run, archive)
      == (Err(RuntimeError(directory, ArchiveExists)), fs)
  {
    var outLoc := Resolve(cwd, outputDir);
    var pyzLoc := Resolve(cwd, pyzPath);
    PyzLocation(cwd, outputDir, m);
    AncestorsAreDirs(fs, pyzLoc, |outLoc|);
    assert pyzLoc[..|outLoc|] == outLoc;
    MakeDirsExisting(fs, outLoc);
  }

  /** Whatever the outcome, nothing is left at or below the scratch directory. */
  lemma PackageLeavesNoScratch(fs: FileSystem, cwd: Path, directory: Path, m: string, outputDir: string, pyzPath: string,
                               force: bool, tmp: Path, run: Interpreter, archive: Archiver)
    requires Premises(fs, cwd, directory, m, outputDir, pyzPath, tmp)
    ensures forall q :: q in PackageRun(fs, cwd, directory, m, outputDir, pyzPath, force, tmp, run, archive).1 ==> !Under(q, tmp)
  {
    var outLoc := Resolve(cwd, outputDir);
    FreshHasNothingBelow(fs, tmp);
    if MakeDirs(fs, outLoc).Ok? {
      var made := MakeDirs(fs, outLoc).value;
      OutputApart(cwd, outputDir, m, tmp);
      StillFresh(fs, outLoc, tmp);
      if PackageRun(fs, cwd, directory, m, outputDir, pyzPath, force, tmp, run, archive).0.Ok? {
        PackageSuccess(fs, cwd, directory, m, outputDir, pyzPath, force, tmp, run, archive);
      } else {
        PackageFailureKeepsDisk(fs, cwd, directory, m, outputDir, pyzPath, force, tmp, run, archive);
      }
    } else {
      PackageOutputDirFails(fs, cwd, directory, m, outputDir, pyzPath, force, tmp, run, archive);
    }
  }

  /**
   * The tree handed to `zipapp`: every item file other than the module is
   * copied unchanged, and the module holds the launcher marker, its text
   * being the item's module text, possibly followed by the launcher.
   */
  lemma ArchivedTree(made: FileSystem, directory: Path, tmp: Path, m: string)
    requires Apart(made, directory, tmp) && IsDir(made, directory)
    requires WithEntrypoint(Staged(made, directory, tmp), tmp + [m + ".py"], m).Ok?
    ensures var launched := WithEntrypoint(Staged(made, directory, tmp), tmp + [m + ".py"], m).value;
      var launcher := tmp + [m + ".py"];
      (forall p :: p in made && Under(p, directory) && p != directory + [m + ".py"] ==>
         tmp + p[|directory|..] in launched && launched[tmp + p[|directory|..]] == made[p])
      && IsFile(launched, launcher) && Utf8.Decode(launched[launcher].data).Some?
      && Contains(Utf8.Decode(launched[launcher].data).value, Marker)
      && var before := Utf8.Decode(made[directory + [m + ".py"]].data).value;
         (Utf8.Decode(launched[launcher].data).value == before
          || Utf8.Decode(launched[launcher].data).value == before + EntrypointCode(m))
  {
    var staged := Staged(made, directory, tmp);
    var launcher := tmp + [m + ".py"];
    WithEntrypointAddsMarker(staged, launcher, m);
    assert launcher in staged;
    assert directory + [m + ".py"] in made by {
      var q := launcher;
      CopyTreeAt(made, directory, tmp, q);
      assert q[|tmp|..] == [m + ".py"];
    }
    StagedModule(made, directory, tmp, m + ".py");
    forall p | p in made && Under(p, directory) && p != directory + [m + ".py"]
      ensures tmp + p[|directory|..] in WithEntrypoint(staged, launcher, m).value
      ensures WithEntrypoint(staged, launcher, m).value[tmp + p[|directory|..]] == made[p]
    {
      var q := tmp + p[|directory|..];
      CopyTreeAt(made, directory, tmp, q);
      assert q[|tmp|..] == p[|directory|..];
      assert directory + p[|directory|..] == p;
      if q == launcher {
        assert p[|directory|..] == [m + ".py"];
      }
    }
  }

  /** The attempt, step by step: each early exit, and the build once validation passed. */
  lemma AttemptSteps(fs: FileSystem, cwd: Path, directory: Path, m: string, outputDir: string, pyzPath: string,
                     force: bool, tmp: Path, run: Interpreter, archive: Archiver)
    ensures var a := Attempt(fs, cwd, directory, m, outputDir, pyzPath, force, tmp, run, archive);
      var md := MakeDirs(fs, Resolve(cwd, outputDir));
      && (md.Err? ==> a == Attempted(fs, false, Err(OutputDirFailed(md.error))))
      && (md.Ok? && Resolve(cwd, pyzPath) in md.value && !force ==> a == Attempted(md.value, false, Err(ArchiveExists)))
      && (md.Ok? && !(Resolve(cwd, pyzPath) in md.value && !force) ==>
            var v := ValidateStructure(md.value, directory, m, run);
            && (v.Fail? ==> a == Attempted(md.value, false, Err(v.error)))
            && (v.Pass? ==> a == Build(md.value, directory, m, tmp, Resolve(cwd, pyzPath), pyzPath, archive)))
  {
  }

  /** A run that reaches staging does so on the disk `os.makedirs` left, with the scratch directory apart. */
  lemma AttemptStaged(fs: FileSystem, cwd: Path, directory: Path, m: string, outputDir: string, pyzPath: string,
                      force: bool, tmp: Path, run: Interpreter, archive: Archiver)
    requires Premises(fs, cwd, directory, m, outputDir, pyzPath, tmp)
    requires MakeDirs(fs, Resolve(cwd, outputDir)).Ok?
    requires Attempt(fs, cwd, directory, m, outputDir, pyzPath, force, tmp, run, archive).staged
    ensures var made := MakeDirs(fs, Resolve(cwd, outputDir)).value;
      Attempt(fs, cwd, directory, m, outputDir, pyzPath, force, tmp, run, archive)
        == Build(made, directory, m, tmp, Resolve(cwd, pyzPath), pyzPath, archive)
      && Apart(made, directory, tmp) && IsDir(made, directory)
  {
    var outLoc := Resolve(cwd, outputDir);
    var made := MakeDirs(fs, outLoc).value;
    OutputApart(cwd, outputDir, m, tmp);
    MakeDirsWellFormed(fs, outLoc);
    StillFresh(fs, outLoc, tmp);
    ValidatedIsDir(made, directory, m, run);
  }

  /** Once staged, the scratch directory stays on disk until the clean-up. */
  lemma ScratchKept(fs: FileSystem, cwd: Path, directory: Path, m: string, outputDir: string, pyzPath: string,
                    force: bool, tmp: Path, run: Interpreter, archive: Archiver)
    requires Premises(fs, cwd, directory, m, outputDir, pyzPath, tmp)
    ensures var a := Attempt(fs, cwd, directory, m, outputDir, pyzPath, force, tmp, run, archive);
      a.staged ==> tmp in a.files
  {
    var outLoc := Resolve(cwd, outputDir);
    var a := Attempt(fs, cwd, directory, m, outputDir, pyzPath, force, tmp, run, archive);
    if MakeDirs(fs, outLoc).Ok? && a.staged {
      AttemptStaged(fs, cwd, directory, m, outputDir, pyzPath, force, tmp, run, archive);
      BuildThenClean(MakeDirs(fs, outLoc).value, directory, m, tmp, Resolve(cwd, pyzPath), pyzPath, archive);
    }
  }

  /** The packager's item directory and scratch directory for one run. */
  class Packager {
    const disk: Disk
    const directory: Path
    const moduleName: string
    const outputDir: string
    const pyzPath: string
    var tempDir: Option<Path>

    predicate Valid()
      reads this, disk
    {
      disk.Valid() && IsCanonical(directory) && '/' !in moduleName
      && pyzPath == JoinPath(outputDir, ArchiveName(moduleName))
      && (tempDir.Some? ==> tempDir.value != [])
    }

    /** `Packager(directory, output_dir)` */
    constructor (disk: Disk, directoryArg: string, outputDirArg: Option<string>)
      requires disk.Valid()
      ensures Valid() && this.disk == disk && tempDir == None
      ensures directory == Resolve(disk.cwd, StripEndOf(directoryArg, Separators))
      ensures moduleName == ModuleNameOf(directoryArg)
      ensures outputDir == OutputDirOf(disk.cwd, outputDirArg)
      ensures pyzPath == JoinPath(outputDir, ArchiveName(moduleName))
      ensures Resolve(disk.cwd, pyzPath) == Resolve(disk.cwd, outputDir) + [ArchiveName(moduleName)]
    {
      this.disk := disk;
      directory := Resolve(disk.cwd, StripEndOf(directoryArg, Separators));
      moduleName := ModuleNameOf(directoryArg);
      outputDir := OutputDirOf(disk.cwd, outputDirArg);
      pyzPath := JoinPath(OutputDirOf(disk.cwd, outputDirArg), ArchiveName(ModuleNameOf(directoryArg)));
      tempDir := None;
      new;
      PyzLocation(disk.cwd, outputDir, moduleName);
    }

    /**
     * `_prepare_staging_area`: `mkdtemp` yields `tmp`, and every entry of
     * the item directory is copied into it, files by `copy2` and
     * directories by `copytree`. The structure check has already
     * established that the item directory exists.
     */
    method PrepareStagingArea(tmp: Path)
      requires Valid() && IsDir(disk.files, directory)
      requires FreshScratch(disk.files, tmp) && !Under(tmp, directory)
      modifies this, disk
      ensures Valid() && tempDir == Some(tmp)
      ensures disk.files == Staged(old(disk.files), directory, tmp)
    {
      var before := disk.files;
      FreshHasNothingBelow(before, tmp);
      var files := before[tmp := Dir];
      StagingStart(before, directory, tmp);
      var names := Children(before, directory);
      var pending := names;
      ghost var done: set<string> := {};
      while pending != {}
        invariant pending <= names && done == names - pending
        invariant Apart(before, directory, tmp)
        invariant StagedSoFar(files, before, directory, tmp, done)
        decreases pending
      {
        NonEmpty(pending);
        var item :| item in pending;
        StagingStep(files, before, directory, tmp, done, item);
        files := files + CopyTree(files, directory + [item], tmp + [item]);
        pending := pending - {item};
        done := done + {item};
      }
      StagingDone(files, before, directory, tmp, done);
      StagedWellFormed(before, directory, tmp);
      assert WellFormed(files);
      disk.files := files;
      tempDir := Some(tmp);
    }

    /** `_add_entrypoint`: append the launcher to the staged module unless the marker is there. */
    method AddEntrypoint() returns (outcome: Outcome<PackageError>)
      requires Valid() && tempDir.Some?
      modifies disk
      ensures Valid()
      ensures var expected := WithEntrypoint(old(disk.files), tempDir.value + [moduleName + ".py"], moduleName);
        (outcome.Pass? <==> expected.Ok?)
        && (expected.Ok? ==> disk.files == expected.value)
        && (expected.Err? ==> outcome == Fail(expected.error) && disk.files == old(disk.files))
    {
      assert this as object != disk as object;
      var path := tempDir.value + [moduleName + ".py"];
      var read := ReadFile(disk.files, path);
      if read.Err? {
        return Fail(ModuleUnreadable);
      }
      var content := Utf8.Decode(read.value);
      if content.None? {
        return Fail(ModuleUnreadable);
      }
      if !Contains(content.value, Marker) {
        var written := WriteFile(disk.files, path, read.value + Utf8.Encode(EntrypointCode(moduleName)));
        disk.files := written.value;
      }
      outcome := Pass;
    }

    /** `zipapp.create_archive` into the archive path, on the disk. */
    method WriteArchive(tmp: Path, archive: Archiver) returns (outcome: Outcome<PackageError>)
      requires Valid()
      modifies disk
      ensures Valid()
      ensures var expected := CreateArchive(old(disk.files), tmp, EntryPoint(moduleName), Resolve(disk.cwd, pyzPath), archive);
        (outcome.Pass? <==> expected.Ok?)
        && (expected.Ok? ==> disk.files == expected.value)
        && (expected.Err? ==> outcome == Fail(expected.error) && disk.files == old(disk.files))
    {
      var written := CreateArchive(disk.files, tmp, EntryPoint(moduleName), Resolve(disk.cwd, pyzPath), archive);
      if written.Err? {
        return Fail(written.error);
      }
      disk.files := written.value;
      outcome := Pass;
    }

    /** The `try` block of `package`. */
    method TryPackage(force: bool, tmp: Path, run: Interpreter, archive: Archiver) returns (outcome: Result<string, PackageError>)
      requires Valid() && tempDir.None?
      requires Premises(disk.files, disk.cwd, directory, moduleName, outputDir, pyzPath, tmp)
      modifies this, disk
      ensures Valid()
      ensures var a := Attempt(old(disk.files), disk.cwd, directory, moduleName, outputDir, pyzPath, force, tmp, run, archive);
        disk.files == a.files && outcome == a.outcome && tempDir == (if a.staged then Some(tmp) else None)
    {
      var outLoc := Resolve(disk.cwd, outputDir);
      ghost var before := disk.files;
      assert this as object != disk as object;
      AttemptSteps(before, disk.cwd, directory, moduleName, outputDir, pyzPath, force, tmp, run, archive);
      var made := MakeDirs(disk.files, outLoc);
      if made.Err? {
        return Err(OutputDirFailed(made.error));
      }
      OutputApart(disk.cwd, outputDir, moduleName, tmp);
      MakeDirsWellFormed(disk.files, outLoc);
      StillFresh(disk.files, outLoc, tmp);
      disk.files := made.value;
      if Resolve(disk.cwd, pyzPath) in disk.files && !force {
        return Err(ArchiveExists);
      }
      var checked := ValidateStructure(disk.files, directory, moduleName, run);
      if checked.Fail? {
        return Err(checked.error);
      }
      ValidatedIsDir(disk.files, directory, moduleName, run);
      ghost var made0 := disk.files;
      assert Attempt(before, disk.cwd, directory, moduleName, outputDir, pyzPath, force, tmp, run, archive)
        == Build(made0, directory, moduleName, tmp, Resolve(disk.cwd, pyzPath), pyzPath, archive);
      outcome := StageAndArchive(tmp, archive);
    }

    /** The rest of the `try` block once validation passed: stage, add the launcher, write the archive. */
    method StageAndArchive(tmp: Path, archive: Archiver) returns (outcome: Result<string, PackageError>)
      requires Valid() && IsDir(disk.files, directory)
      requires FreshScratch(disk.files, tmp) && !Under(tmp, directory) && !Under(Resolve(disk.cwd, pyzPath), tmp)
      modifies this, disk
      ensures Valid() && tempDir == Some(tmp)
      ensures var b := Build(old(disk.files), directory, moduleName, tmp, Resolve(disk.cwd, pyzPath), pyzPath, archive);
        disk.files == b.files && outcome == b.outcome
    {
      assert this as object != disk as object;
      PrepareStagingArea(tmp);
      var added := AddEntrypoint();
      if added.Fail? {
        return Err(added.error);
      }
      var written := WriteArchive(tmp, archive);
      if written.Fail? {
        return Err(written.error);
      }
      outcome := Ok(pyzPath);
    }

    /**
     * `package(force)`: the attempt, with every error re-raised as
     * `RuntimeError`, and the scratch directory removed in `finally`.
     */
    method Package(force: bool, tmp: Path, run: Interpreter, archive: Archiver) returns (result: Result<string, PackageFailure>)
      requires Valid() && tempDir.None?
      requires Premises(disk.files, disk.cwd, directory, moduleName, outputDir, pyzPath, tmp)
      modifies this, disk
      ensures Valid() && tempDir.None?
      ensures (result, disk.files)
        == PackageRun(old(disk.files), disk.cwd, directory, moduleName, outputDir, pyzPath, force, tmp, run, archive)
    {
      ghost var before := disk.files;
      var outcome := TryPackage(force, tmp, run, archive);
      if outcome.Ok? {
        result := Ok(outcome.value);
      } else {
        result := Err(RuntimeError(directory, outcome.error));
      }
      ScratchKept(before, disk.cwd, directory, moduleName, outputDir, pyzPath, force, tmp, run, archive);
      Cleanup();
    }

    /** `_cleanup`: remove the scratch directory if it is set and still exists. */
    method Cleanup()
      requires Valid()
      modifies this, disk
      ensures Valid() && tempDir == if old(tempDir).Some? && old(tempDir).value in old(disk.files) then None else old(tempDir)
      ensures disk.files ==
        if old(tempDir).Some? && old(tempDir).value in old(disk.files)
        then RemoveTree(old(disk.files), old(tempDir).value) else old(disk.files)
    {
      if tempDir.Some? && tempDir.value in disk.files {
        disk.files := RemoveTree(disk.files, tempDir.value);
        tempDir := None;
      }
    }
  }
}
