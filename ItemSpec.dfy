/**
 * `ItemSpec`, the base class of every inventory item: the class-level
 * defaults, the module name derived from the item's file name, the command
 * line flags stored as attributes, and the optional metadata file.
 *
 * An instance's `__dict__` is the map `attrs`; attribute lookup falls back
 * to the class defaults. Which `(flag, value)` pairs the command line yields
 * is an input: the regular expression that extracts them is not modelled,
 * only what is done with each pair.
 */
module ItemSpec {
  import opened Wrappers
  import opened Text
  import opened Files
  import opened Runtime

  /** The class attributes every item inherits unless it sets its own. */
  const ClassDefaults: map<string, PyValue> :=
    map["volume" := Int(1), "version" := Str("1.0.0"), "actions" := Dict(map[]), "consumable" := Bool(true)]

  /** `filename.split(".")[0].split("/")[-1]` */
  function Modname(filename: string): (r: string)
    ensures '.' !in r && '/' !in r
  {
    LastField(FirstField(filename, '.'), '/')
  }

  /**
   * For a file `<dir>/<name>.<ext>` whose directory part has no `.`, the
   * module name is `name`.
   */
  lemma ModnameOfPath(dir: string, name: string, ext: string)
    requires '.' !in dir && '.' !in name && '/' !in name
    ensures Modname(dir + "/" + name + "." + ext) == name
  {
    var f := dir + "/" + name + "." + ext;
    assert f == (dir + "/" + name) + "." + ext;
    assert '.' !in dir + "/" + name;
    FirstFieldAt(dir + "/" + name, '.', ext);
    LastFieldAt(dir, '/', name);
  }

  /** A bare name with no `.` and no `/` is its own module name. */
  lemma ModnameOfName(name: string)
    requires '.' !in name && '/' !in name
    ensures Modname(name) == name
  {
    FirstFieldWhole(name, '.');
    LastFieldWhole(name, '/');
  }

  /** A bare file name `<name>.<ext>` has module name `name`. */
  lemma ModnameOfFile(name: string, ext: string)
    requires '.' !in name && '/' !in name
    ensures Modname(name + "." + ext) == name
  {
    FirstFieldAt(name, '.', ext);
    LastFieldWhole(name, '/');
  }

  /**
   * The first `.` is looked for before the last `/`: a `.` anywhere in the
   * directory part cuts the name there, so `./items/foo.py` gives `""`.
   */
  lemma ModnameOfDottedDirectory()
    ensures Modname("./items/foo.py") == ""
  {
    FirstFieldAt("", '.', "/items/foo.py");
  }

  /** `arg.replace("-", "")`: the attribute name a flag is stored under. */
  function FlagName(arg: string): (k: string)
    ensures '-' !in k
  {
    RemoveChar(arg, '-')
  }

  /** The attributes after `setattr(self, name, val)` for each flag in turn. */
  function ApplyFlags(attrs: map<string, PyValue>, flags: seq<(string, string)>): (r: map<string, PyValue>)
    ensures attrs.Keys <= r.Keys
  {
    if flags == [] then attrs
    else
      var (arg, val) := flags[|flags| - 1];
      ApplyFlags(attrs, flags[..|flags| - 1])[FlagName(arg) := Str(val)]
  }

  /** The value of the last flag stored under `k`, if any flag is. */
  function LastFlag(flags: seq<(string, string)>, k: string): (r: Option<string>)
    ensures r.Some? <==> exists i :: 0 <= i < |flags| && FlagName(flags[i].0) == k
  {
    if flags == [] then None
    else if FlagName(flags[|flags| - 1].0) == k then Some(flags[|flags| - 1].1)
    else
      var r := LastFlag(flags[..|flags| - 1], k);
      assert forall i :: 0 <= i < |flags| - 1 ==> flags[..|flags| - 1][i] == flags[i];
      r
  }

  /**
   * After the flags, an attribute is present iff it was before or some flag
   * names it; the last flag that names it wins, and an attribute no flag
   * names keeps its value.
   */
  lemma {:induction false} ApplyFlagsAt(attrs: map<string, PyValue>, flags: seq<(string, string)>, k: string)
    ensures k in ApplyFlags(attrs, flags) <==> k in attrs || LastFlag(flags, k).Some?
    ensures LastFlag(flags, k).Some? ==> ApplyFlags(attrs, flags)[k] == Str(LastFlag(flags, k).value)
    ensures LastFlag(flags, k).None? && k in attrs ==> ApplyFlags(attrs, flags)[k] == attrs[k]
    decreases |flags|
  {
    if flags != [] {
      ApplyFlagsAt(attrs, flags[..|flags| - 1], k);
    }
  }

  /** The outcome of `load_metadata` on a file that exists. */
  datatype MetaLoad =
    | Loaded(metadata: map<string, PyValue>)  // `self.meta` is set
    | NotADict                                 // silently ignored
    | LoadFailed                               // the exception is printed

  /** `load_metadata(meta_file)`: run the file as module `meta` and keep a dict `metadata`. */
  function LoadMeta(fs: FileSystem, cwd: Path, metaFile: string, run: Interpreter): (r: MetaLoad)
    ensures r.Loaded? <==>
      ExecFile(fs, Resolve(cwd, metaFile), metaFile, run).Namespace? &&
      DefinesDict(ExecFile(fs, Resolve(cwd, metaFile), metaFile, run).attrs, "metadata")
    ensures r.Loaded? ==> Dict(r.metadata) == ExecFile(fs, Resolve(cwd, metaFile), metaFile, run).attrs["metadata"]
    ensures !HasLoaderSuffix(metaFile) ==> r == LoadFailed
  {
    match ExecFile(fs, Resolve(cwd, metaFile), metaFile, run)
    case Raised => LoadFailed
    case Namespace(defined) =>
      if DefinesDict(defined, "metadata") then Loaded(defined["metadata"].entries) else NotADict
  }

  /** `meta_file and os.path.exists(meta_file)` */
  predicate MetaGiven(fs: FileSystem, cwd: Path, metaFile: Option<string>) {
    metaFile.Some? && metaFile.value != "" && Resolve(cwd, metaFile.value) in fs
  }

  /** The attributes once a metadata load has had its effect. */
  function WithMeta(attrs: map<string, PyValue>, load: MetaLoad): (r: map<string, PyValue>)
    ensures load.Loaded? ==> r == attrs["meta" := Dict(load.metadata)]
    ensures !load.Loaded? ==> r == attrs
  {
    if load.Loaded? then attrs["meta" := Dict(load.metadata)] else attrs
  }

  /**
   * `__init__`'s metadata step: `None` when no existing file was given,
   * otherwise what loading it did.
   */
  function GivenMeta(fs: FileSystem, cwd: Path, metaFile: Option<string>, run: Interpreter): (r: Option<MetaLoad>)
    ensures r.Some? <==> MetaGiven(fs, cwd, metaFile)
    ensures r.Some? ==> r.value == LoadMeta(fs, cwd, metaFile.value, run)
  {
    if MetaGiven(fs, cwd, metaFile) then Some(LoadMeta(fs, cwd, metaFile.value, run)) else None
  }

  /** The attributes `__init__` sets before the flags. */
  function Named(filename: string): map<string, PyValue> {
    map["filename" := Str(filename), "modname" := Str(Modname(filename))]
  }

  /** The attributes `__init__` has set before it looks at the metadata file. */
  function Flagged(filename: string, flags: seq<(string, string)>, absolutePath: string): map<string, PyValue> {
    ApplyFlags(Named(filename), flags)["absolute_path" := Str(absolutePath)]
  }

  /** Every attribute `__init__` sets, in the order it sets them. */
  function InitialAttrs(filename: string, flags: seq<(string, string)>, absolutePath: string, given: Option<MetaLoad>)
    : map<string, PyValue>
  {
    if given.Some? then WithMeta(Flagged(filename, flags, absolutePath), given.value)
    else Flagged(filename, flags, absolutePath)
  }

  /** Attributes other than `absolute_path` and `meta` are as the flags left them. */
  lemma InitialAt(filename: string, flags: seq<(string, string)>, absolutePath: string, given: Option<MetaLoad>, k: string)
    requires k != "absolute_path" && k != "meta"
    ensures var attrs := InitialAttrs(filename, flags, absolutePath, given);
      && (k in attrs <==> k in ApplyFlags(Named(filename), flags))
      && (k in attrs ==> attrs[k] == ApplyFlags(Named(filename), flags)[k])
  {
    var m := Flagged(filename, flags, absolutePath);
    if given.Some? && given.value.Loaded? {
      assert InitialAttrs(filename, flags, absolutePath, given) == m["meta" := Dict(given.value.metadata)];
    }
  }

  /** `getattr(item, name)`: the instance's own attribute, else the class default. */
  function Lookup(attrs: map<string, PyValue>, name: string): (r: Option<PyValue>)
    ensures name in attrs ==> r == Some(attrs[name])
    ensures name !in attrs ==> (r.Some? <==> name in ClassDefaults)
  {
    if name in attrs then Some(attrs[name])
    else if name in ClassDefaults then Some(ClassDefaults[name])
    else None
  }

  lemma DefaultNames(name: string)
    requires name in ClassDefaults
    ensures name != "absolute_path" && name != "meta" && name != "filename" && name != "modname"
  {
  }

  /**
   * A new item's module name comes from its file name unless a flag named
   * `modname` overrides it; it is always a string.
   */
  lemma InitialModname(filename: string, flags: seq<(string, string)>, absolutePath: string,
                       given: Option<MetaLoad>)
    ensures var attrs := InitialAttrs(filename, flags, absolutePath, given);
      && "modname" in attrs
      && attrs["modname"] == Str(if LastFlag(flags, "modname").Some? then LastFlag(flags, "modname").value else Modname(filename))
  {
    ApplyFlagsAt(Named(filename), flags, "modname");
    InitialAt(filename, flags, absolutePath, given, "modname");
  }

  /**
   * A new item keeps the class defaults for volume, version, actions and
   * consumable, unless a flag of the same name sets a string there.
   */
  lemma InitialDefaults(filename: string, flags: seq<(string, string)>, absolutePath: string,
                        given: Option<MetaLoad>, name: string)
    requires name in ClassDefaults
    ensures var attrs := InitialAttrs(filename, flags, absolutePath, given);
      Lookup(attrs, name) ==
        if LastFlag(flags, name).Some? then Some(Str(LastFlag(flags, name).value)) else Some(ClassDefaults[name])
  {
    DefaultNames(name);
    assert name !in Named(filename);
    ApplyFlagsAt(Named(filename), flags, name);
    InitialAt(filename, flags, absolutePath, given, name);
    var attrs := InitialAttrs(filename, flags, absolutePath, given);
    if LastFlag(flags, name).None? {
      assert name !in attrs;
    } else {
      assert attrs[name] == Str(LastFlag(flags, name).value);
    }
  }

  /**
   * `meta` holds a dict exactly when a metadata file was given and loading
   * it found a dict `metadata` (`GivenMeta`); then it is that dict. A flag named `meta` can
   * only ever leave a string there.
   */
  lemma InitialMeta(filename: string, flags: seq<(string, string)>, absolutePath: string,
                    given: Option<MetaLoad>)
    ensures var attrs := InitialAttrs(filename, flags, absolutePath, given);
      ("meta" in attrs && attrs["meta"].Dict?) <==> given.Some? && given.value.Loaded?
    ensures var attrs := InitialAttrs(filename, flags, absolutePath, given);
      given.Some? && given.value.Loaded? ==> attrs["meta"] == Dict(given.value.metadata)
  {
    var m := Flagged(filename, flags, absolutePath);
    ApplyFlagsAt(Named(filename), flags, "meta");
    if given.Some? && given.value.Loaded? {
      assert InitialAttrs(filename, flags, absolutePath, given) == m["meta" := Dict(given.value.metadata)];
    } else {
      assert InitialAttrs(filename, flags, absolutePath, given) == m;
      assert "meta" in m ==> m["meta"].Str?;
    }
  }

  /** The `__str__` text around the module name. */
  const DescriptionStart := "This particular "
  const DescriptionEnd := " isn't that special."

  lemma ContainsMiddle(x: string, sub: string, y: string)
    ensures Contains(x + sub + y, sub)
  {
    assert StartsWith(sub + y, sub);
    ContainsInSuffix(x, sub + y, sub);
    assert x + sub + y == x + (sub + y);
  }

  class ItemSpec {
    /** The instance `__dict__`: `filename`, `modname`, the flags, `absolute_path` and perhaps `meta`. */
    var attrs: map<string, PyValue>

    predicate Valid()
      reads this
    {
      "modname" in attrs && attrs["modname"].Str?
    }

    /**
     * `ItemSpec(filename, meta_file)`. The absolute path `get_absolute_path`
     * works out from `sys.path`, `sys.modules` and `sys.argv` is an input.
     */
    constructor(filename: string, flags: seq<(string, string)>, absolutePath: string,
                fs: FileSystem, cwd: Path, metaFile: Option<string>, run: Interpreter)
      ensures Valid()
      ensures attrs == InitialAttrs(filename, flags, absolutePath, GivenMeta(fs, cwd, metaFile, run))
    {
      attrs := map["filename" := Str(filename)];
      new;
      var stem := FirstField(filename, '.');
      attrs := attrs["modname" := Str(stem)];
      attrs := attrs["modname" := Str(LastField(stem, '/'))];
      assert attrs == Named(filename);
      SetCliFlags(flags);
      attrs := attrs["absolute_path" := Str(absolutePath)];
      assert attrs == Flagged(filename, flags, absolutePath);
      if metaFile.Some? && metaFile.value != "" && Resolve(cwd, metaFile.value) in fs {
        var _ := LoadMetadata(fs, cwd, metaFile.value, run);
      }
      var given := GivenMeta(fs, cwd, metaFile, run);
      assert attrs == InitialAttrs(filename, flags, absolutePath, given);
      InitialModname(filename, flags, absolutePath, given);
    }

    /** `__set_cli_flags`: each flag becomes an attribute named after it without its dashes. */
    method SetCliFlags(flags: seq<(string, string)>)
      modifies this
      ensures attrs == ApplyFlags(old(attrs), flags)
    {
      var i := 0;
      while i < |flags|
        invariant i <= |flags|
        invariant attrs == ApplyFlags(old(attrs), flags[..i])
      {
        var (arg, val) := flags[i];
        attrs := attrs[FlagName(arg) := Str(val)];
        assert flags[..i + 1][..i] == flags[..i];
        i := i + 1;
      }
      assert flags[..i] == flags;
    }

    /** `load_metadata(meta_file)`; the outcome says whether an error was printed. */
    method LoadMetadata(fs: FileSystem, cwd: Path, metaFile: string, run: Interpreter) returns (load: MetaLoad)
      modifies this
      ensures load == LoadMeta(fs, cwd, metaFile, run)
      ensures attrs == WithMeta(old(attrs), load)
    {
      var outcome := ExecFile(fs, Resolve(cwd, metaFile), metaFile, run);
      if outcome.Raised? {
        return LoadFailed;
      }
      if DefinesDict(outcome.attrs, "metadata") {
        attrs := attrs["meta" := outcome.attrs["metadata"]];
        return Loaded(outcome.attrs["metadata"].entries);
      }
      return NotADict;
    }

    /** `str(item)` */
    function Describe(): (r: string)
      requires Valid()
      reads this
      ensures Contains(r, attrs["modname"].s)
    {
      ContainsMiddle(DescriptionStart, attrs["modname"].s, DescriptionEnd);
      DescriptionStart + attrs["modname"].s + DescriptionEnd
    }
  }
}
