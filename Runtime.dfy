/**
 * The Python runtime as the inventory code observes it, kept abstract:
 * values it inspects with `isinstance` and `hasattr`, the namespace that
 * executing a module leaves behind, and the outcome of `importlib`. What a
 * module's code does when it runs is not modelled; it enters as a function
 * the caller supplies.
 */
module Runtime {
  import opened Bytes
  import opened Wrappers
  import opened Text
  import opened Files

  /** The values the code stores, compares or sends. */
  datatype PyValue =
    | Str(s: string)
    | Int(i: int)
    | Bool(b: bool)
    | Float(r: real)
    | ByteString(bytes: seq<byte>)
    | List(items: seq<PyValue>)
    | Dict(entries: map<string, PyValue>)
    | Class(info: ClassInfo)
    | NoneValue
    | Other

  /**
   * What the code asks of a class: whether calling it raises, whether an
   * instance has a `use` attribute, whether `ItemSpec` is in its MRO, and
   * `dir()` of an instance with the value of each attribute.
   */
  datatype ClassInfo = ClassInfo(
    initRaises: bool,
    hasUse: bool,
    itemSpecInMro: bool,
    instanceDir: seq<(string, PyValue)>)

  /** An imported module: its attributes, and the text `inspect.getsource` finds, if any. */
  datatype PyModule = PyModule(attrs: map<string, PyValue>, source: Option<string>)

  /** What running a module file leaves: an exception, or its namespace. */
  datatype ExecOutcome = Raised | Namespace(attrs: map<string, PyValue>)

  /** `importlib.import_module`: the module, or an exception that is or is not an `ImportError`. */
  datatype ImportOutcome = Imported(loaded: PyModule) | ImportFailed(isImportError: bool)

  /** Running a module file with the given content. */
  type Interpreter = (Path, seq<byte>) -> ExecOutcome

  /** Looking a top-level module name up along `sys.path`. */
  type Finder = (seq<Path>, FileSystem, string) -> ImportOutcome

  /**
   * `importlib.import_module(name)`: an empty name raises `ValueError` and a
   * relative name `TypeError` (neither is an `ImportError`); a name holding `/`
   * never matches a file name on `sys.path`, so it raises
   * `ModuleNotFoundError`; any other name is up to the finder.
   */
  function ImportModule(find: Finder, sysPath: seq<Path>, fs: FileSystem, name: string): (r: ImportOutcome)
    ensures name == "" ==> r == ImportFailed(false)
    ensures name != "" && name[0] != '.' && '/' in name ==> r == ImportFailed(true)
  {
    if name == "" then ImportFailed(false)
    else if name[0] == '.' then ImportFailed(false)
    else if '/' in name then ImportFailed(true)
    else find(sysPath, fs, name)
  }

  /**
   * `importlib.util.spec_from_file_location` finds a loader only for the
   * suffixes of source files, bytecode and extension modules.
   */
  predicate HasLoaderSuffix(name: string) {
    EndsWith(name, ".py") || EndsWith(name, ".pyc") || EndsWith(name, ".so")
  }

  /**
   * `spec_from_file_location(...)`, `module_from_spec` and `exec_module` on
   * the file at `p`: there is no module without a loader suffix, and reading
   * anything but a file raises.
   */
  function ExecFile(fs: FileSystem, p: Path, location: string, run: Interpreter): (r: ExecOutcome)
    ensures !HasLoaderSuffix(location) || !IsFile(fs, p) ==> r == Raised
  {
    if !HasLoaderSuffix(location) || !IsFile(fs, p) then Raised
    else run(p, fs[p].data)
  }

  /** `hasattr(m, name) and isinstance(m.name, dict)` on a namespace. */
  predicate DefinesDict(attrs: map<string, PyValue>, name: string) {
    name in attrs && attrs[name].Dict?
  }
}
