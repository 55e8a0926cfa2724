/**
 * `Acquisition`, the `get` command: each argument is handled in order, a
 * `.pyz` archive by validating its extracted tree and submitting the file, any
 * other file through `Instance` and its transmit record.
 *
 * The network request is the submission it would send; the zip reader and
 * writer are opaque functions; the dynamic checks are those of `Runtime`.
 */
module Acquire {
  import opened Wrappers
  import opened Bytes
  import opened Text
  import opened Files
  import opened Runtime
  import opened Lists
  import opened Instance
  import Hex

  /** `zipfile.ZipFile(data).extractall(d)`: the extracted tree, relative to `d`, or `None` when the archive cannot be read. */
  type Extractor = seq<byte> -> Option<FileSystem>

  /** `zipfile.ZipFile(buffer, "w", ZIP_DEFLATED).writestr(name, data)`: the archive's bytes. */
  type Zipper = (string, seq<byte>) -> seq<byte>

  /** What the process is given from outside: the import machinery, the zip codec, the environment and the scratch directory. */
  datatype Environment = Environment(
    find: Finder,
    extract: Extractor,
    zip: Zipper,
    /** The bytes `instance.binary` yields; `src/inventory/Instance.py`, which defines it, is not part of this model. */
    binaryOf: string -> seq<byte>,
    charname: Option<string>,
    githubUser: Option<string>,
    user: string,
    /** The directory `tempfile.mkdtemp()` returns. */
    tmp: Path)

  /** `os.path.basename(f).split('.')[0]` */
  function ItemName(file: string): (name: string)
    ensures '.' !in name && '/' !in name
  {
    var base := Basename(file);
    var k := FieldEnd(base, '.', 0);
    assert FirstField(base, '.') == base[..k];
    assert forall c :: c in base[..k] ==> c in base;
    FirstField(base, '.')
  }

  /** The item name of `dir/stem.ext` is `stem`. */
  lemma ItemNameOfPath(dir: string, stem: string, ext: string)
    requires '/' !in stem && '.' !in stem && '/' !in ext
    ensures ItemName(dir + "/" + stem + "." + ext) == stem
  {
    var name := stem + "." + ext;
    assert '/' !in name;
    assert dir + "/" + stem + "." + ext == dir + ['/'] + name;
    LastFieldAt(dir, '/', name);
    FirstFieldAt(stem, '.', ext);
  }

  /** `os.getenv("GITHUB_USER") or getpass.getuser()` */
  function Owner(githubUser: Option<string>, user: string): (owner: string)
    ensures githubUser.Some? && githubUser.value != "" ==> owner == githubUser.value
    ensures (githubUser.None? || githubUser.value == "") ==> owner == user
  {
    if githubUser.Some? && githubUser.value != "" then githubUser.value else user
  }

  // ---------------------------------------------------------------------
  // Validating an archive

  /** The extracted tree placed below `tmp`. */
  function Graft(tmp: Path, tree: FileSystem): (r: FileSystem)
    ensures forall q :: q in r ==> Under(q, tmp)
  {
    assert forall q1, q2 :: q1 in tree && q2 in tree && tmp + q1 == tmp + q2 ==> q1 == q2 by {
      forall q1, q2 | q1 in tree && q2 in tree && tmp + q1 == tmp + q2
        ensures q1 == q2
      {
        assert q1 == (tmp + q1)[|tmp|..];
        assert q2 == (tmp + q2)[|tmp|..];
      }
    }
    var r := map q | q in tree :: tmp + q := tree[q];
    assert forall q :: q in r ==> Under(q, tmp) by {
      forall q | q in r
        ensures Under(q, tmp)
      {
        var q' :| q' in tree && q == tmp + q';
        assert q[..|tmp|] == tmp;
      }
    }
    r
  }

  /** How the direct validation of an imported archive module ends. */
  datatype Direct =
    | Accepted          // `return True`
    | Rejected          // one of the checks printed an error and returned False
    | Errored           // an exception other than `ImportError`: the outer handler returns False
    | NotImportable     // `ImportError`: fall back to `Instance`

  /** The direct checks after `importlib.import_module(item_name)`. */
  function DirectCheck(imported: ImportOutcome, itemName: string): (d: Direct)
    ensures d == Accepted <==>
      imported.Imported? && itemName in imported.loaded.attrs
      && var c := imported.loaded.attrs[itemName]; c.Class? && c.info.itemSpecInMro && c.info.hasUse
    ensures d == NotImportable <==> imported == ImportFailed(true)
  {
    if imported.ImportFailed? then (if imported.isImportError then NotImportable else Errored)
    else if itemName !in imported.loaded.attrs then Rejected
    else
      var c := imported.loaded.attrs[itemName];
      if !c.Class? then Errored                 // `issubclass` on something that is not a class
      else if !c.info.itemSpecInMro then Rejected
      else if !c.info.hasUse then Rejected
      else Accepted
  }

  /** The tree after `mkdtemp` and `extractall`, or `None` when opening the archive raises. */
  function Extracted(files: FileSystem, p: Path, env: Environment): Option<FileSystem>
  {
    if !IsFile(files, p) then None
    else
      match env.extract(files[p].data)
      case None => None
      case Some(tree) => Some(files[env.tmp := Dir] + Graft(env.tmp, tree))
  }

  /** `os.path.join(temp_dir, f"{item_name}.py")` */
  function ModulePath(tmp: Path, itemName: string): string {
    JoinPath(Render(tmp), itemName + ".py")
  }

  /** `Instance(module_path).valid`, False when the constructor raises. */
  function FallbackValid(modulePath: string, sysPath: seq<Path>, files: FileSystem, env: Environment): bool {
    var name := NameOf(modulePath);
    var c := Validation(ImportModule(env.find, sysPath, files, name), name);
    Escaped(c).None? && c.valid
  }

  /** `__validate_pyz_file(pyz_file)` on the disk `files` with the import path `sysPath`. */
  function PyzValid(files: FileSystem, cwd: Path, sysPath: seq<Path>, file: string, env: Environment): bool {
    var p := Resolve(cwd, file);
    if p !in files then false
    else
      var itemName := ItemName(file);
      match Extracted(files, p, env)
      case None => false
      case Some(extracted) => ExtractedValid(extracted, cwd, [env.tmp] + sysPath, itemName, env)
  }

  /** The checks after extraction, with the scratch directory first on `sys.path`. */
  function ExtractedValid(extracted: FileSystem, cwd: Path, path: seq<Path>, itemName: string, env: Environment): bool {
    var modulePath := ModulePath(env.tmp, itemName);
    if Resolve(cwd, modulePath) !in extracted then false
    else
      match DirectCheck(ImportModule(env.find, path, extracted, itemName), itemName)
      case Accepted => true
      case NotImportable => FallbackValid(modulePath, path, extracted, env)
      case _ => false
  }

  /** A name that starts with `/` keeps it as its first character up to the first dot. */
  lemma NameOfAbsolute(s: string)
    requires s != "" && s[0] == '/'
    ensures var name := NameOf(s); name != "" && name[0] == '/'
  {
    var k := FieldEnd(s, '.', 0);
    assert NameOf(s) == s[..k];
  }

  /**
   * The `Instance` fallback never accepts: the module path is absolute, so the
   * name it imports holds a `/`, the import fails, and `Instance` raises.
   */
  lemma FallbackNeverValidates(tmp: Path, itemName: string, sysPath: seq<Path>, files: FileSystem, env: Environment)
    ensures var name := NameOf(ModulePath(tmp, itemName));
      Escaped(Validation(ImportModule(env.find, sysPath, files, name), name)) == Some(NoObject)
    ensures !FallbackValid(ModulePath(tmp, itemName), sysPath, files, env)
  {
    var a := Render(tmp);
    var b := itemName + ".py";
    var s := ModulePath(tmp, itemName);
    assert s[0] == '/' by {
      if b[0] == '/' { assert s == b; }
      else if a[|a| - 1] == '/' { assert s == a + b; }
      else { assert s == a + "/" + b; }
    }
    NameOfAbsolute(s);
    var name := NameOf(s);
    assert name[0] in name;
    assert ImportModule(env.find, sysPath, files, name) == ImportFailed(true);
    ImportFailureEscapes(ImportModule(env.find, sysPath, files, name), name);
  }

  /**
   * An archive validates exactly when it exists, can be extracted, holds
   * `<item_name>.py`, and the module imports with an `item_name` class that
   * has `ItemSpec` in its MRO and a `use` attribute.
   */
  lemma PyzValidIff(files: FileSystem, cwd: Path, sysPath: seq<Path>, file: string, env: Environment)
    ensures var p := Resolve(cwd, file);
      var itemName := ItemName(file);
      var extracted := Extracted(files, p, env);
      PyzValid(files, cwd, sysPath, file, env) <==>
        p in files && extracted.Some?
        && Resolve(cwd, ModulePath(env.tmp, itemName)) in extracted.value
        && DirectCheck(ImportModule(env.find, [env.tmp] + sysPath, extracted.value, itemName), itemName) == Accepted
  {
    var p := Resolve(cwd, file);
    var itemName := ItemName(file);
    if p in files && Extracted(files, p, env).Some? {
      FallbackNeverValidates(env.tmp, itemName, [env.tmp] + sysPath, Extracted(files, p, env).value, env);
    }
  }

  /** A missing archive, or one without `<item_name>.py`, never validates. */
  lemma PyzMissingFails(files: FileSystem, cwd: Path, sysPath: seq<Path>, file: string, env: Environment)
    ensures Resolve(cwd, file) !in files ==> !PyzValid(files, cwd, sysPath, file, env)
    ensures var p := Resolve(cwd, file);
      Extracted(files, p, env).Some? && Resolve(cwd, ModulePath(env.tmp, ItemName(file))) !in Extracted(files, p, env).value
      ==> !PyzValid(files, cwd, sysPath, file, env)
  {
  }

  // ---------------------------------------------------------------------
  // Submissions

  /** What goes in the request's `files` part. */
  datatype Payload =
    | Raw(bytes: seq<byte>)   // the archive file itself
    | HexText(text: string)   // `__compress_file`'s result

  /** One request to the inventory's `add` endpoint. */
  datatype Submission = Submission(data: map<string, PyValue>, binary: Payload)

  /** The record `__handle_pyz_file` sends for an archive. */
  function PyzRecord(itemName: string, owner: string): map<string, PyValue> {
    map[
      "item_name" := Str(itemName),
      "item_owner" := Str(owner),
      "item_weight" := Int(1),
      "item_qty" := Int(1),
      "item_consumable" := Bool(true),
      "item_version" := Str("1.0.0"),
      "item_type" := Str("pyz")]
  }

  /** `__handle_pyz_file(pyz_file)`: the submission, or none when reading the file raises (the error is printed). */
  function PyzSubmission(files: FileSystem, cwd: Path, file: string, env: Environment): (r: Option<Submission>)
    ensures r.Some? <==> IsFile(files, Resolve(cwd, file))
    ensures r.Some? ==> r.value.binary == Raw(files[Resolve(cwd, file)].data)
    ensures r.Some? ==> r.value.data == PyzRecord(ItemName(file), Owner(env.githubUser, env.user))
  {
    match ReadFile(files, Resolve(cwd, file))
    case Err(_) => None
    case Ok(data) => Some(Submission(PyzRecord(ItemName(file), Owner(env.githubUser, env.user)), Raw(data)))
  }

  /** An archive's record names the item after its file and fixes every other field. */
  lemma PyzRecordFields(dir: string, stem: string, ext: string, owner: string)
    requires '/' !in stem && '.' !in stem && '/' !in ext
    ensures var r := PyzRecord(ItemName(dir + "/" + stem + "." + ext), owner);
      && r["item_name"] == Str(stem)
      && r["item_weight"] == Int(1) && r["item_qty"] == Int(1) && r["item_consumable"] == Bool(true)
      && r["item_version"] == Str("1.0.0") && r["item_type"] == Str("pyz")
  {
    ItemNameOfPath(dir, stem, ext);
  }

  /** `__compress_file(instance)`: the zipped binary as lowercase hex text. */
  function Compress(name: string, binary: seq<byte>, zip: Zipper): (text: string)
    ensures |text| == 2 * |zip(name, binary)|
    ensures forall i :: 0 <= i < |text| ==> Hex.IsLowerHexDigit(text[i])
  {
    Hex.Encode(zip(name, binary))
  }

  /** The compressed payload decodes back to the zip archive's bytes. */
  lemma CompressDecodes(name: string, binary: seq<byte>, zip: Zipper)
    ensures Hex.Decode(Compress(name, binary, zip)) == Ok(zip(name, binary))
  {
    Hex.DecodeEncode(zip(name, binary));
  }

  // ---------------------------------------------------------------------
  // The batch

  /** What handling one argument does: submissions sent, or an exception that ends the command. */
  datatype Step = Send(sent: seq<Submission>) | Stop(cause: Escape)

  /** The `.pyz` branch of the loop body: submit the archive if it validates. */
  function ArchiveStep(files: FileSystem, cwd: Path, sysPath: seq<Path>, file: string, env: Environment): (sent: seq<Submission>)
    ensures |sent| <= 1
  {
    if PyzValid(files, cwd, sysPath, file, env) then
      match PyzSubmission(files, cwd, file, env)
      case None => []
      case Some(s) => [s]
    else []
  }

  /** The other branch: `Instance(file)`, and the transmission when it is valid. */
  function PlainStep(files: FileSystem, sysPath: seq<Path>, file: string, env: Environment): Step {
    var name := NameOf(file);
    var c := Validation(ImportModule(env.find, sysPath, files, name), name);
    if Escaped(c).Some? then Stop(Escaped(c).value)
    else if !c.valid then Send([])
    else
      var transmit := WithProperties(BaseRecord(env.charname, c.obj.value.source.value), c.mod.value.info.instanceDir);
      Send([Submission(transmit, HexText(Compress(name, env.binaryOf(name), env.zip)))])
  }

  /** The loop body for one argument, dispatched on the `.pyz` suffix. */
  function Process(files: FileSystem, cwd: Path, sysPath: seq<Path>, file: string, env: Environment): Step {
    if EndsWith(file, ".pyz") then Send(ArchiveStep(files, cwd, sysPath, file, env))
    else PlainStep(files, sysPath, file, env)
  }

  /** The submissions of the arguments in order, up to the first exception, which ends the command. */
  datatype Batch = Batch(sent: seq<Submission>, stopped: Option<Escape>)

  function RunBatch(files: FileSystem, cwd: Path, sysPath: seq<Path>, args: seq<string>, env: Environment): Batch
  {
    if args == [] then Batch([], None)
    else
      var before := RunBatch(files, cwd, sysPath, args[..|args| - 1], env);
      if before.stopped.Some? then before
      else
        match Process(files, cwd, sysPath, args[|args| - 1], env)
        case Send(s) => Batch(before.sent + s, None)
        case Stop(e) => Batch(before.sent, Some(e))
  }

  /** One more argument after a batch that has not stopped. */
  lemma RunBatchNext(files: FileSystem, cwd: Path, sysPath: seq<Path>, args: seq<string>, i: nat, env: Environment)
    requires i < |args| && RunBatch(files, cwd, sysPath, args[..i], env).stopped.None?
    ensures var before := RunBatch(files, cwd, sysPath, args[..i], env);
      RunBatch(files, cwd, sysPath, args[..i + 1], env) ==
        match Process(files, cwd, sysPath, args[i], env)
        case Send(s) => Batch(before.sent + s, None)
        case Stop(e) => Batch(before.sent, Some(e))
  {
    assert args[..i + 1][..i] == args[..i];
  }

  /** An archive argument adds what its branch sends and never stops the batch. */
  lemma ArchiveNext(files: FileSystem, cwd: Path, sysPath: seq<Path>, args: seq<string>, i: nat, env: Environment)
    requires i < |args| && EndsWith(args[i], ".pyz")
    requires RunBatch(files, cwd, sysPath, args[..i], env).stopped.None?
    ensures RunBatch(files, cwd, sysPath, args[..i + 1], env)
      == Batch(RunBatch(files, cwd, sysPath, args[..i], env).sent + ArchiveStep(files, cwd, sysPath, args[i], env), None)
  {
    RunBatchNext(files, cwd, sysPath, args, i, env);
  }

  /** A plain argument either adds what it sends, or stops the whole batch with its exception. */
  lemma PlainNext(files: FileSystem, cwd: Path, sysPath: seq<Path>, args: seq<string>, i: nat, env: Environment)
    requires i < |args| && !EndsWith(args[i], ".pyz")
    requires RunBatch(files, cwd, sysPath, args[..i], env).stopped.None?
    ensures var before := RunBatch(files, cwd, sysPath, args[..i], env);
      match PlainStep(files, sysPath, args[i], env)
      case Send(s) => RunBatch(files, cwd, sysPath, args[..i + 1], env) == Batch(before.sent + s, None)
      case Stop(e) => RunBatch(files, cwd, sysPath, args, env) == Batch(before.sent, Some(e))
  {
    var step := PlainStep(files, sysPath, args[i], env);
    assert Process(files, cwd, sysPath, args[i], env) == step;
    RunBatchNext(files, cwd, sysPath, args, i, env);
    if step.Stop? {
      StopEndsBatch(files, cwd, sysPath, args, i + 1, env);
    }
  }

  /** A batch whose first `n` arguments stopped it ends as it stood after them. */
  lemma StopEndsBatch(files: FileSystem, cwd: Path, sysPath: seq<Path>, args: seq<string>, n: nat, env: Environment)
    requires n <= |args| && RunBatch(files, cwd, sysPath, args[..n], env).stopped.Some?
    ensures RunBatch(files, cwd, sysPath, args, env) == RunBatch(files, cwd, sysPath, args[..n], env)
  {
    StoppedStaysStopped(files, cwd, sysPath, args[..n], args[n..], env);
    assert args[..n] + args[n..] == args;
  }

  /** An archive argument never ends the command: every error in its branch is caught. */
  lemma PyzNeverStops(files: FileSystem, cwd: Path, sysPath: seq<Path>, file: string, env: Environment)
    requires EndsWith(file, ".pyz")
    ensures Process(files, cwd, sysPath, file, env).Send?
    ensures PyzValid(files, cwd, sysPath, file, env) && IsFile(files, Resolve(cwd, file)) ==>
      Process(files, cwd, sysPath, file, env).sent == [PyzSubmission(files, cwd, file, env).value]
    ensures !PyzValid(files, cwd, sysPath, file, env) ==> Process(files, cwd, sysPath, file, env).sent == []
  {
  }

  /** A plain file whose import fails ends the command. */
  lemma ImportFailureStops(files: FileSystem, cwd: Path, sysPath: seq<Path>, file: string, env: Environment)
    requires !EndsWith(file, ".pyz") && ImportModule(env.find, sysPath, files, NameOf(file)).ImportFailed?
    ensures Process(files, cwd, sysPath, file, env) == Stop(NoObject)
  {
    ImportFailureEscapes(ImportModule(env.find, sysPath, files, NameOf(file)), NameOf(file));
  }

  /** Once an argument raises, the arguments after it are never handled. */
  lemma {:induction false} StoppedStaysStopped(files: FileSystem, cwd: Path, sysPath: seq<Path>, args: seq<string>,
                                              more: seq<string>, env: Environment)
    requires RunBatch(files, cwd, sysPath, args, env).stopped.Some?
    ensures RunBatch(files, cwd, sysPath, args + more, env) == RunBatch(files, cwd, sysPath, args, env)
    decreases |more|
  {
    if more == [] {
      assert args + more == args;
    } else {
      var shorter := more[..|more| - 1];
      StoppedStaysStopped(files, cwd, sysPath, args, shorter, env);
      assert (args + more)[..|args + more| - 1] == args + shorter;
    }
  }

  /** While nothing raises, the submissions are those of each argument, in argument order. */
  lemma {:induction false} BatchInOrder(files: FileSystem, cwd: Path, sysPath: seq<Path>, args: seq<string>,
                                       file: string, env: Environment)
    requires RunBatch(files, cwd, sysPath, args, env).stopped.None?
    requires Process(files, cwd, sysPath, file, env).Send?
    ensures RunBatch(files, cwd, sysPath, args + [file], env)
      == Batch(RunBatch(files, cwd, sysPath, args, env).sent + Process(files, cwd, sysPath, file, env).sent, None)
  {
    assert (args + [file])[..|args|] == args;
  }

  /** A batch of archives only never stops, and sends one submission per valid archive that can be read. */
  lemma {:induction false} ArchivesNeverStop(files: FileSystem, cwd: Path, sysPath: seq<Path>, args: seq<string>, env: Environment)
    requires forall i :: 0 <= i < |args| ==> EndsWith(args[i], ".pyz")
    ensures RunBatch(files, cwd, sysPath, args, env).stopped.None?
    ensures |RunBatch(files, cwd, sysPath, args, env).sent| <= |args|
    decreases |args|
  {
    if args != [] {
      var front := args[..|args| - 1];
      ArchivesNeverStop(files, cwd, sysPath, front, env);
      PyzNeverStops(files, cwd, sysPath, args[|args| - 1], env);
    }
  }

  /** Removing the scratch directory takes away what `mkdtemp` and the extraction added, and nothing else. */
  lemma ExtractionCleared(before: FileSystem, tmp: Path, tree: Option<FileSystem>)
    requires forall q :: q in before ==> !Under(q, tmp)
    ensures var made := before[tmp := Dir];
      RemoveTree(if tree.Some? then made + Graft(tmp, tree.value) else made, tmp) == before
  {
    var made := before[tmp := Dir];
    var grown := if tree.Some? then made + Graft(tmp, tree.value) else made;
    assert tmp[..|tmp|] == tmp;
    RemoveGrown(before, grown, tmp, None);
  }

  class Acquisition {
    const disk: Disk
    /** `sys.path` */
    var sysPath: seq<Path>
    /** The requests made so far, in order. */
    var sent: seq<Submission>

    constructor (disk: Disk, sysPath: seq<Path>)
      ensures this.disk == disk && this.sysPath == sysPath && sent == []
    {
      this.disk := disk;
      this.sysPath := sysPath;
      sent := [];
    }

    /** The scratch directory is new, and not on `sys.path` yet. */
    predicate Ready(env: Environment)
      reads this, disk
    {
      disk.Valid() && FreshScratch(disk.files, env.tmp) && env.tmp !in sysPath
    }

    /**
     * `__validate_pyz_file(pyz_file)`. Whatever the outcome, `sys.path` and the
     * disk are as before: the `finally` block takes the scratch directory off
     * `sys.path` and deletes it.
     */
    method ValidatePyz(file: string, env: Environment) returns (ok: bool)
      requires Ready(env)
      modifies this, disk
      ensures ok == PyzValid(old(disk.files), disk.cwd, old(sysPath), file, env)
      ensures disk.files == old(disk.files) && sysPath == old(sysPath) && sent == old(sent)
    {
      assert this as object != disk as object;
      var p := Resolve(disk.cwd, file);
      if p !in disk.files {
        return false;
      }
      var itemName := ItemName(file);
      ghost var before, path := disk.files, sysPath;
      var tree := Unpack(p, env);
      if tree.None? {
        ok := false;
      } else {
        ok := CheckExtracted(disk.files, disk.cwd, sysPath, itemName, env);
      }
      assert ok == PyzValid(before, disk.cwd, path, file, env);
      FreshHasNothingBelow(before, env.tmp);
      Finally(env, before, path, tree);
    }

    /**
     * The first steps of `__validate_pyz_file`: `mkdtemp`, then `extractall`
     * into it and the scratch directory put first on `sys.path`; `None` when
     * the archive cannot be opened.
     */
    method Unpack(p: Path, env: Environment) returns (tree: Option<FileSystem>)
      requires Ready(env) && p in disk.files
      modifies this, disk
      ensures tree == if IsFile(old(disk.files), p) then env.extract(old(disk.files)[p].data) else None
      ensures var made := old(disk.files)[env.tmp := Dir];
        disk.files == if tree.Some? then made + Graft(env.tmp, tree.value) else made
      ensures sysPath == if tree.Some? then [env.tmp] + old(sysPath) else old(sysPath)
      ensures sent == old(sent)
    {
      assert this as object != disk as object;
      ghost var before := disk.files;
      FreshHasNothingBelow(before, env.tmp);
      assert p != env.tmp;
      disk.files := disk.files[env.tmp := Dir];
      tree := if IsFile(disk.files, p) then env.extract(disk.files[p].data) else None;
      if tree.Some? {
        disk.files := disk.files + Graft(env.tmp, tree.value);
        sysPath := [env.tmp] + sysPath;
      }
    }

    /** The `finally` block of `__validate_pyz_file`: `sys.path` and the disk as they were before `Unpack`. */
    method Finally(env: Environment, ghost before: FileSystem, ghost path: seq<Path>, ghost tree: Option<FileSystem>)
      requires forall q :: q in before ==> !Under(q, env.tmp)
      requires env.tmp !in path
      requires var made := before[env.tmp := Dir];
        disk.files == if tree.Some? then made + Graft(env.tmp, tree.value) else made
      requires sysPath == if tree.Some? then [env.tmp] + path else path
      modifies this, disk
      ensures disk.files == before && sysPath == path && sent == old(sent)
    {
      assert this as object != disk as object;
      if env.tmp in sysPath {
        sysPath := RemoveFirst(sysPath, env.tmp).value;
      }
      ExtractionCleared(before, env.tmp, tree);
      disk.files := RemoveTree(disk.files, env.tmp);
    }

    /** The `try` block of `__validate_pyz_file` after extraction; it reads the disk and `sys.path` only. */
    static method CheckExtracted(files: FileSystem, cwd: Path, path: seq<Path>, itemName: string, env: Environment)
      returns (ok: bool)
      ensures ok == ExtractedValid(files, cwd, path, itemName, env)
    {
      var modulePath := ModulePath(env.tmp, itemName);
      if Resolve(cwd, modulePath) !in files {
        return false;
      }
      var direct := DirectCheck(ImportModule(env.find, path, files, itemName), itemName);
      if direct == NotImportable {
        // `Instance(module_path)` always raises here: the path is absolute.
        FallbackNeverValidates(env.tmp, itemName, path, files, env);
        var instance := NewInstance(modulePath, env.find, path, files, env.charname);
        match instance {
          case Ok(_) => assert false;
          case Err(_) => ok := false;
        }
      } else {
        ok := direct == Accepted;
      }
    }

    /** `__handle_pyz_file(pyz_file)`: sends the archive's record and bytes, or prints why it could not. */
    method HandlePyz(file: string, env: Environment)
      modifies this
      ensures sent == old(sent) + (match PyzSubmission(disk.files, disk.cwd, file, env) case None => [] case Some(s) => [s])
      ensures sysPath == old(sysPath)
    {
      assert this as object != disk as object;
      var submission := PyzSubmission(disk.files, disk.cwd, file, env);
      if submission.Some? {
        sent := sent + [submission.value];
      }
    }

    /** The `.pyz` branch of the loop body. */
    method HandleArchive(file: string, env: Environment)
      requires Ready(env)
      modifies this, disk
      ensures disk.files == old(disk.files) && sysPath == old(sysPath)
      ensures sent == old(sent) + ArchiveStep(disk.files, disk.cwd, sysPath, file, env)
    {
      assert this as object != disk as object;
      var ok := ValidatePyz(file, env);
      if ok {
        HandlePyz(file, env);
      }
    }

    /** The other branch: an exception from `Instance(file)` is returned, not caught. */
    method HandlePlain(file: string, env: Environment) returns (e: Option<Escape>)
      ensures var step := PlainStep(disk.files, sysPath, file, env);
        && (e.Some? <==> step.Stop?)
        && (step.Stop? ==> e.value == step.cause && sent == old(sent))
        && (step.Send? ==> sent == old(sent) + step.sent)
      modifies this
      ensures sysPath == old(sysPath)
    {
      assert this as object != disk as object;
      var instance := NewInstance(file, env.find, sysPath, disk.files, env.charname);
      if instance.Err? {
        return Some(instance.error);
      }
      if instance.value.valid {
        var transmit := instance.value.transmit;
        var name := instance.value.name;
        sent := sent + [Submission(transmit, HexText(Compress(name, env.binaryOf(name), env.zip)))];
      }
      return None;
    }

    /**
     * `Acquisition.__init__`: every argument in order. An exception from a
     * plain file's `Instance` ends the loop and is returned.
     */
    method Run(args: seq<string>, env: Environment) returns (stopped: Option<Escape>)
      requires Ready(env) && sent == []
      modifies this, disk
      ensures disk.files == old(disk.files) && sysPath == old(sysPath)
      ensures RunBatch(disk.files, disk.cwd, sysPath, args, env) == Batch(sent, stopped)
    {
      assert this as object != disk as object;
      stopped := None;
      var i := 0;
      while i < |args|
        invariant i <= |args| && Ready(env)
        invariant disk.files == old(disk.files) && sysPath == old(sysPath)
        invariant RunBatch(disk.files, disk.cwd, sysPath, args[..i], env) == Batch(sent, None)
      {
        if EndsWith(args[i], ".pyz") {
          ArchiveNext(disk.files, disk.cwd, sysPath, args, i, env);
          HandleArchive(args[i], env);
        } else {
          PlainNext(disk.files, disk.cwd, sysPath, args, i, env);
          var e := HandlePlain(args[i], env);
          if e.Some? {
            stopped := e;
            return;
          }
        }
        i := i + 1;
      }
      assert args[..i] == args;
    }
  }
}
