# whorl-client inventory core in Dafny

A model of the item packaging and bookkeeping layer of the whorl inventory
client, with proofs about it. The layer covers these commands and classes:

- `Packager` turns an item directory into a `.pyz` archive. It derives the
  module name, checks the required files, stages a copy in a scratch directory,
  adds a `__main__` launcher, writes the archive and always removes the scratch
  directory.
- `Acquisition` (the `get` command) walks its arguments in order. It validates
  `.pyz` archives in an extracted scratch tree and submits them. Every other file
  goes through `Instance`.
- `Instance` imports a module, checks its class and builds the record to
  transmit.
- `Dropped` (the `drop` command) decodes each item's hex payload as UTF-8 and
  writes `<item_name>.py`.
- `ItemSpec` derives an item's module name, applies command-line flags and loads
  metadata.
- `BackpackSpec` is a bounded list of items.
- `Create` derives the names and the metadata record of a new item and writes
  its directory.

The disk is a map from absolute paths (sequences of names) to files and
directories. It is shared through the class `Files.Disk`. Python's `sys.path`,
the requests sent and `temp_dir` are fields of the classes that change them.
Importing, executing a module, zipping and unzipping are function parameters:
the model states what the code does with their results, not what they do.

Modules, one per file:

- `Wrappers`, `Bytes`: the `Option`, `Result` and `Outcome` types, and bytes.
- `Text`: the Python `str` methods the code calls.
- `Naming`: `snake_to_camel`.
- `Hex`, `Base64`, `Utf8`: `bytes.hex`/`bytes.fromhex`, `base64.b64encode`
  (section 4 of RFC 4648) and strict UTF-8 (RFC 3629).
- `Files`: paths, `os.makedirs`, `shutil.copytree`/`rmtree`, reading and
  writing files.
- `Runtime`: Python values, import and execution outcomes.
- `Lists`: `list.remove`.
- `Packager`, `ItemSpec`, `Backpack`, `Instance`, `Acquire`, `Drop`, `Create`:
  the core.

Points where the code does something its names, messages or neighbouring
code might not lead one to expect; the model keeps what the code does:

- A batch of acquisitions is not continue-on-error: only `.pyz` candidates
  are caught one by one. With the cli `Instance` standing in for
  `src/inventory/Instance.py`, a plain file whose import fails makes
  `Instance(file)` raise at `inspect.getsource`, which ends the whole command
  (`Acquire.ImportFailureStops`).
- The structure check asks only that `meta.py` define a dict `metadata`, not
  for particular keys.
- The archive's entry point is `<module_name>:<module_name>`.
- `Create` writes `meta.yml` and `<item_name>.py`, but `Packager` requires
  `meta.py` and `<ClassName>.py`. A freshly created item therefore never
  packages (`Create.PackagerRejectsScaffold`).
- `drop` decodes one hex layer straight to source text, while `get` sends hex
  over a zip archive. If the store returns the payload `get` sent unchanged,
  dropping that item decodes the zip archive's bytes, not its source
  (`Drop.ConvertAcquired`).
- Categories are a list in input order, not a set.
- With the cli `Instance` standing in for `src/inventory/Instance.py`, the
  `.pyz` fallback to `Instance` can never succeed: its module path is
  absolute, so the name it imports holds `/`
  (`Acquire.FallbackNeverValidates`).

## Model

| member | source | states |
|---|---|---|
| Naming.SnakeToCamelIsCamelCase | src/inventory/Packager.py:16-18 | `snake_to_camel` equals the character-by-character reference: every `_` dropped, the first character and each one after a `_` upper-cased, all others lower-cased |
| Naming.CamelCaseOfPieces | src/inventory/Create.py:9-11 | the reference definition agrees with capitalising each `_`-separated piece and concatenating them |
| Naming.SnakeToCamelRemovesUnderscores | src/inventory/Packager.py:18 | the result has no `_`, its length is the input's minus the number of `_`, and it spells the input without `_` up to letter case |
| Naming.SnakeToCamelKeepsUncased | src/inventory/Packager.py:18 | a character that is neither a letter nor `_` (such as `/`) occurs in the result iff it occurs in the input |
| Text.Lower | src/inventory/Create.py:15 | `str.lower` keeps the length and lower-cases each character in place |
| Text.ReplaceChar | src/inventory/Create.py:15 | `str.replace` of one character keeps the length and swaps exactly the matching positions |
| Text.Strip | src/inventory/Create.py:83 | the stripped text neither starts nor ends with whitespace |
| Text.StripEndOf | src/inventory/Packager.py:29 | `rstrip(chars)` gives a prefix that does not end in `chars`, and everything it cut is in `chars` |
| Text.Split | src/inventory/Create.py:98 | `split(sep)` gives one more piece than there are separators, and no piece holds the separator |
| Text.JoinSplit | src/inventory/Create.py:98 | joining the pieces of a split with the same separator gives back the text |
| Text.SplitJoin | src/inventory/Create.py:98 | splitting pieces joined by a separator none of them holds gives back the pieces |
| Hex.Encode | src/inventory/Acquire.py:177 | `bytes.hex()` writes exactly two characters per byte, all from `0-9a-f` |
| Hex.DecodeEncode | src/inventory/Drop.py:84-85 | `bytes.fromhex(b.hex()) == b` for every byte string |
| Hex.EncodeDecode | src/inventory/Drop.py:84-85 | text of an even number of hex digits always decodes to half as many bytes, which re-encode to the text in lower case |
| Hex.OddDigitsFail | src/inventory/Drop.py:84-85 | an odd number of hex digits raises `ValueError` at the end of the text |
| Hex.NonHexFails | src/inventory/Drop.py:84-85 | a character that is neither a hex digit nor ASCII whitespace raises `ValueError`: in ASCII text at or before that character, otherwise at the first non-ASCII character |
| Hex.NonAsciiFails | src/inventory/Drop.py:84-85 | text holding a non-ASCII character raises `ValueError` at a non-ASCII character no later than any given one |
| Base64.Encode | cli/src/inventory/Instance.py:40 | `b64encode` writes four symbols per started group of three bytes, each from the base64 alphabet or `=` |
| Base64.DecodeEncode | cli/src/inventory/Instance.py:40 | the reference decoder recovers every byte string from its base64 text |
| Utf8.DecodeEncode | src/inventory/Drop.py:86 | strict UTF-8 decoding recovers every encoded string |
| Utf8.EncodeDecode | src/inventory/Drop.py:86 | every byte string that decodes is the encoding of what it decodes to |
| Utf8.DecodeAppend | src/inventory/Packager.py:97-103 | decoding distributes over the concatenation of two decodable byte strings |
| Utf8.EncodeAppend | src/inventory/Packager.py:102-103 | encoding distributes over string concatenation |
| Files.Basename | src/inventory/Packager.py:31 | `os.path.basename` never holds `/` |
| Files.ResolveRender | src/inventory/Packager.py:32 | `abspath(os.getcwd())` is the working directory itself |
| Files.ResolveJoin | src/inventory/Packager.py:33 | `os.path.join(dir, name)` for a plain name resolves to `name` inside `dir` |
| Files.MakeDirs | src/inventory/Packager.py:128 | after `os.makedirs` the path is a directory, every old entry is kept, and every new entry is a directory on the way to the path |
| Files.MakeDirsExisting | src/inventory/Packager.py:128 | with `exist_ok=True`, making an existing directory changes nothing |
| Files.MakeDirsIdempotent | src/inventory/Packager.py:128 | making the directories a second time changes nothing more |
| Files.MakeDirsFails | src/inventory/Packager.py:128 | `os.makedirs` fails iff the path or one of its ancestors is a file |
| Files.ReadFile | src/inventory/Packager.py:97-98 | reading succeeds iff the path is a file, and gives its contents |
| Files.WriteFile | src/inventory/Drop.py:42-43 | writing succeeds iff the path is not a directory and its parent is, and then sets that one file and keeps the disk well formed |
| Files.RemoveTree | src/inventory/Packager.py:113 | `shutil.rmtree(root)` removes exactly `root` and the paths below it and changes nothing else |
| Files.CopyTreeAt | src/inventory/Packager.py:88-90 | `copy2`/`copytree` creates a path iff it mirrors a source path below the origin, with that path's node |
| Files.Children | src/inventory/Packager.py:83 | `os.listdir` names exactly the direct children of the directory |
| Files.FreshHasNothingBelow | src/inventory/Packager.py:80 | no path exists at or below a directory `mkdtemp` has just chosen |
| Runtime.ImportModule | cli/src/inventory/Instance.py:23 | `import_module` raises `ValueError` on an empty name and `ModuleNotFoundError` on a name holding `/` |
| Runtime.ExecFile | src/inventory/Packager.py:56-58 | without a loader suffix or without a file at the path, the module raises |
| Lists.RemoveFirst | src/inventory/specs/BackpackSpec.py:52 | `list.remove(x)` raises `ValueError` (`None`) iff `x` is not in the list, and otherwise shortens it by one |
| Lists.RemoveFirstOneCopy | src/inventory/Acquire.py:121-122 | `remove` takes out exactly one copy of `x` and keeps every other element, counted with multiplicity |
| Lists.RemoveFirstAt | src/inventory/specs/BackpackSpec.py:50-53 | removing an element whose first occurrence is at `i` cuts out exactly index `i` and keeps the order of the rest |
| Packager.ModuleNameOf | src/inventory/Packager.py:29-31 | the module name holds neither `/` nor `_` |
| Packager.OutputDirOf | src/inventory/Packager.py:32 | `output_dir or os.getcwd()` is never empty |
| Packager.ArchiveName | src/inventory/Packager.py:33 | `<module_name>.pyz` is a plain file name ending in `.pyz` |
| Packager.PyzLocation | src/inventory/Packager.py:33 | the archive path resolves to `<module_name>.pyz` directly inside the output directory |
| Packager.Missing | src/inventory/Packager.py:45-46 | a name is reported missing iff it is required and absent from the item directory |
| Packager.ValidateReportsMissing | src/inventory/Packager.py:39-51 | the check fails with exactly the absent files among `meta.py` and `<module_name>.py`, in that order, iff at least one is absent |
| Packager.ValidatePasses | src/inventory/Packager.py:39-76 | the check passes iff both files exist, `meta.py` runs and defines a dict `metadata`, and the module runs and defines an attribute named after the module |
| Packager.EntrypointHasMarker | src/inventory/Packager.py:95-101 | the launcher block contains the marker `if __name__ == '__main__'` |
| Packager.WithEntrypointAddsMarker | src/inventory/Packager.py:92-103 | afterwards the module text contains the marker, and it is the old text or the old text followed by the launcher |
| Packager.WithEntrypointIdempotent | src/inventory/Packager.py:100-103 | a second `_add_entrypoint` leaves the disk as the first one left it |
| Packager.SourceUnchanged | src/inventory/Packager.py:83-90 | during staging, no path at or below the item directory changes |
| Packager.StagingStart | src/inventory/Packager.py:80 | the staging invariant holds right after `mkdtemp`, with no child copied yet |
| Packager.StagingStep | src/inventory/Packager.py:83-90 | copying one more child preserves the staging invariant |
| Packager.StagingStepAt | src/inventory/Packager.py:88-90 | copying child `n` keeps the invariant at one path: the paths below `tmp/n` are the copies of the source paths |
| Packager.StagingDone | src/inventory/Packager.py:83-90 | once every child is copied, the disk is the old disk plus a copy of the item directory below the scratch directory |
| Packager.FullyStagedAt | src/inventory/Packager.py:83-90 | at each path, the invariant with every child copied agrees with the whole-tree copy |
| Packager.StagedParent | src/inventory/Packager.py:83-90 | the parent of every path on the staged disk is a directory |
| Packager.StagedWellFormed | src/inventory/Packager.py:80-90 | staging keeps the disk well formed |
| Packager.StagedKeepsRest | src/inventory/Packager.py:80-90 | the scratch directory is a directory iff the item directory is, every old entry is kept, and every new entry is below the scratch directory |
| Packager.StagedModule | src/inventory/Packager.py:83-90 | each staged file is the item directory's file of the same name |
| Packager.EntryPointValid | src/inventory/Packager.py:152 | the entry point `<m>:<m>` is accepted by `zipapp` iff `m` is a dotted name of ASCII identifiers (see "Left out" for non-ASCII names) |
| Packager.CreateArchive | src/inventory/Packager.py:149-155 | `create_archive` succeeds iff the source has no `__main__.py`, the entry point is valid and the target can be written, and then writes only the target |
| Packager.Build | src/inventory/Packager.py:139-157 | the steps from staging on always stage, and on success return the archive path |
| Packager.BuildThenClean | src/inventory/Packager.py:139-164 | removing the scratch tree after a build leaves the disk from before staging, plus the archive when the build succeeded |
| Packager.AttemptSteps | src/inventory/Packager.py:126-143 | the `try` block leaves through the `makedirs` failure, the existing archive or the failed check, or goes on to build |
| Packager.ArchivedTree | src/inventory/Packager.py:83-103 | the tree handed to `zipapp` holds every other item file unchanged, and a module whose text is the item's, possibly followed by the launcher, and contains the marker |
| Packager.PackageOutputDirFails | src/inventory/Packager.py:128-161 | when `os.makedirs` fails, `package` raises `RuntimeError` with that cause and the disk is unchanged |
| Packager.RefusesExistingArchive | src/inventory/Packager.py:131-134 | without `force`, an existing archive is refused before validation or staging, and the disk is unchanged |
| Packager.PackageFailureKeepsDisk | src/inventory/Packager.py:159-164 | a failed `package` leaves the disk as `os.makedirs` left it: no archive, no scratch tree |
| Packager.PackageSuccess | src/inventory/Packager.py:126-164 | a successful `package` returns the archive path and leaves the `makedirs` disk plus the archive of the staged tree with its launcher |
| Packager.PackageLeavesNoScratch | src/inventory/Packager.py:110-164 | whatever the outcome, nothing is left at or below the scratch directory |
| Packager.ScratchKept | src/inventory/Packager.py:110-114 | once staging ran, the scratch directory is still on disk when `_cleanup` runs, so `_cleanup` removes it |
| Packager.Packager.constructor | src/inventory/Packager.py:20-35 | `directory` is the resolved path with trailing separators stripped, the module and archive names are derived from it, and `temp_dir` is `None` |
| Packager.Packager.PrepareStagingArea | src/inventory/Packager.py:78-90 | the loop leaves the old disk plus a copy of the item directory at `temp_dir`, and sets `temp_dir` |
| Packager.Packager.AddEntrypoint | src/inventory/Packager.py:92-103 | the disk becomes what `WithEntrypoint` gives, or stays unchanged with the error |
| Packager.Packager.WriteArchive | src/inventory/Packager.py:149-155 | the disk becomes what `CreateArchive` gives, or stays unchanged with the error |
| Packager.Packager.StageAndArchive | src/inventory/Packager.py:139-157 | the disk, outcome and `temp_dir` are those of `Build` |
| Packager.Packager.TryPackage | src/inventory/Packager.py:126-157 | the disk, outcome and `temp_dir` are those of `Attempt` |
| Packager.Packager.Package | src/inventory/Packager.py:116-164 | the result and disk are `PackageRun`'s, and `temp_dir` is `None` again |
| Packager.Packager.Cleanup | src/inventory/Packager.py:110-114 | the scratch tree is removed and `temp_dir` cleared iff it is set and exists; otherwise nothing changes |
| ItemSpec.Modname | src/inventory/specs/ItemSpec.py:39-40 | the module name holds neither `.` nor `/` |
| ItemSpec.ModnameOfPath | src/inventory/specs/ItemSpec.py:39-40 | `<dir>/<name>.<ext>` with no `.` in `dir` gives `name` |
| ItemSpec.ModnameOfFile | src/inventory/specs/ItemSpec.py:39-40 | `<name>.<ext>` gives `name` |
| ItemSpec.ModnameOfName | src/inventory/specs/ItemSpec.py:39-40 | a bare name is its own module name |
| ItemSpec.ModnameOfDottedDirectory | src/inventory/specs/ItemSpec.py:39-40 | a `.` in the directory part cuts the name first: `./items/foo.py` gives the empty name |
| ItemSpec.FlagName | src/inventory/specs/ItemSpec.py:110 | the attribute name of a flag holds no `-` |
| ItemSpec.ApplyFlags | src/inventory/specs/ItemSpec.py:109-111 | setting the flags keeps every existing attribute name |
| ItemSpec.LastFlag | src/inventory/specs/ItemSpec.py:109-111 | there is a last flag for a name iff some flag is stored under it |
| ItemSpec.ApplyFlagsAt | src/inventory/specs/ItemSpec.py:109-111 | an attribute exists iff it did before or a flag names it; the last such flag's value wins; other attributes keep their values |
| ItemSpec.LoadMeta | src/inventory/specs/ItemSpec.py:58-65 | metadata is kept iff the file runs as module `meta` and defines a dict `metadata`; a file without a loader suffix such as `meta.yml` always fails |
| ItemSpec.WithMeta | src/inventory/specs/ItemSpec.py:62-63 | `meta` is set to the loaded dict, and otherwise nothing changes |
| ItemSpec.GivenMeta | src/inventory/specs/ItemSpec.py:46-47 | metadata is loaded iff a non-empty `meta_file` is given and exists |
| ItemSpec.InitialAt | src/inventory/specs/ItemSpec.py:38-47 | after `__init__`, every attribute but `absolute_path` and `meta` is as the flags left it |
| ItemSpec.Lookup | src/inventory/specs/ItemSpec.py:23-26 | an attribute lookup finds the instance's value, and otherwise the class default |
| ItemSpec.InitialModname | src/inventory/specs/ItemSpec.py:38-41 | a new item's `modname` is derived from its file name unless a `modname` flag overrides it |
| ItemSpec.InitialDefaults | src/inventory/specs/ItemSpec.py:23-26 | a new item has volume 1, version "1.0.0", empty actions and consumable True, unless a flag of that name sets a string |
| ItemSpec.InitialMeta | src/inventory/specs/ItemSpec.py:45-65 | `meta` holds a dict iff a metadata file was given and loading it found a dict `metadata`, and then it is that dict |
| ItemSpec.ItemSpec.constructor | src/inventory/specs/ItemSpec.py:28-47 | the attributes are those `InitialAttrs` derives from the file name, flags, absolute path and metadata file |
| ItemSpec.ItemSpec.SetCliFlags | src/inventory/specs/ItemSpec.py:94-111 | the loop stores each flag in turn under its dash-free name |
| ItemSpec.ItemSpec.LoadMetadata | src/inventory/specs/ItemSpec.py:49-65 | the outcome is `LoadMeta`'s, and `meta` is set only when the outcome is a loaded dict |
| ItemSpec.ItemSpec.Describe | src/inventory/specs/ItemSpec.py:113-119 | the description contains the module name |
| Backpack.FirstMatch | src/inventory/specs/BackpackSpec.py:50-51 | the index found holds the first item with that module name; there is none iff no item has it |
| Backpack.Modnames | src/inventory/specs/BackpackSpec.py:63 | one name per item, in order, each the item's module name |
| Backpack.InitialCapacity | src/inventory/specs/BackpackSpec.py:14-24 | a new backpack has no `capacity` attribute of its own, unless a `capacity` flag set a string |
| Backpack.BackpackSpec.constructor | src/inventory/specs/BackpackSpec.py:16-24 | a new backpack is empty, and its capacity is the class value 2 unless a flag shadows it |
| Backpack.BackpackSpec.AddItem | src/inventory/specs/BackpackSpec.py:26-39 | with room, appends the item at the end and answers True; when full, answers False and changes nothing; a non-numeric capacity raises `TypeError`; the bound always holds |
| Backpack.BackpackSpec.RemoveItem | src/inventory/specs/BackpackSpec.py:41-55 | takes out and returns the first item with that module name and keeps the others in order; without a match, returns `None` and changes nothing |
| Backpack.BackpackSpec.ListContents | src/inventory/specs/BackpackSpec.py:57-63 | the module names of the contents, in order, one per item |
| Backpack.RemovableIffListed | src/inventory/specs/BackpackSpec.py:50-63 | an item can be removed by name iff `list_contents` lists that name |
| Instance.NameOf | cli/src/inventory/Instance.py:22 | the name holds no `.` |
| Instance.NameOfFile | cli/src/inventory/Instance.py:22 | `<stem>.<ext>` gives `stem` |
| Instance.NameOfModule | cli/src/inventory/Instance.py:22 | a name without a dot is its own name |
| Instance.Validation | cli/src/inventory/Instance.py:17-34 | `object` is set iff the import succeeds, `mod` iff the module has the attribute, and `valid` iff that class can be made, has `use` and has `ItemSpec` in its MRO |
| Instance.ImportFailureEscapes | cli/src/inventory/Instance.py:14-23 | when the import fails, `__init__` raises at `inspect.getsource` |
| Instance.InvalidButReturned | cli/src/inventory/Instance.py:10-34 | an instance returned invalid had its module imported and its class looked up and made; only `use` or the MRO check failed |
| Instance.ValidReturns | cli/src/inventory/Instance.py:10-15 | a valid module whose source can be found never raises out of `__init__` |
| Instance.Ascii | cli/src/inventory/Instance.py:40 | ASCII text encodes to one byte per character, with the same code |
| Instance.WithProperties | cli/src/inventory/Instance.py:49-51 | the loop over `dir(instance)` keeps every key already in the record |
| Instance.LastProperty | cli/src/inventory/Instance.py:49-51 | an attribute has a last listed value iff `dir` lists it |
| Instance.WithPropertiesAt | cli/src/inventory/Instance.py:43-51 | a key is present iff it was, or it is a table key some attribute lists; that attribute's last value wins |
| Instance.TransmitRecord | cli/src/inventory/Instance.py:37-51 | the record always has `item_qty` 1, the encoded source and the owner; `modname`, `volume` and `consumable` are added under their own names, and the translated names never appear |
| Instance.BytestringCarriesSource | cli/src/inventory/Instance.py:40 | `item_bytestring` is base64 text that decodes to the UTF-8 bytes of the source, which decode back to it |
| Instance.Instance.constructor | cli/src/inventory/Instance.py:10-12 | `valid` starts True and no other attribute is set |
| Instance.Instance.ValidateFile | cli/src/inventory/Instance.py:17-34 | `name`, `object` and `mod` are `Validation`'s, and `valid` is cleared iff validation fails |
| Instance.Instance.ReadSource | cli/src/inventory/Instance.py:14 | `getsource` sets `source`, or raises when there is no module or no source text |
| Instance.Instance.EnumerateProperties | cli/src/inventory/Instance.py:36-52 | `transmit` is the base record, extended by the loop unless `self.mod()` raises |
| Instance.NewInstance | cli/src/inventory/Instance.py:10-15 | `Instance(filename)` raises iff `getsource` or `self.mod()` fails; otherwise it returns the validity, source and record |
| Acquire.ItemName | src/inventory/Acquire.py:70 | the item name holds neither `.` nor `/` |
| Acquire.ItemNameOfPath | src/inventory/Acquire.py:70 | `dir/stem.ext` gives `stem` |
| Acquire.Owner | src/inventory/Acquire.py:135 | the owner is `GITHUB_USER` when set and non-empty, and the login name otherwise |
| Acquire.Graft | src/inventory/Acquire.py:76-77 | everything extracted lies below the scratch directory |
| Acquire.DirectCheck | src/inventory/Acquire.py:89-111 | direct validation accepts iff the module imports with an `item_name` class that has `ItemSpec` in its MRO and `use`; it falls back iff the import raises `ImportError` |
| Acquire.FallbackNeverValidates | src/inventory/Acquire.py:113-115 | `Instance(module_path)` always raises because the path is absolute, so the fallback returns False |
| Acquire.PyzValidIff | src/inventory/Acquire.py:58-118 | an archive validates iff it exists, extracts, holds `<item_name>.py`, and passes the direct check |
| Acquire.PyzMissingFails | src/inventory/Acquire.py:65-86 | a missing archive, or one without `<item_name>.py`, never validates |
| Acquire.PyzSubmission | src/inventory/Acquire.py:125-153 | an archive is submitted iff it can be read, with its raw bytes and the fixed record |
| Acquire.PyzRecordFields | src/inventory/Acquire.py:130-141 | the record names the item after its file and fixes weight 1, quantity 1, consumable True, version "1.0.0" and type "pyz" |
| Acquire.Compress | src/inventory/Acquire.py:167-177 | the payload is two lowercase hex digits per byte of the zip archive |
| Acquire.CompressDecodes | src/inventory/Acquire.py:173-177 | `bytes.fromhex` of the payload gives back the zip archive's bytes |
| Acquire.ArchiveStep | src/inventory/Acquire.py:47-52 | a `.pyz` argument sends at most one submission |
| Acquire.RunBatchNext | src/inventory/Acquire.py:45-56 | one more argument appends what it sends, or stops the batch with its exception |
| Acquire.ArchiveNext | src/inventory/Acquire.py:47-52 | an archive argument appends what its branch sends and never stops the batch |
| Acquire.PlainNext | src/inventory/Acquire.py:53-56 | a plain argument appends what it sends, or stops the whole batch with its exception |
| Acquire.PyzNeverStops | src/inventory/Acquire.py:47-52 | an archive never ends the command; it sends its submission iff it validates and can be read |
| Acquire.ImportFailureStops | src/inventory/Acquire.py:53-56 | a plain file whose import fails ends the command |
| Acquire.StoppedStaysStopped | src/inventory/Acquire.py:45-56 | once an argument raises, the arguments after it are never handled |
| Acquire.BatchInOrder | src/inventory/Acquire.py:45-56 | while nothing raises, the submissions are each argument's, in argument order |
| Acquire.ArchivesNeverStop | src/inventory/Acquire.py:45-52 | a batch of archives only never stops, and sends at most one submission per argument |
| Acquire.ExtractionCleared | src/inventory/Acquire.py:119-123 | removing the scratch directory takes away exactly what `mkdtemp` and the extraction added |
| Acquire.Acquisition.constructor | src/inventory/Acquire.py:33-45 | the acquisition starts with the given disk and `sys.path`, and nothing sent |
| Acquire.Acquisition.Unpack | src/inventory/Acquire.py:72-80 | `mkdtemp` adds the scratch directory, the extraction grafts the tree below it, and the directory goes first on `sys.path` |
| Acquire.Acquisition.Finally | src/inventory/Acquire.py:119-123 | the `finally` block restores `sys.path` and the disk to what they were before unpacking |
| Acquire.Acquisition.CheckExtracted | src/inventory/Acquire.py:82-115 | the checks after extraction give `ExtractedValid` |
| Acquire.Acquisition.ValidatePyz | src/inventory/Acquire.py:58-123 | the answer is `PyzValid`, and on every exit `sys.path` and the disk are as before |
| Acquire.Acquisition.HandlePyz | src/inventory/Acquire.py:125-165 | appends the archive's submission when the file can be read, and otherwise nothing |
| Acquire.Acquisition.HandleArchive | src/inventory/Acquire.py:47-52 | appends what `ArchiveStep` sends, and leaves the disk and `sys.path` unchanged |
| Acquire.Acquisition.HandlePlain | src/inventory/Acquire.py:53-56 | appends what `PlainStep` sends, or returns its exception |
| Acquire.Acquisition.Run | src/inventory/Acquire.py:33-56 | the submissions and the exception that ended the loop are `RunBatch`'s, and the disk and `sys.path` are unchanged |
| Drop.Convert | src/inventory/Drop.py:75-87 | a successful conversion is text whose UTF-8 encoding is the hex-decoded payload |
| Drop.ConvertEncoded | src/inventory/Drop.py:84-87 | conversion inverts hex over UTF-8: the source comes back |
| Drop.ConvertOddDigits | src/inventory/Drop.py:84-85 | an odd number of hex digits raises `ValueError` |
| Drop.ConvertNonHex | src/inventory/Drop.py:84-85 | a character that is neither hex nor whitespace raises `ValueError` |
| Drop.ConvertNotUtf8 | src/inventory/Drop.py:84-86 | hex of bytes that are not UTF-8 raises `UnicodeDecodeError` |
| Drop.ConvertAcquired | src/inventory/Drop.py:84-86 | a payload from `get` converts to the UTF-8 reading of the zip archive's bytes, not to the item's source |
| Drop.DropOne | src/inventory/Drop.py:30-43 | dropping succeeds iff the record has a bytestring that converts and the file can be written, and then writes exactly the decoded source to `<item_name>.py` |
| Drop.DropAllAppend | src/inventory/Drop.py:27-28 | dropping `xs + ys` drops `xs` and then, unless that raised, `ys` |
| Drop.DropAllTouchesOnlyTargets | src/inventory/Drop.py:27-43 | only the items' own files change |
| Drop.DropAllLast | src/inventory/Drop.py:27-43 | after a finished loop, the last item's file holds exactly its decoded source |
| Drop.Dropped.DropItem | src/inventory/Drop.py:30-43 | the disk becomes `DropOne`'s, or stays unchanged with the error |
| Drop.Dropped.DropItems | src/inventory/Drop.py:21-28 | the loop gives `DropAll`: names in order, up to the first exception |
| Create.DirName | src/inventory/Create.py:15 | the directory name has the item name's length, and is lower-case without spaces |
| Create.NormalizedIsDirName | src/inventory/Create.py:15 | a normalised name is its own directory name |
| Create.DirNameIdempotent | src/inventory/Create.py:15 | normalising twice is normalising once |
| Create.PromptedName | src/inventory/Create.py:83 | the interactive item name has the trimmed answer's length and is normalised |
| Create.ClassName | src/inventory/Create.py:30 | the class name has no `_` and spells the item name without `_`, up to letter case |
| Create.ClassNameDiffers | src/inventory/Create.py:30-31 | the class name differs from the item name when the latter begins with a lower-case letter or holds `_` |
| Create.ModuleFile | src/inventory/Create.py:31 | the module file is `<item_name>.py`, a plain file name when the item name has no `/` |
| Create.DefaultNiceName | src/inventory/Create.py:92 | the default display name has the item name's length |
| Create.DefaultNiceNameRoundTrip | src/inventory/Create.py:92 | the default display name is the item name with `_` read as a space, up to case, so normalising it gives the item name back |
| Create.Kept | src/inventory/Create.py:98 | the kept pieces are no more than the pieces, and each is a category when no piece holds `,` |
| Create.Categories | src/inventory/Create.py:97-98 | every category is non-empty, trimmed and free of `,`, and there are at most as many as comma-separated pieces |
| Create.KeptCategories | src/inventory/Create.py:98 | a list of categories passes the comprehension unchanged |
| Create.CategoriesRoundTrip | src/inventory/Create.py:97-98 | entering categories joined by commas gives the same list back |
| Create.BlankCategories | src/inventory/Create.py:97-98 | a blank answer gives no categories |
| Create.KeysOfRecord | src/inventory/Create.py:102-116 | every record has the seven keys, and `price` iff it holds a price |
| Create.OrDefault | src/inventory/Create.py:91-92 | the trimmed answer when it is not blank, and the default otherwise |
| Create.Prompt | src/inventory/Create.py:80-118 | the wizard succeeds iff name, author and description are not blank, and otherwise exits for the first blank one |
| Create.PromptRecord | src/inventory/Create.py:80-118 | an accepted run records the normalised name, trimmed answers, the defaults for blank version and display name, the categories, and `price` iff it was given and parses |
| Create.NonInteractive | src/inventory/Create.py:128-140 | non-interactive mode needs a name and an author, and fixes version "1.0.0", description "A <name> item", no categories and no price |
| Create.ModesAgree | src/inventory/Create.py:128-142 | a trimmed name and author on the command line give the record the wizard builds from the same answers left blank |
| Create.BlankAnswers | src/inventory/Create.py:91-98 | blank answers take the defaults: display name, version "1.0.0", no categories, no price |
| Create.ItemNameIsDirName | src/inventory/Create.py:128-144 | both modes yield a non-empty item name that is its own directory name |
| Create.ScaffoldWrites | src/inventory/Create.py:144-147 | the three files are written into the new directory, under their own names |
| Create.DistinctFiles | src/inventory/Create.py:22-69 | the three files have different names, unless the item is called `__init__` |
| Create.ScaffoldLayout | src/inventory/Create.py:14-77 | a new item directory holds exactly `meta.yml`, `<item_name>.py` and `__init__.py` with the given texts; an item called `__init__` loses its module to the package file |
| Create.RequiredAgainstWritten | src/inventory/Packager.py:39-42 | `meta.py` is never a file `Create` writes unless the item is called `meta`, and `<m>.py` only when `m` is the item name |
| Create.PackagerModuleName | src/inventory/Packager.py:29-31 | given an item directory, `Packager` derives the item's class name as its module name |
| Create.PackagerRejectsScaffold | src/inventory/Packager.py:39-51 | a directory `Create` has just made always fails the structure check with a non-empty missing-files report |

## Left out

- HTTP traffic is not modelled: the inventory search and the PATCH in `drop`, and the POSTs and status codes in `get`. A request is a value appended to `sent`. The record `drop` looks up is the parameter `lookup`.
- `src/inventory/Use.py` and `cli/src/omnipresence/__init__.py` are not part of this model. They are network clients and `exec` of retrieved code.
- `src/inventory/Instance.py`, which `Acquire.py` imports, is not part of this model. The `Instance` in `cli/src/inventory/Instance.py` stands in for it, and the bytes `instance.binary` yields are the parameter `binaryOf`.
- Importing, running a module, `inspect.getsource`, `issubclass` and `hasattr` are the parameters `Finder` and `Interpreter` and the record `ClassInfo`. The `sys.modules` cache is not modelled.
- The zip and zipapp formats are the parameters `Extractor`, `Zipper` and `Archiver`. So are the interpreter line `zipapp` writes and `_get_python_executable`.
- The name `tempfile.mkdtemp` returns is a parameter, assumed to be fresh and apart from the item directory and the archive.
- `ItemSpec.get_absolute_path` is not modelled; its result is an input. The flags are given as the pairs the regular expression in `__set_cli_flags` would find, so the regular expression itself is not modelled.
- `argparse`, `input()`, `sys.exit`, `datetime.now()` and `float()` are not modelled. The answers, the date and a partial `parsePrice` are parameters.
- `yaml.dump` and the module and `__init__.py` templates are not modelled. `Create.Scaffold` takes the three texts as parameters.
- Printed messages are not modelled. An outcome only records whether a message would be printed.
- Text.Lower: only ASCII letters change case; Python's full Unicode case mapping is not modelled. `Text.Capitalize` and `Text.Title` are limited the same way.
- Utf8.Encode: a Dafny `char` is a Unicode scalar value, so a Python string holding a lone surrogate, which fails to encode, cannot be written.
- Base64.DecodeEncode: the decoder is a reference inverse of `b64encode`. It is not a model of `b64decode`, which the client never calls.
- Drop.Dropped.DropItem: `open(..., "w")` writes with the locale's encoding. The model writes UTF-8.
- Files.CopyTreeAt: `copy2` metadata, permissions and symbolic links are not modelled.
- Files.Resolve: paths are normalised lexically, as `os.path.abspath` does, before any file operation. A real `open`, `os.path.exists` or `os.makedirs` walks `..` through the actual directories, so a `..` after a missing or non-directory component is not modelled. For example, `os.makedirs("x/../y")` with `x` absent also creates `x`, and `open("x/../y.py", "w")` raises; the model creates only `y` and writes `y.py`.
- Packager.IsIdentifier: identifiers are ASCII only (a letter or `_`, then letters, digits or `_`). `str.isidentifier`, which `zipapp.create_archive` applies to the entry point, also accepts Unicode identifiers. So for a non-ASCII module name such as `日本`, `Packager.EntryPointValid`, `Packager.CreateArchive` and the `package` lemmas built on them refuse an archive that `zipapp` writes; they are exact only for ASCII module names.
- `backpack.py` is not modelled: its constructor passes `capacity=10`, which `BackpackSpec.__init__` does not accept.
