/**
 * The part of the operating system the inventory code touches through `os`,
 * `os.path`, `shutil` and `tempfile`: a file system as a map from absolute
 * paths to nodes, POSIX path strings resolved against a working directory,
 * `os.makedirs`, writing a file, `shutil.copytree` and `shutil.rmtree`.
 */
module Files {
  import opened Bytes
  import opened Wrappers
  import opened Text

  /** An absolute path, one segment per directory level; `[]` is the root. */
  type Path = seq<string>

  datatype Node = File(data: seq<byte>) | Dir

  type FileSystem = map<Path, Node>

  datatype FsError = NotFound | NotADirectory | IsADirectory | AlreadyExists

  predicate IsFile(fs: FileSystem, p: Path) { p in fs && fs[p].File? }

  predicate IsDir(fs: FileSystem, p: Path) { p in fs && fs[p].Dir? }

  /** The root is a directory and every other node sits in a directory. */
  predicate WellFormed(fs: FileSystem) {
    IsDir(fs, []) && forall p :: p in fs && p != [] ==> IsDir(fs, p[..|p| - 1])
  }

  /** `p` is `root` or lies below it. */
  predicate Under(p: Path, root: Path) {
    |root| <= |p| && p[..|root|] == root
  }

  /** A segment that names itself: not empty, not `.` or `..`, without `/`. */
  predicate IsName(s: string) {
    s != "" && s != "." && s != ".." && '/' !in s
  }

  predicate IsCanonical(p: Path) {
    forall i :: 0 <= i < |p| ==> IsName(p[i])
  }

  // ---------------------------------------------------------------------
  // Path strings

  /** `os.path.normpath` applied segment by segment to `base`. */
  function Normalize(base: Path, segments: seq<string>): (r: Path)
    ensures IsCanonical(base) && (forall i :: 0 <= i < |segments| ==> '/' !in segments[i]) ==> IsCanonical(r)
    decreases |segments|
  {
    if segments == [] then base
    else
      var s := segments[0];
      var next :=
        if s == "" || s == "." then base
        else if s == ".." then (if base == [] then [] else base[..|base| - 1])
        else base + [s];
      Normalize(next, segments[1..])
  }

  /** `os.path.abspath(s)` with `cwd` as the working directory. */
  function Resolve(cwd: Path, s: string): (r: Path)
    ensures IsCanonical(cwd) ==> IsCanonical(r)
  {
    Normalize(if s != "" && s[0] == '/' then [] else cwd, Split(s, '/'))
  }

  function RenderFrom(p: Path): (s: string)
    ensures p != [] ==> s != "" && s[0] == '/'
  {
    if p == [] then "" else RenderFrom(p[..|p| - 1]) + "/" + p[|p| - 1]
  }

  /** The string `os.getcwd()` returns for a canonical path. */
  function Render(p: Path): (s: string)
    ensures s != "" && s[0] == '/'
  {
    if p == [] then "/" else RenderFrom(p)
  }

  /** `os.path.basename(s)` */
  function Basename(s: string): (r: string)
    ensures '/' !in r
  {
    LastField(s, '/')
  }

  /** `os.path.join(a, b)` */
  function JoinPath(a: string, b: string): string
  {
    if b != "" && b[0] == '/' then b
    else if a == "" || a[|a| - 1] == '/' then a + b
    else a + "/" + b
  }

  lemma {:induction false} NormalizeAppend(base: Path, x: seq<string>, y: seq<string>)
    ensures Normalize(base, x + y) == Normalize(Normalize(base, x), y)
    decreases |x|
  {
    if x == [] {
      assert x + y == y;
    } else {
      HeadOfConcat(x, y);
      var s := x[0];
      var next :=
        if s == "" || s == "." then base
        else if s == ".." then (if base == [] then [] else base[..|base| - 1])
        else base + [s];
      NormalizeAppend(next, x[1..], y);
    }
  }

  /** Segments that already name themselves are appended as they are. */
  lemma {:induction false} NormalizeCanonical(base: Path, p: Path)
    requires IsCanonical(p)
    ensures Normalize(base, p) == base + p
    decreases |p|
  {
    if p != [] {
      NormalizeCanonical(base + [p[0]], p[1..]);
      Associative(base, [p[0]], p[1..]);
      assert [p[0]] + p[1..] == p;
    }
  }

  lemma {:induction false} SplitRenderFrom(p: Path)
    requires IsCanonical(p)
    ensures Split(RenderFrom(p), '/') == [""] + p
    decreases |p|
  {
    if p != [] {
      var init, last := p[..|p| - 1], p[|p| - 1];
      SplitRenderFrom(init);
      SplitAround(RenderFrom(init), '/', last);
      assert RenderFrom(p) == RenderFrom(init) + ['/'] + last;
      SplitWithoutSep(last, '/');
      Associative([""], init, [last]);
      assert init + [last] == p;
    }
  }

  /** `os.path.abspath(os.getcwd())` is the working directory itself. */
  lemma ResolveRender(cwd: Path, p: Path)
    requires IsCanonical(p)
    ensures Resolve(cwd, Render(p)) == p
  {
    if p == [] {
      assert "/" == ['/'] + "";
      SplitConsSep("", '/');
      assert Split("", '/') == [""];
      assert Split("/", '/') == ["", ""];
      assert Normalize([], [""]) == [];
    } else {
      SplitRenderFrom(p);
      NormalizeAppend([], [""], p);
      NormalizeCanonical([], p);
    }
  }

  /** Joining a plain name to a directory string resolves to that name inside the directory. */
  lemma ResolveJoin(cwd: Path, dir: string, name: string)
    requires IsName(name)
    ensures Resolve(cwd, JoinPath(dir, name)) == Resolve(cwd, dir) + [name]
  {
    assert name[0] in name;
    if dir == "" {
      assert JoinPath(dir, name) == name;
      SplitWithoutSep(name, '/');
      NormalizeCanonical(cwd, [name]);
      assert Split("", '/') == [""];
      assert Normalize(cwd, [""]) == cwd;
    } else {
      var base := if dir[0] == '/' then [] else cwd;
      var head := if dir[|dir| - 1] == '/' then dir[..|dir| - 1] else dir;
      assert JoinPath(dir, name) == head + ['/'] + name;
      ResolveTrailingSlash(cwd, dir, head, base);
      ResolveHeadAndName(cwd, dir, head, base, name);
    }
  }

  /** One trailing `/` does not change what a directory string resolves to. */
  lemma ResolveTrailingSlash(cwd: Path, dir: string, head: string, base: Path)
    requires dir != "" && head == (if dir[|dir| - 1] == '/' then dir[..|dir| - 1] else dir)
    requires base == (if dir[0] == '/' then [] else cwd)
    ensures Resolve(cwd, dir) == Normalize(base, Split(head, '/'))
  {
    if dir[|dir| - 1] == '/' {
      assert dir == head + ['/'] + "";
      SplitAround(head, '/', "");
      assert Split("", '/') == [""];
      NormalizeAppend(base, Split(head, '/'), [""]);
    }
  }

  /** `head/name` resolves to `name` inside what `head` resolves to. */
  lemma ResolveHeadAndName(cwd: Path, dir: string, head: string, base: Path, name: string)
    requires IsName(name) && dir != "" && head == (if dir[|dir| - 1] == '/' then dir[..|dir| - 1] else dir)
    requires base == (if dir[0] == '/' then [] else cwd)
    ensures Resolve(cwd, head + ['/'] + name) == Normalize(base, Split(head, '/')) + [name]
  {
    var joined := head + ['/'] + name;
    assert joined[0] == dir[0] by {
      if head == "" { assert dir == "/"; } else { assert joined[0] == head[0] == dir[0]; }
    }
    SplitWithoutSep(name, '/');
    SplitAround(head, '/', name);
    NormalizeAppend(base, Split(head, '/'), [name]);
    NormalizeCanonical(Normalize(base, Split(head, '/')), [name]);
  }


  // ---------------------------------------------------------------------
  // Directories

  lemma {:induction false} AncestorsAreDirs(fs: FileSystem, p: Path, k: nat)
    requires WellFormed(fs) && p in fs && k < |p|
    ensures IsDir(fs, p[..k])
    decreases |p|
  {
    var parent := p[..|p| - 1];
    if k < |parent| {
      AncestorsAreDirs(fs, parent, k);
      assert parent[..k] == p[..k];
    }
  }

  /** The conditions `tempfile.mkdtemp` guarantees for a scratch directory. */
  predicate FreshScratch(fs: FileSystem, tmp: Path) {
    tmp != [] && tmp !in fs && IsDir(fs, tmp[..|tmp| - 1])
  }

  /** A fresh scratch path: it does not exist, and no path lies below it. */
  lemma FreshHasNothingBelow(fs: FileSystem, tmp: Path)
    requires WellFormed(fs) && tmp !in fs
    ensures forall q :: q in fs ==> !Under(q, tmp)
  {
    forall q | q in fs
      ensures !Under(q, tmp)
    {
      if |q| > |tmp| {
        AncestorsAreDirs(fs, q, |tmp|);
      } else {
        assert q[..|q|] == q;
      }
    }
  }

  /** `os.makedirs(p, exist_ok=True)` */
  function MakeDirs(fs: FileSystem, p: Path): (r: Result<FileSystem, FsError>)
    ensures r.Ok? ==> IsDir(r.value, p)
    ensures r.Ok? ==> forall q :: q in fs ==> q in r.value && r.value[q] == fs[q]
    ensures r.Ok? ==> forall q :: q in r.value && q !in fs ==> Under(p, q) && r.value[q] == Dir
    decreases |p|
  {
    if p == [] then (if IsDir(fs, []) then Ok(fs) else Err(AlreadyExists))
    else
      var parent := p[..|p| - 1];
      var made := if parent in fs then Ok(fs) else MakeDirs(fs, parent);
      match made
      case Err(e) => Err(e)
      case Ok(fs') =>
        if p in fs' then (if fs'[p].Dir? then Ok(fs') else Err(AlreadyExists))
        else if IsDir(fs', parent) then Ok(fs'[p := Dir])
        else Err(NotADirectory)
  }

  lemma {:induction false} MakeDirsWellFormed(fs: FileSystem, p: Path)
    requires WellFormed(fs) && MakeDirs(fs, p).Ok?
    ensures WellFormed(MakeDirs(fs, p).value)
    decreases |p|
  {
    if p != [] {
      var parent := p[..|p| - 1];
      if parent !in fs {
        MakeDirsWellFormed(fs, parent);
      }
      var made := if parent in fs then fs else MakeDirs(fs, parent).value;
      assert WellFormed(made);
      if p !in made {
        AddDirKeepsWellFormed(made, p);
      }
    }
  }

  /** `exist_ok=True`: making a directory that already exists changes nothing. */
  lemma MakeDirsExisting(fs: FileSystem, p: Path)
    requires WellFormed(fs) && IsDir(fs, p)
    ensures MakeDirs(fs, p) == Ok(fs)
  {
  }

  /** Making the directories again after a success changes nothing more. */
  lemma MakeDirsIdempotent(fs: FileSystem, p: Path)
    requires WellFormed(fs) && MakeDirs(fs, p).Ok?
    ensures MakeDirs(MakeDirs(fs, p).value, p) == MakeDirs(fs, p)
  {
    MakeDirsWellFormed(fs, p);
    MakeDirsExisting(MakeDirs(fs, p).value, p);
  }

  lemma AddDirKeepsWellFormed(fs: FileSystem, p: Path)
    requires WellFormed(fs) && p != [] && IsDir(fs, p[..|p| - 1])
    ensures WellFormed(fs[p := Dir])
  {
  }

  /** `os.makedirs` fails exactly when the path or one of its ancestors is a file. */
  lemma {:induction false} MakeDirsFails(fs: FileSystem, p: Path)
    requires WellFormed(fs)
    ensures MakeDirs(fs, p).Ok? <==> forall k :: 0 < k <= |p| ==> !IsFile(fs, p[..k])
    decreases |p|
  {
    if p != [] {
      var parent := p[..|p| - 1];
      if parent in fs {
        MakeDirsBelowExisting(fs, p);
      } else {
        MakeDirsFails(fs, parent);
        MakeDirsBelowMissing(fs, p);
      }
    }
  }

  /** The step of `MakeDirsFails` when the parent exists. */
  lemma MakeDirsBelowExisting(fs: FileSystem, p: Path)
    requires WellFormed(fs) && p != [] && p[..|p| - 1] in fs
    ensures MakeDirs(fs, p).Ok? <==> forall k :: 0 < k <= |p| ==> !IsFile(fs, p[..k])
  {
    var parent := p[..|p| - 1];
    assert p[..|p|] == p;
    forall k | 0 < k < |p|
      ensures IsDir(fs, parent) ==> !IsFile(fs, p[..k])
    {
      if IsDir(fs, parent) && k < |parent| {
        AncestorsAreDirs(fs, parent, k);
        assert parent[..k] == p[..k];
      }
      assert k == |parent| ==> parent == p[..k];
    }
    if !IsDir(fs, parent) {
      assert parent == p[..|p| - 1] && IsFile(fs, parent);
    }
  }

  /** The step of `MakeDirsFails` when the parent is missing, given the claim for the parent. */
  lemma MakeDirsBelowMissing(fs: FileSystem, p: Path)
    requires WellFormed(fs) && p != [] && p[..|p| - 1] !in fs
    requires var parent := p[..|p| - 1];
      MakeDirs(fs, parent).Ok? <==> forall k :: 0 < k <= |parent| ==> !IsFile(fs, parent[..k])
    ensures MakeDirs(fs, p).Ok? <==> forall k :: 0 < k <= |p| ==> !IsFile(fs, p[..k])
  {
    var parent := p[..|p| - 1];
    assert p[..|p|] == p;
    forall k | 0 < k < |p|
      ensures p[..k] == parent[..k]
    {
    }
    assert p in fs ==> IsDir(fs, parent);
  }

  // ---------------------------------------------------------------------
  // Files

  /** `open(p, 'rb').read()` */
  function ReadFile(fs: FileSystem, p: Path): (r: Result<seq<byte>, FsError>)
    ensures r.Ok? <==> IsFile(fs, p)
    ensures r.Ok? ==> fs[p] == File(r.value)
  {
    if IsFile(fs, p) then Ok(fs[p].data)
    else if p in fs then Err(IsADirectory)
    else Err(NotFound)
  }

  /** `open(p, 'w').write(data)`: creates or truncates a file in an existing directory. */
  function WriteFile(fs: FileSystem, p: Path, data: seq<byte>): (r: Result<FileSystem, FsError>)
    ensures r.Ok? <==> p != [] && !IsDir(fs, p) && IsDir(fs, p[..|p| - 1])
    ensures r.Ok? ==> r.value == fs[p := File(data)]
    ensures WellFormed(fs) && r.Ok? ==> WellFormed(r.value)
  {
    if p == [] || IsDir(fs, p) then Err(IsADirectory)
    else if p[..|p| - 1] !in fs then Err(NotFound)
    else if !IsDir(fs, p[..|p| - 1]) then Err(NotADirectory)
    else Ok(fs[p := File(data)])
  }

  /** `shutil.rmtree(root)`: `root` and everything below it disappear, nothing else changes. */
  function RemoveTree(fs: FileSystem, root: Path): (r: FileSystem)
    ensures forall q :: q in r <==> q in fs && !Under(q, root)
    ensures forall q :: q in r ==> r[q] == fs[q]
    ensures WellFormed(fs) && root != [] ==> WellFormed(r)
  {
    var r := map q | q in fs && !Under(q, root) :: fs[q];
    assert WellFormed(fs) && root != [] ==> WellFormed(r) by {
      if WellFormed(fs) && root != [] {
        forall q | q in r && q != []
          ensures IsDir(r, q[..|q| - 1])
        {
          UnderParent(q, root);
        }
      }
    }
    r
  }

  lemma UnderParent(q: Path, root: Path)
    requires q != []
    ensures Under(q[..|q| - 1], root) ==> Under(q, root)
  {
    if Under(q[..|q| - 1], root) {
      assert q[..|root|] == q[..|q| - 1][..|root|];
    }
  }

  /** Removing a scratch tree takes away exactly what was added below it. */
  lemma RemoveAdded(fs: FileSystem, added: FileSystem, root: Path)
    requires forall q :: q in fs ==> !Under(q, root)
    requires forall q :: q in added ==> Under(q, root)
    ensures RemoveTree(fs + added, root) == fs
  {
  }

  /** Removing `root` from a tree that only grew below `root`, and perhaps at `p`, leaves the old tree with `p`'s new entry. */
  lemma RemoveGrown(fs: FileSystem, grown: FileSystem, root: Path, p: Option<Path>)
    requires forall q :: q in fs ==> !Under(q, root) && q in grown && (Some(q) != p ==> grown[q] == fs[q])
    requires forall q :: q in grown && q !in fs && Some(q) != p ==> Under(q, root)
    requires p.Some? ==> p.value in grown && !Under(p.value, root)
    ensures RemoveTree(grown, root) == if p.Some? then fs[p.value := grown[p.value]] else fs
  {
    var r := RemoveTree(grown, root);
    var expected := if p.Some? then fs[p.value := grown[p.value]] else fs;
    forall q
      ensures q in r <==> q in expected
      ensures q in r ==> r[q] == expected[q]
    {
    }
  }

  // ---------------------------------------------------------------------
  // Copies

  /** The paths at or below `from` in `fs`, moved below `to`. */
  function Moved(fs: FileSystem, from: Path, to: Path): (r: set<Path>)
    ensures forall q :: q in r ==> Under(q, to) && from + q[|to|..] in fs
  {
    var r := set p | p in fs && Under(p, from) :: to + p[|from|..];
    assert forall q :: q in r ==> Under(q, to) && from + q[|to|..] in fs by {
      forall q | q in r
        ensures Under(q, to) && from + q[|to|..] in fs
      {
        var p :| p in fs && Under(p, from) && q == to + p[|from|..];
        assert q[|to|..] == p[|from|..];
        assert p == from + p[|from|..];
      }
    }
    r
  }

  /** `shutil.copytree(from, to)`, and `shutil.copy2` when `from` is a file: the new entries only. */
  function CopyTree(fs: FileSystem, from: Path, to: Path): FileSystem
  {
    map q | q in Moved(fs, from, to) :: fs[from + q[|to|..]]
  }

  /** What `CopyTree` holds at a path: the node found at the matching path below `from`. */
  lemma CopyTreeAt(fs: FileSystem, from: Path, to: Path, q: Path)
    ensures q in CopyTree(fs, from, to) <==> Under(q, to) && from + q[|to|..] in fs
    ensures q in CopyTree(fs, from, to) ==> CopyTree(fs, from, to)[q] == fs[from + q[|to|..]]
  {
    if Under(q, to) && from + q[|to|..] in fs {
      var p := from + q[|to|..];
      assert Under(p, from);
      assert to + p[|from|..] == q;
    }
  }

  /** `os.listdir(dir)` as a set of names. */
  function Children(fs: FileSystem, dir: Path): (names: set<string>)
    ensures forall n :: n in names <==> dir + [n] in fs
  {
    var names := set p | p in fs && |p| == |dir| + 1 && p[..|dir|] == dir :: p[|dir|];
    assert forall n :: dir + [n] in fs ==> n in names by {
      forall n | dir + [n] in fs
        ensures n in names
      {
        var p := dir + [n];
        assert p[..|dir|] == dir && p[|dir|] == n;
      }
    }
    assert forall n :: n in names ==> dir + [n] in fs by {
      forall n | n in names
        ensures dir + [n] in fs
      {
        var p :| p in fs && |p| == |dir| + 1 && p[..|dir|] == dir && p[|dir|] == n;
        assert p == dir + [n];
      }
    }
    names
  }

  /** The machine's disk, shared by every command, and the process's working directory. */
  class Disk {
    var files: FileSystem
    const cwd: Path

    predicate Valid()
      reads this
    {
      WellFormed(files) && IsCanonical(cwd)
    }

    constructor (files: FileSystem, cwd: Path)
      requires WellFormed(files) && IsCanonical(cwd)
      ensures Valid() && this.files == files && this.cwd == cwd
    {
      this.files := files;
      this.cwd := cwd;
    }
  }
}
