/**
 * `Dropped`, the `drop` command: each named item's record is fetched, its
 * `item_bytestring` decoded from hex and then from UTF-8, and the text written
 * to `<item_name>.py` in the working directory. Nothing in the loop catches
 * an exception, so the first failure ends the command.
 *
 * The inventory search is the function `lookup` from an item name to the
 * record's `item_bytestring`; the PATCH request that follows is not modelled.
 */
module Drop {
  import opened Wrappers
  import opened Bytes
  import opened Files
  import Hex
  import Utf8
  import Acquire

  /** Why `__convert_to_py_file` raises. */
  datatype ConvertError =
    | NotHex(cause: Hex.HexError)   // `ValueError` from `bytes.fromhex`
    | NotUtf8                       // `UnicodeDecodeError` from `.decode('utf-8')`

  /** `bytes.fromhex(item_binary).decode('utf-8')` */
  function Convert(itemBinary: string): (r: Result<string, ConvertError>)
    ensures r.Ok? ==> Hex.Decode(itemBinary).Ok? && Utf8.Encode(r.value) == Hex.Decode(itemBinary).value
  {
    match Hex.Decode(itemBinary)
    case Err(e) => Err(NotHex(e))
    case Ok(bytes) =>
      match Utf8.Decode(bytes)
      case None => Err(NotUtf8)
      case Some(source) =>
        Utf8.EncodeDecode(bytes);
        Ok(source)
  }

  /** Conversion inverts hex over UTF-8: the source comes back. */
  lemma ConvertEncoded(source: string)
    ensures Convert(Hex.Encode(Utf8.Encode(source))) == Ok(source)
  {
    Hex.DecodeEncode(Utf8.Encode(source));
    Utf8.DecodeEncode(source);
  }

  /** An odd number of hex digits makes the conversion raise `ValueError`. */
  lemma ConvertOddDigits(s: string)
    requires Hex.AllHexDigits(s) && |s| % 2 == 1
    ensures Convert(s) == Err(NotHex(Hex.NonHexAt(|s|)))
  {
    Hex.OddDigitsFail(s);
  }

  /** A character that is neither a hex digit nor whitespace makes the conversion raise `ValueError`. */
  lemma ConvertNonHex(s: string, i: nat)
    requires i < |s| && !Hex.IsHexDigit(s[i]) && !Hex.IsAsciiSpace(s[i])
    ensures Convert(s).Err? && Convert(s).error.NotHex?
  {
    Hex.NonHexFails(s, i);
  }

  /** Hex text of bytes that are not UTF-8 makes the conversion raise `UnicodeDecodeError`. */
  lemma ConvertNotUtf8(b: seq<byte>)
    requires Utf8.Decode(b).None?
    ensures Convert(Hex.Encode(b)) == Err(NotUtf8)
  {
    Hex.DecodeEncode(b);
  }

  /**
   * What a drop makes of what an acquisition sent: the payload is hex over a
   * zip archive, so the conversion decodes the archive's bytes as UTF-8, not
   * the source the archive holds.
   */
  lemma ConvertAcquired(name: string, binary: seq<byte>, zip: Acquire.Zipper)
    ensures var archive := zip(name, binary);
      Convert(Acquire.Compress(name, binary, zip)) ==
        if Utf8.Decode(archive).Some? then Ok(Utf8.Decode(archive).value) else Err(NotUtf8)
    ensures Convert(Acquire.Compress(name, binary, zip)).Ok? ==>
      Utf8.Encode(Convert(Acquire.Compress(name, binary, zip)).value) == zip(name, binary)
  {
    Acquire.CompressDecodes(name, binary, zip);
  }

  /** Why dropping one item raises. */
  datatype DropError =
    | NoBytestring                  // the record has no `item_bytestring`
    | Undecodable(cause: ConvertError)
    | WriteFailed(reason: FsError)   // `open(f"{item_name}.py", "w")`

  /** The file `__drop_item` writes. */
  function TargetOf(cwd: Path, name: string): Path {
    Resolve(cwd, name + ".py")
  }

  /** `__drop_item(item_name)`: the disk after writing the decoded source, or the exception. */
  function DropOne(fs: FileSystem, cwd: Path, name: string, lookup: string -> Option<string>): (r: Result<FileSystem, DropError>)
    ensures r.Ok? <==> lookup(name).Some? && Convert(lookup(name).value).Ok?
                       && WriteFile(fs, TargetOf(cwd, name), Utf8.Encode(Convert(lookup(name).value).value)).Ok?
    ensures r.Ok? ==> r.value == fs[TargetOf(cwd, name) := File(Utf8.Encode(Convert(lookup(name).value).value))]
  {
    match lookup(name)
    case None => Err(NoBytestring)
    case Some(itemBinary) =>
      match Convert(itemBinary)
      case Err(e) => Err(Undecodable(e))
      case Ok(source) =>
        match WriteFile(fs, TargetOf(cwd, name), Utf8.Encode(source))
        case Err(e) => Err(WriteFailed(e))
        case Ok(written) => Ok(written)
  }

  /** The disk after the loop, and the exception that ended it, if any. */
  datatype Dropping = Dropping(files: FileSystem, error: Option<DropError>)

  /** `Dropped(item_names)`: the names one at a time, in order, up to the first exception. */
  function DropAll(fs: FileSystem, cwd: Path, names: seq<string>, lookup: string -> Option<string>): Dropping
    decreases |names|
  {
    if names == [] then Dropping(fs, None)
    else
      match DropOne(fs, cwd, names[0], lookup)
      case Err(e) => Dropping(fs, Some(e))
      case Ok(fs') => DropAll(fs', cwd, names[1..], lookup)
  }

  /** Dropping `xs + ys` is dropping `xs` and then, unless that raised, `ys`. */
  lemma {:induction false} DropAllAppend(fs: FileSystem, cwd: Path, xs: seq<string>, ys: seq<string>,
                                        lookup: string -> Option<string>)
    ensures var first := DropAll(fs, cwd, xs, lookup);
      DropAll(fs, cwd, xs + ys, lookup) ==
        if first.error.Some? then first else DropAll(first.files, cwd, ys, lookup)
    decreases |xs|
  {
    if xs == [] {
      assert xs + ys == ys;
    } else {
      assert (xs + ys)[0] == xs[0] && (xs + ys)[1..] == xs[1..] + ys;
      match DropOne(fs, cwd, xs[0], lookup)
      case Err(e) =>
      case Ok(fs') => DropAllAppend(fs', cwd, xs[1..], ys, lookup);
    }
  }

  /** Only the items' own files change; every other path keeps its node. */
  lemma {:induction false} DropAllTouchesOnlyTargets(fs: FileSystem, cwd: Path, names: seq<string>,
                                                    lookup: string -> Option<string>, q: Path)
    requires forall i :: 0 <= i < |names| ==> q != TargetOf(cwd, names[i])
    ensures q in DropAll(fs, cwd, names, lookup).files <==> q in fs
    ensures q in fs ==> DropAll(fs, cwd, names, lookup).files[q] == fs[q]
    decreases |names|
  {
    if names != [] {
      match DropOne(fs, cwd, names[0], lookup)
      case Err(e) =>
      case Ok(fs') =>
        assert q != TargetOf(cwd, names[0]);
        DropAllTouchesOnlyTargets(fs', cwd, names[1..], lookup, q);
    }
  }

  /** When the loop finishes, the last name's file holds exactly its decoded source. */
  lemma DropAllLast(fs: FileSystem, cwd: Path, names: seq<string>, name: string, lookup: string -> Option<string>)
    requires DropAll(fs, cwd, names + [name], lookup).error.None?
    ensures lookup(name).Some? && Convert(lookup(name).value).Ok?
    ensures var files := DropAll(fs, cwd, names + [name], lookup).files;
      TargetOf(cwd, name) in files && files[TargetOf(cwd, name)] == File(Utf8.Encode(Convert(lookup(name).value).value))
  {
    DropAllAppend(fs, cwd, names, [name], lookup);
    var first := DropAll(fs, cwd, names, lookup);
    assert [name][1..] == [];
  }

  class Dropped {
    const disk: Disk

    constructor (disk: Disk)
      ensures this.disk == disk
    {
      this.disk := disk;
    }

    /** `__drop_item(item_name)`, with the record's `item_bytestring` as `lookup(item_name)`. */
    method DropItem(name: string, lookup: string -> Option<string>) returns (error: Option<DropError>)
      modifies disk
      ensures match DropOne(old(disk.files), disk.cwd, name, lookup)
        case Ok(fs) => error.None? && disk.files == fs
        case Err(e) => error == Some(e) && disk.files == old(disk.files)
    {
      var itemBinary := lookup(name);
      if itemBinary.None? {
        return Some(NoBytestring);
      }
      var source := Convert(itemBinary.value);
      if source.Err? {
        return Some(Undecodable(source.error));
      }
      var written := WriteFile(disk.files, TargetOf(disk.cwd, name), Utf8.Encode(source.value));
      if written.Err? {
        return Some(WriteFailed(written.error));
      }
      disk.files := written.value;
      return None;
    }

    /** The loop of `Dropped.__init__`: each name in turn; the first exception ends it. */
    method DropItems(names: seq<string>, lookup: string -> Option<string>) returns (error: Option<DropError>)
      modifies disk
      ensures DropAll(old(disk.files), disk.cwd, names, lookup) == Dropping(disk.files, error)
    {
      var i := 0;
      while i < |names|
        invariant i <= |names|
        invariant DropAll(old(disk.files), disk.cwd, names, lookup) == DropAll(disk.files, disk.cwd, names[i..], lookup)
      {
        assert names[i..][0] == names[i] && names[i..][1..] == names[i + 1..];
        error := DropItem(names[i], lookup);
        if error.Some? {
          return;
        }
        i := i + 1;
      }
      return None;
    }
  }
}
