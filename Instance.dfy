/**
 * The command-line `Instance`: an item module imported by file name, checked
 * for a class of the same name that can be made, has `use`, and has
 * `ItemSpec` in its MRO, then turned into the record sent to the inventory.
 *
 * `importlib`, `inspect.getsource` and the class itself are abstract
 * (`Runtime`); the checks on them follow the code's order, including the
 * steps of `__init__` that still run after validation has failed.
 */
module Instance {
  import opened Wrappers
  import opened Bytes
  import opened Text
  import opened Files
  import opened Runtime
  import Base64
  import Utf8

  /** `filename.split(".")[0]` */
  function NameOf(filename: string): (name: string)
    ensures '.' !in name
  {
    FirstField(filename, '.')
  }

  /** A module file's name is its stem. */
  lemma NameOfFile(stem: string, ext: string)
    requires '.' !in stem
    ensures NameOf(stem + "." + ext) == stem
  {
    FirstFieldAt(stem, '.', ext);
  }

  /** A name without a dot is its own module name. */
  lemma NameOfModule(name: string)
    requires '.' !in name
    ensures NameOf(name) == name
  {
    FirstFieldWhole(name, '.');
  }

  /** `self.mod().use` succeeds and `ItemSpec in self.mod.__mro__`. */
  predicate Accepts(v: PyValue) {
    v.Class? && !v.info.initRaises && v.info.hasUse && v.info.itemSpecInMro
  }

  /** What `__validate_file` leaves behind: `obj` and `mod` when it got that far, and `valid`. */
  datatype Checked = Checked(obj: Option<PyModule>, mod: Option<PyValue>, valid: bool)

  /** `__validate_file` given the outcome of importing `name`. */
  function Validation(imported: ImportOutcome, name: string): (c: Checked)
    ensures c.obj.Some? <==> imported.Imported?
    ensures c.obj.Some? ==> c.obj.value == imported.loaded
    ensures c.mod.Some? <==> c.obj.Some? && name in c.obj.value.attrs
    ensures c.mod.Some? ==> c.mod.value == c.obj.value.attrs[name]
    ensures c.valid <==> c.mod.Some? && Accepts(c.mod.value)
  {
    if imported.ImportFailed? then Checked(None, None, false)
    else if name !in imported.loaded.attrs then Checked(Some(imported.loaded), None, false)
    else
      var m := imported.loaded.attrs[name];
      Checked(Some(imported.loaded), Some(m), Accepts(m))
  }

  /** Why `Instance(...)` itself raises, after validation has swallowed its own errors. */
  datatype Escape =
    | NoObject      // `inspect.getsource(self.object)` when the import failed
    | NoSource      // `inspect.getsource` finds no source text
    | NoMod         // `self.mod()` when the class lookup failed
    | NotCallable   // `self.mod()` on something that is not a class
    | InitRaises    // `self.mod()` raises

  /** The exception `inspect.getsource(self.object)` raises, if any. */
  function SourceEscape(obj: Option<PyModule>): Option<Escape> {
    if obj.None? then Some(NoObject)
    else if obj.value.source.None? then Some(NoSource)
    else None
  }

  /** The exception `instance = self.mod()` raises, if any. */
  function CallEscape(mod: Option<PyValue>): Option<Escape> {
    if mod.None? then Some(NoMod)
    else if !mod.value.Class? then Some(NotCallable)
    else if mod.value.info.initRaises then Some(InitRaises)
    else None
  }

  /** The exception that escapes `__init__` after validation left `c`, if any. */
  function Escaped(c: Checked): Option<Escape> {
    if SourceEscape(c.obj).Some? then SourceEscape(c.obj) else CallEscape(c.mod)
  }

  /** An import that fails escapes `__init__`: `valid` is never read. */
  lemma ImportFailureEscapes(imported: ImportOutcome, name: string)
    requires imported.ImportFailed?
    ensures Escaped(Validation(imported, name)) == Some(NoObject)
  {
  }

  /**
   * An instance that comes back invalid had its module imported and its class
   * looked up and made; only `use` or the MRO check failed.
   */
  lemma InvalidButReturned(imported: ImportOutcome, name: string)
    ensures var c := Validation(imported, name);
      Escaped(c).None? && !c.valid ==>
        imported.Imported? && name in imported.loaded.attrs && imported.loaded.source.Some?
        && var m := imported.loaded.attrs[name];
           m.Class? && !m.info.initRaises && (!m.info.hasUse || !m.info.itemSpecInMro)
  {
  }

  /** A valid module whose source can be found never escapes. */
  lemma ValidReturns(imported: ImportOutcome, name: string)
    requires Validation(imported, name).valid && imported.loaded.source.Some?
    ensures Escaped(Validation(imported, name)).None?
  {
  }

  // ---------------------------------------------------------------------
  // The transmit record

  /** The translation table; only its keys are used, as the loop tests `prop in to_transmit`. */
  const ToTransmit: map<string, string> :=
    map["modname" := "item_name", "volume" := "item_weight", "consumable" := "item_consumable"]

  /** `s.encode()` for text that is all ASCII. */
  function Ascii(s: string): (b: seq<byte>)
    requires forall i :: 0 <= i < |s| ==> s[i] as int < 128
    ensures |b| == |s| && forall i :: 0 <= i < |s| ==> b[i] == s[i] as int
  {
    if s == [] then [] else [s[0] as int] + Ascii(s[1..])
  }

  /** `base64.b64encode(bytes(source, "utf8"))`, as bytes. */
  function Bytestring(source: string): seq<byte> {
    var text := Base64.Encode(Utf8.Encode(source));
    assert forall i :: 0 <= i < |text| ==> text[i] as int < 128 by {
      forall i | 0 <= i < |text|
        ensures text[i] as int < 128
      {
        assert Base64.IsSymbol(text[i]) || text[i] == '=';
      }
    }
    Ascii(text)
  }

  /** The record before the loop: owner, quantity one, and the encoded source. */
  function BaseRecord(owner: Option<string>, source: string): map<string, PyValue> {
    map[
      "item_owner" := (if owner.Some? then Str(owner.value) else NoneValue),
      "item_qty" := Int(1),
      "item_bytestring" := ByteString(Bytestring(source))]
  }

  /** The loop over `dir(instance)`: every listed attribute that is a key of the table is copied. */
  function WithProperties(record: map<string, PyValue>, props: seq<(string, PyValue)>): (r: map<string, PyValue>)
    ensures record.Keys <= r.Keys
  {
    if props == [] then record
    else
      var (prop, value) := props[|props| - 1];
      var r := WithProperties(record, props[..|props| - 1]);
      if prop in ToTransmit then r[prop := value] else r
  }

  /** The value of the last attribute listed under `k`, if any. */
  function LastProperty(props: seq<(string, PyValue)>, k: string): (r: Option<PyValue>)
    ensures r.Some? <==> exists i :: 0 <= i < |props| && props[i].0 == k
  {
    if props == [] then None
    else if props[|props| - 1].0 == k then Some(props[|props| - 1].1)
    else
      var r := LastProperty(props[..|props| - 1], k);
      assert forall i :: 0 <= i < |props| - 1 ==> props[..|props| - 1][i] == props[i];
      r
  }

  /** After the loop, a key is present iff it was or it is a table key some attribute lists; that attribute's value wins. */
  lemma {:induction false} WithPropertiesAt(record: map<string, PyValue>, props: seq<(string, PyValue)>, k: string)
    ensures k in WithProperties(record, props) <==> k in record || (k in ToTransmit && LastProperty(props, k).Some?)
    ensures k in ToTransmit && LastProperty(props, k).Some? ==> WithProperties(record, props)[k] == LastProperty(props, k).value
    ensures (k !in ToTransmit || LastProperty(props, k).None?) && k in record ==> WithProperties(record, props)[k] == record[k]
    decreases |props|
  {
    if props != [] {
      WithPropertiesAt(record, props[..|props| - 1], k);
    }
  }

  /**
   * The record sent for an item: quantity one and the encoded source always,
   * the owner from the environment, and `modname`, `volume` and `consumable`
   * under their own names when the instance has them; the translated names
   * of the table never appear.
   */
  lemma TransmitRecord(owner: Option<string>, source: string, props: seq<(string, PyValue)>, k: string)
    ensures var r := WithProperties(BaseRecord(owner, source), props);
      && r["item_qty"] == Int(1)
      && r["item_bytestring"] == ByteString(Bytestring(source))
      && r["item_owner"] == (if owner.Some? then Str(owner.value) else NoneValue)
      && (k in r <==> k in {"item_owner", "item_qty", "item_bytestring"} || (k in ToTransmit && LastProperty(props, k).Some?))
      && (k in ToTransmit && LastProperty(props, k).Some? ==> r[k] == LastProperty(props, k).value)
      && "item_name" !in r && "item_weight" !in r && "item_consumable" !in r
  {
    var base := BaseRecord(owner, source);
    WithPropertiesAt(base, props, "item_qty");
    WithPropertiesAt(base, props, "item_bytestring");
    WithPropertiesAt(base, props, "item_owner");
    WithPropertiesAt(base, props, "item_name");
    WithPropertiesAt(base, props, "item_weight");
    WithPropertiesAt(base, props, "item_consumable");
    WithPropertiesAt(base, props, k);
  }

  /** The bytestring is base64 text that decodes to the UTF-8 bytes of the source, which decode back to it. */
  lemma BytestringCarriesSource(source: string)
    ensures var text := Base64.Encode(Utf8.Encode(source));
      && Bytestring(source) == Ascii(text)
      && Base64.Decode(text) == Some(Utf8.Encode(source))
      && Utf8.Decode(Utf8.Encode(source)) == Some(source)
  {
    Base64.DecodeEncode(Utf8.Encode(source));
    Utf8.DecodeEncode(source);
  }

  class Instance {
    var valid: bool
    var name: string
    /** `self.object`; `None` while the attribute is unset. */
    var obj: Option<PyModule>
    /** `self.mod`; `None` while the attribute is unset. */
    var mod: Option<PyValue>
    var source: string
    var transmit: map<string, PyValue>

    /** The obj as `__init__` starts: `valid` is set first, nothing else yet. */
    constructor ()
      ensures valid && obj.None? && mod.None? && transmit == map[]
    {
      valid := true;
      name := "";
      obj := None;
      mod := None;
      source := "";
      transmit := map[];
    }

    /** `__validate_file(filename)`: every failure is caught and clears `valid`. */
    method ValidateFile(filename: string, find: Finder, sysPath: seq<Path>, fs: FileSystem)
      requires obj.None? && mod.None?
      modifies this
      ensures name == NameOf(filename)
      ensures var c := Validation(ImportModule(find, sysPath, fs, name), name);
        obj == c.obj && mod == c.mod && valid == (old(valid) && c.valid)
      ensures source == old(source) && transmit == old(transmit)
    {
      name := NameOf(filename);
      var imported := ImportModule(find, sysPath, fs, name);
      if imported.ImportFailed? {
        valid := false;
        return;
      }
      obj := Some(imported.loaded);
      if name !in imported.loaded.attrs {
        valid := false;
        return;
      }
      var m := imported.loaded.attrs[name];
      mod := Some(m);
      if !m.Class? || m.info.initRaises || !m.info.hasUse {
        valid := false;
        return;
      }
      if !m.info.itemSpecInMro {
        valid := false;
      }
    }

    /** `self.source = inspect.getsource(self.object)` */
    method ReadSource() returns (e: Option<Escape>)
      modifies this
      ensures e == SourceEscape(obj)
      ensures e.None? ==> source == obj.value.source.value
      ensures e.Some? ==> source == old(source)
      ensures valid == old(valid) && name == old(name) && obj == old(obj) && mod == old(mod) && transmit == old(transmit)
    {
      if obj.None? {
        return Some(NoObject);
      }
      if obj.value.source.None? {
        return Some(NoSource);
      }
      source := obj.value.source.value;
      return None;
    }

    /** `__enumerate_properties()`, with `os.getenv("CHARNAME")` given as `owner`. */
    method EnumerateProperties(owner: Option<string>) returns (e: Option<Escape>)
      modifies this
      ensures e == CallEscape(mod)
      ensures e.Some? ==> transmit == BaseRecord(owner, source)
      ensures e.None? ==> transmit == WithProperties(BaseRecord(owner, source), mod.value.info.instanceDir)
      ensures valid == old(valid) && name == old(name) && obj == old(obj) && mod == old(mod) && source == old(source)
    {
      transmit := BaseRecord(owner, source);
      if mod.None? {
        return Some(NoMod);
      }
      if !mod.value.Class? {
        return Some(NotCallable);
      }
      if mod.value.info.initRaises {
        return Some(InitRaises);
      }
      var props := mod.value.info.instanceDir;
      var i := 0;
      while i < |props|
        invariant i <= |props|
        invariant transmit == WithProperties(BaseRecord(owner, source), props[..i])
        invariant valid == old(valid) && name == old(name) && obj == old(obj) && mod == old(mod) && source == old(source)
      {
        assert props[..i + 1][..i] == props[..i];
        var (prop, value) := props[i];
        if prop in ToTransmit {
          transmit := transmit[prop := value];
        }
        i := i + 1;
      }
      assert props[..i] == props;
      return None;
    }
  }

  /**
   * `Instance(filename)`: the obj, or the exception that escapes its
   * constructor. Everything `__validate_file` raises is caught; what
   * `getsource` and `self.mod()` raise afterwards is not.
   */
  method NewInstance(filename: string, find: Finder, sysPath: seq<Path>, fs: FileSystem, owner: Option<string>)
    returns (r: Result<Instance, Escape>)
    ensures var name := NameOf(filename);
      var c := Validation(ImportModule(find, sysPath, fs, name), name);
      && (r.Err? <==> Escaped(c).Some?)
      && (r.Err? ==> r.error == Escaped(c).value)
      && (r.Ok? ==>
            && fresh(r.value) && r.value.name == name && r.value.valid == c.valid
            && r.value.source == c.obj.value.source.value
            && r.value.transmit == WithProperties(BaseRecord(owner, r.value.source), c.mod.value.info.instanceDir))
  {
    var inst := new Instance();
    inst.ValidateFile(filename, find, sysPath, fs);
    var e := inst.ReadSource();
    if e.Some? {
      return Err(e.value);
    }
    e := inst.EnumerateProperties(owner);
    if e.Some? {
      return Err(e.value);
    }
    return Ok(inst);
  }
}
