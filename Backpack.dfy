/**
 * `BackpackSpec`, an item that holds other items: a list of item objects,
 * filled up to a capacity, emptied by module name.
 *
 * The items are `ItemSpec` objects, held by reference as the Python list
 * holds them. The backpack's own attributes, inherited from `ItemSpec`, are
 * the `ItemSpec` object `base`; `capacity` is looked up there first, so a
 * command-line flag named `capacity` shadows the class value with a string.
 */
module Backpack {
  import opened Wrappers
  import opened Files
  import opened Runtime
  import opened ItemSpec
  import opened Lists

  /** The class attribute `capacity`. */
  const ClassCapacity := 2

  /** The exception `len(contents) < capacity` raises when `capacity` is not a number. */
  datatype Raised = TypeError

  /** `item.modname == item_name` */
  predicate Matches(item: ItemSpec, name: string)
    reads item
  {
    "modname" in item.attrs && item.attrs["modname"] == Str(name)
  }

  /** The index of the first item whose module name is `name`, if there is one. */
  function FirstMatch(items: seq<ItemSpec>, name: string): (r: Option<nat>)
    reads set i | i in items
    ensures r.Some? ==> r.value < |items| && Matches(items[r.value], name)
    ensures r.Some? ==> forall j :: 0 <= j < r.value ==> !Matches(items[j], name)
    ensures r.None? ==> forall j :: 0 <= j < |items| ==> !Matches(items[j], name)
    decreases |items|
  {
    if items == [] then None
    else if Matches(items[0], name) then Some(0)
    else
      match FirstMatch(items[1..], name)
      case None => None
      case Some(k) => Some(k + 1)
  }

  /** The module names of `items`, in order. */
  function Modnames(items: seq<ItemSpec>): (names: seq<string>)
    requires forall i :: 0 <= i < |items| ==> items[i].Valid()
    reads set i | i in items
    ensures |names| == |items|
    ensures forall i :: 0 <= i < |items| ==> Matches(items[i], names[i])
  {
    if items == [] then []
    else
      assert items[0].Valid();
      [items[0].attrs["modname"].s] + Modnames(items[1..])
  }

  /** A new backpack's `capacity` is the class value, unless a flag of that name set a string. */
  lemma InitialCapacity(filename: string, flags: seq<(string, string)>, absolutePath: string)
    ensures var attrs := InitialAttrs(filename, flags, absolutePath, None);
      if LastFlag(flags, "capacity").Some?
      then "capacity" in attrs && attrs["capacity"] == Str(LastFlag(flags, "capacity").value)
      else "capacity" !in attrs
  {
    ApplyFlagsAt(Named(filename), flags, "capacity");
    InitialAt(filename, flags, absolutePath, None, "capacity");
  }

  class BackpackSpec {
    /** The attributes the backpack has as an `ItemSpec`. */
    const base: ItemSpec
    var contents: seq<ItemSpec>

    /** `self.capacity`: the instance attribute if there is one, else the class attribute. */
    function Capacity(): PyValue
      reads this, base
    {
      if "capacity" in base.attrs then base.attrs["capacity"] else Int(ClassCapacity)
    }

    /** Holding no more items than a numeric capacity allows. */
    predicate Bounded()
      reads this, base
    {
      Capacity().Int? ==> |contents| <= Capacity().i
    }

    predicate Valid()
      reads this, base, set i | i in contents
    {
      base.Valid() && (forall i :: 0 <= i < |contents| ==> contents[i].Valid()) && Bounded()
    }

    /**
     * `BackpackSpec(filename)`: `ItemSpec.__init__` without a metadata file,
     * then an empty list of contents.
     */
    constructor(filename: string, flags: seq<(string, string)>, absolutePath: string)
      ensures Valid() && fresh(base)
      ensures base.attrs == InitialAttrs(filename, flags, absolutePath, None)
      ensures contents == []
      ensures Capacity() == if LastFlag(flags, "capacity").Some? then Str(LastFlag(flags, "capacity").value) else Int(ClassCapacity)
    {
      base := new ItemSpec(filename, flags, absolutePath, map[], [], None, (p: Path, data) => Raised);
      contents := [];
      new;
      InitialCapacity(filename, flags, absolutePath);
    }

    /**
     * `add_item(item)`: appends and answers true while there is room, answers
     * false when full, and raises when the capacity is not a number.
     */
    method AddItem(item: ItemSpec) returns (r: Result<bool, Raised>)
      requires Valid() && item.Valid()
      modifies this
      ensures Valid()
      ensures !Capacity().Int? ==> r == Err(TypeError) && contents == old(contents)
      ensures Capacity().Int? && |old(contents)| < Capacity().i ==> r == Ok(true) && contents == old(contents) + [item]
      ensures Capacity().Int? && |old(contents)| >= Capacity().i ==> r == Ok(false) && contents == old(contents)
    {
      var capacity := Capacity();
      if !capacity.Int? {
        return Err(TypeError);
      }
      if |contents| < capacity.i {
        contents := contents + [item];
        return Ok(true);
      }
      return Ok(false);
    }

    /**
     * `remove_item(item_name)`: takes out and returns the first item whose
     * module name is `item_name`; with no such item, returns `None`.
     */
    method RemoveItem(name: string) returns (r: Option<ItemSpec>)
      requires Valid()
      modifies this
      ensures Valid()
      ensures FirstMatch(old(contents), name).None? ==> r.None? && contents == old(contents)
      ensures FirstMatch(old(contents), name).Some? ==>
        var i := FirstMatch(old(contents), name).value;
        r == Some(old(contents)[i]) && contents == old(contents)[..i] + old(contents)[i + 1..]
    {
      var i := 0;
      while i < |contents|
        invariant i <= |contents| && contents == old(contents)
        invariant forall j :: 0 <= j < i ==> !Matches(contents[j], name)
      {
        var item := contents[i];
        if item.attrs["modname"] == Str(name) {
          RemoveFirstAt(contents, i);
          contents := RemoveFirst(contents, item).value;
          return Some(item);
        }
        i := i + 1;
      }
      return None;
    }

    /** `list_contents()`: the module name of every item, in order. */
    function ListContents(): (names: seq<string>)
      requires Valid()
      reads this, base, set i | i in contents
      ensures |names| == |contents|
      ensures forall i :: 0 <= i < |contents| ==> Matches(contents[i], names[i])
    {
      Modnames(contents)
    }
  }

  /** An item named `name` can be removed exactly when `name` is listed. */
  lemma RemovableIffListed(b: BackpackSpec, name: string)
    requires b.Valid()
    ensures FirstMatch(b.contents, name).Some? <==> name in b.ListContents()
  {
    var names := b.ListContents();
    if name in names {
      var k :| 0 <= k < |names| && names[k] == name;
      assert Matches(b.contents[k], name);
    }
  }
}
