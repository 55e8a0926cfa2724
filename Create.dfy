/**
 * `Create.py`, the item-creation wizard: it normalises the item name, builds
 * the metadata record from the answers to its prompts (or from `--name` and
 * `--author` in non-interactive mode), and writes an item directory holding
 * `meta.yml`, `<item_name>.py` and `__init__.py`.
 *
 * The answers, the date and the price parser are parameters; the YAML text,
 * the module template and the `__init__.py` text are opaque strings.
 */
module Create {
  import opened Wrappers
  import opened Text
  import opened Files
  import opened Runtime
  import Naming
  import Utf8
  import Packager

  // ---------------------------------------------------------------------
  // Names

  /** A name that is already lower-case and has no spaces. */
  predicate Normalized(s: string) {
    forall i :: 0 <= i < |s| ==> s[i] != ' ' && !IsUpper(s[i])
  }

  /** `item_name.lower().replace(" ", "_")`: the directory name, and the non-interactive item name. */
  function DirName(itemName: string): (r: string)
    ensures |r| == |itemName|
    ensures Normalized(r)
  {
    ReplaceChar(Lower(itemName), ' ', '_')
  }

  /** A normalised name is its own directory name. */
  lemma NormalizedIsDirName(s: string)
    requires Normalized(s)
    ensures DirName(s) == s
  {
    var r := DirName(s);
    forall i | 0 <= i < |s|
      ensures r[i] == s[i]
    {
      assert Lower(s)[i] == LowerChar(s[i]) == s[i];
    }
  }

  /** Normalising twice is normalising once. */
  lemma DirNameIdempotent(s: string)
    ensures DirName(DirName(s)) == DirName(s)
  {
    NormalizedIsDirName(DirName(s));
  }

  /** The interactive item name: `.strip().lower().replace(" ", "_")`. */
  function PromptedName(answer: string): (r: string)
    ensures |r| == |Strip(answer)|
    ensures Normalized(r)
  {
    DirName(Strip(answer))
  }

  /** The class the generated module defines: `snake_to_camel(item_name)`. */
  function ClassName(itemName: string): (r: string)
    ensures '_' !in r
    ensures Lower(r) == Lower(RemoveChar(itemName, '_'))
  {
    Naming.SnakeToCamelRemovesUnderscores(itemName);
    Naming.SnakeToCamel(itemName)
  }

  /** The class name is never the item name when the item name begins with a lower-case letter or holds `_`. */
  lemma ClassNameDiffers(itemName: string)
    requires itemName != []
    requires IsLower(itemName[0]) || '_' in itemName
    ensures ClassName(itemName) != itemName
  {
    var r := ClassName(itemName);
    if '_' !in itemName {
      Naming.SnakeToCamelIsCamelCase(itemName);
      assert r[0] == UpperChar(itemName[0]);
    }
  }

  lemma MetaClassName()
    ensures ClassName("meta") != "meta"
  {
    ClassNameDiffers("meta");
  }

  /** The module file `create_item_module` writes. */
  function ModuleFile(itemName: string): (r: string)
    ensures EndsWith(r, ".py") && |r| == |itemName| + 3
    ensures '/' !in itemName ==> IsName(r)
  {
    var r := itemName + ".py";
    assert r[|r| - 3..] == ".py";
    assert '/' !in itemName ==> '/' !in r by {
      if '/' !in itemName {
        forall i | 0 <= i < |r|
          ensures r[i] != '/'
        {
          if i < |itemName| {
            assert r[i] == itemName[i];
          } else {
            assert r[i] == ".py"[i - |itemName|];
          }
        }
      }
    }
    assert r[0] in r;
    r
  }

  const MetaFile: string := "meta.yml"
  const InitFile: string := "__init__.py"

  lemma FixedNames()
    ensures IsName(MetaFile) && IsName(InitFile)
  {
    assert MetaFile[0] in MetaFile && InitFile[0] in InitFile;
  }

  /** `item_name.replace('_', ' ').title()`: the default display name. */
  function DefaultNiceName(itemName: string): (r: string)
    ensures |r| == |itemName|
  {
    Title(ReplaceChar(itemName, '_', ' '))
  }

  lemma {:induction false} LowerTitleFrom(s: string, afterCased: bool)
    ensures Lower(TitleFrom(s, afterCased)) == Lower(s)
    decreases |s|
  {
    if s != [] {
      LowerTitleFrom(s[1..], IsCased(if afterCased then LowerChar(s[0]) else UpperChar(s[0])));
      var c := if afterCased then LowerChar(s[0]) else UpperChar(s[0]);
      assert LowerChar(c) == LowerChar(s[0]);
      assert TitleFrom(s, afterCased) == [c] + TitleFrom(s[1..], IsCased(c));
      assert Lower([c] + TitleFrom(s[1..], IsCased(c))) == [LowerChar(c)] + Lower(TitleFrom(s[1..], IsCased(c)));
      assert s == [s[0]] + s[1..];
    }
  }

  /**
   * The default display name is the item name with `_` read as a space, up to
   * letter case, so normalising it gives the item name back.
   */
  lemma DefaultNiceNameRoundTrip(itemName: string)
    requires Normalized(itemName)
    ensures Lower(DefaultNiceName(itemName)) == ReplaceChar(itemName, '_', ' ')
    ensures DirName(DefaultNiceName(itemName)) == itemName
  {
    var spaced := ReplaceChar(itemName, '_', ' ');
    LowerTitleFrom(spaced, false);
    forall i | 0 <= i < |spaced|
      ensures Lower(spaced)[i] == spaced[i]
    {
    }
    var back := DirName(DefaultNiceName(itemName));
    forall i | 0 <= i < |itemName|
      ensures back[i] == itemName[i]
    {
      assert Lower(DefaultNiceName(itemName))[i] == spaced[i];
    }
  }

  // ---------------------------------------------------------------------
  // Categories

  /** An entry of the category list: not empty, no `,`, no surrounding whitespace. */
  predicate IsCategory(c: string) {
    c != "" && ',' !in c && Strip(c) == c
  }

  lemma StripUnchanged(s: string)
    requires s == [] || (!IsSpace(s[0]) && !IsSpace(s[|s| - 1]))
    ensures Strip(s) == s
  {
    assert StripStart(s) == s;
  }

  lemma StripIdempotent(s: string)
    ensures Strip(Strip(s)) == Strip(s)
  {
    StripUnchanged(Strip(s));
  }

  lemma StripWithin(s: string, c: char)
    ensures c in Strip(s) ==> c in s
  {
    var t := StripStart(s);
    assert Strip(s) == t[..|Strip(s)|];
    assert t == s[|s| - |t|..];
  }

  /** `[cat.strip() for cat in pieces if cat.strip()]` */
  function Kept(pieces: seq<string>): (r: seq<string>)
    ensures |r| <= |pieces|
    ensures (forall i :: 0 <= i < |pieces| ==> ',' !in pieces[i]) ==> forall i :: 0 <= i < |r| ==> IsCategory(r[i])
  {
    if pieces == [] then []
    else
      var c := Strip(pieces[0]);
      StripWithin(pieces[0], ',');
      StripIdempotent(pieces[0]);
      (if c != "" then [c] else []) + Kept(pieces[1..])
  }

  /** The category list of an answer: its comma-separated pieces, trimmed, empty ones dropped, in order. */
  function Categories(answer: string): (cats: seq<string>)
    ensures forall i :: 0 <= i < |cats| ==> IsCategory(cats[i])
    ensures |cats| <= Count(Strip(answer), ',') + 1
  {
    Kept(Split(Strip(answer), ','))
  }

  lemma {:induction false} KeptCategories(cats: seq<string>)
    requires forall i :: 0 <= i < |cats| ==> IsCategory(cats[i])
    ensures Kept(cats) == cats
    decreases |cats|
  {
    if cats != [] {
      StripUnchanged(cats[0]);
      KeptCategories(cats[1..]);
      assert cats == [cats[0]] + cats[1..];
    }
  }

  lemma {:induction false} JoinEnds(parts: seq<string>, sep: char)
    requires parts != [] && forall i :: 0 <= i < |parts| ==> parts[i] != ""
    ensures var j := Join(parts, sep);
      j != "" && j[0] == parts[0][0] && j[|j| - 1] == parts[|parts| - 1][|parts[|parts| - 1]| - 1]
    decreases |parts|
  {
    if |parts| > 1 {
      JoinEnds(parts[1..], sep);
    }
  }

  /** A category neither starts nor ends with whitespace. */
  lemma CategoryEnds(c: string)
    requires IsCategory(c)
    ensures !IsSpace(c[0]) && !IsSpace(c[|c| - 1])
  {
    var r := Strip(c);
    assert r == c;
  }

  /** Categories joined by commas have nothing to trim. */
  lemma JoinedCategoriesTrimmed(cats: seq<string>)
    requires cats != [] && IsCategory(cats[0]) && IsCategory(cats[|cats| - 1])
    requires forall i :: 0 <= i < |cats| ==> cats[i] != ""
    ensures Strip(Join(cats, ',')) == Join(cats, ',')
  {
    var first, last := cats[0], cats[|cats| - 1];
    CategoryEnds(first);
    CategoryEnds(last);
    JoinEnds(cats, ',');
    StripUnchanged(Join(cats, ','));
  }

  /** Entering a list of categories joined by commas gives that list back. */
  lemma CategoriesRoundTrip(cats: seq<string>)
    requires forall i :: 0 <= i < |cats| ==> IsCategory(cats[i])
    ensures Categories(Join(cats, ',')) == cats
  {
    if cats == [] {
      assert Strip("") == "";
      assert Split("", ',') == [""];
    } else {
      var j := Join(cats, ',');
      JoinedCategoriesTrimmed(cats);
      SplitJoin(cats, ',');
      KeptCategories(cats);
      assert Split(Strip(j), ',') == cats;
    }
  }

  /** A blank answer means no categories. */
  lemma BlankCategories(answer: string)
    requires Strip(answer) == ""
    ensures Categories(answer) == []
  {
    assert Split("", ',') == [""];
  }

  // ---------------------------------------------------------------------
  // The metadata record

  /**
   * The dict both modes build: the same seven keys every time, and `price`
   * only when the interactive answer parsed.
   */
  datatype Metadata = Metadata(name: string, niceName: string, author: string, version: string,
                               description: string, createdDate: string, categories: seq<string>,
                               price: Option<real>)

  /** The keys every record has, whichever way it was built. */
  const RecordKeys: set<string> := {"name", "nice_name", "author", "version", "description", "created_date", "categories"}

  /** The keys of the dict `yaml.dump` writes for a record. */
  function Keys(m: Metadata): set<string> {
    RecordKeys + (if m.price.Some? then {"price"} else {})
  }

  /** Every record has the seven keys, and `price` exactly when it holds a price. */
  lemma KeysOfRecord(m: Metadata)
    ensures RecordKeys <= Keys(m)
    ensures "price" in Keys(m) <==> m.price.Some?
  {
    assert "price" !in RecordKeys;
  }

  /** `answer.strip() or default` */
  function OrDefault(answer: string, default: string): (r: string)
    ensures Strip(answer) != "" ==> r == Strip(answer)
    ensures Strip(answer) == "" ==> r == default
  {
    if Strip(answer) != "" then Strip(answer) else default
  }

  /** `float(price_input)` when the trimmed answer is not blank; `parsePrice` is `None` where `float` raises. */
  function PriceOf(price: string, parsePrice: string -> Option<real>): Option<real>
  {
    if price != "" then parsePrice(price) else None
  }

  /** Why the wizard exits. */
  datatype CreateError =
    | NameRequired
    | AuthorRequired
    | DescriptionRequired
    | NameAndAuthorRequired   // non-interactive mode without `--name` or `--author`

  /** The wizard's answers, in the order it asks for them. */
  datatype Answers = Answers(name: string, author: string, version: string, niceName: string,
                             description: string, categories: string, price: string)

  /**
   * `prompt_user_for_metadata()`: the item name and its record, or the exit
   * for the first required answer left blank.
   */
  function Prompt(a: Answers, date: string, parsePrice: string -> Option<real>): (r: Result<(string, Metadata), CreateError>)
    ensures r.Ok? <==> Strip(a.name) != "" && Strip(a.author) != "" && Strip(a.description) != ""
    ensures Strip(a.name) == "" ==> r == Err(NameRequired)
    ensures Strip(a.name) != "" && Strip(a.author) == "" ==> r == Err(AuthorRequired)
    ensures Strip(a.name) != "" && Strip(a.author) != "" && Strip(a.description) == "" ==> r == Err(DescriptionRequired)
  {
    var itemName := PromptedName(a.name);
    if itemName == "" then Err(NameRequired)
    else if Strip(a.author) == "" then Err(AuthorRequired)
    else if Strip(a.description) == "" then Err(DescriptionRequired)
    else
      Ok((itemName, Metadata(itemName, OrDefault(a.niceName, DefaultNiceName(itemName)), Strip(a.author),
                             OrDefault(a.version, "1.0.0"), Strip(a.description), date, Categories(a.categories),
                             PriceOf(Strip(a.price), parsePrice))))
  }

  /**
   * What an accepted run of the wizard records: the seven keys, plus `price`
   * exactly when a price was given and parses; blank version and display
   * name take their defaults.
   */
  lemma PromptRecord(a: Answers, date: string, parsePrice: string -> Option<real>)
    requires Prompt(a, date, parsePrice).Ok?
    ensures var (itemName, meta) := Prompt(a, date, parsePrice).value;
      var price := Strip(a.price);
      var priced := price != "" && parsePrice(price).Some?;
      && itemName == PromptedName(a.name) && itemName != ""
      && (meta.price.Some? <==> priced)
      && (priced ==> meta.price == parsePrice(price))
      && meta.name == itemName
      && meta.author == Strip(a.author) != ""
      && meta.description == Strip(a.description) != ""
      && meta.createdDate == date
      && meta.version == (if Strip(a.version) == "" then "1.0.0" else Strip(a.version))
      && meta.niceName == (if Strip(a.niceName) == "" then DefaultNiceName(itemName) else Strip(a.niceName))
      && meta.categories == Categories(a.categories)
  {
    var itemName := PromptedName(a.name);
    var meta := Metadata(itemName, OrDefault(a.niceName, DefaultNiceName(itemName)), Strip(a.author),
                         OrDefault(a.version, "1.0.0"), Strip(a.description), date, Categories(a.categories),
                         PriceOf(Strip(a.price), parsePrice));
    assert Prompt(a, date, parsePrice) == Ok((itemName, meta));
  }

  /**
   * Non-interactive mode: `--name` and `--author` must both be given and not
   * empty; the name is lower-cased with spaces turned into `_` but not
   * trimmed, and the other fields are fixed.
   */
  function NonInteractive(name: Option<string>, author: Option<string>, date: string): (r: Result<(string, Metadata), CreateError>)
    ensures r.Ok? <==> name.Some? && name.value != "" && author.Some? && author.value != ""
    ensures r.Err? ==> r.error == NameAndAuthorRequired
    ensures r.Ok? ==> var (itemName, meta) := r.value;
      && itemName == DirName(name.value)
      && meta.price.None?
      && meta.name == itemName
      && meta.niceName == DefaultNiceName(itemName)
      && meta.author == author.value
      && meta.version == "1.0.0"
      && meta.description == "A " + itemName + " item"
      && meta.createdDate == date
      && meta.categories == []
  {
    if name.None? || name.value == "" || author.None? || author.value == "" then Err(NameAndAuthorRequired)
    else
      var itemName := DirName(name.value);
      Ok((itemName, Metadata(itemName, DefaultNiceName(itemName), author.value, "1.0.0", "A " + itemName + " item",
                             date, [], None)))
  }

  /**
   * The two modes agree: a trimmed name and author given on the command line
   * produce the record the wizard builds from those answers, blank version,
   * display name, categories and price, and the fixed description.
   */
  lemma ModesAgree(name: string, author: string, date: string, parsePrice: string -> Option<real>)
    requires name != "" && Strip(name) == name
    requires author != "" && Strip(author) == author
    ensures var itemName := DirName(name);
      NonInteractive(Some(name), Some(author), date)
      == Prompt(Answers(name, author, "", "", "A " + itemName + " item", "", ""), date, parsePrice)
  {
    var itemName := DirName(name);
    var description := "A " + itemName + " item";
    var a := Answers(name, author, "", "", description, "", "");
    DescriptionTrimmed(itemName);
    BlankAnswers(DefaultNiceName(itemName), parsePrice);
    assert PromptedName(a.name) == itemName;
    var meta := Metadata(itemName, DefaultNiceName(itemName), author, "1.0.0", description, date, [], None);
    assert Prompt(a, date, parsePrice) == Ok((itemName, meta));
  }

  lemma DescriptionTrimmed(itemName: string)
    ensures Strip("A " + itemName + " item") == "A " + itemName + " item" != ""
  {
    var description := "A " + itemName + " item";
    assert description[0] == 'A' && description[|description| - 1] == 'm';
    StripUnchanged(description);
  }

  /** What the wizard makes of answers left blank. */
  lemma BlankAnswers(niceName: string, parsePrice: string -> Option<real>)
    ensures Strip("") == ""
    ensures OrDefault("", niceName) == niceName && OrDefault("", "1.0.0") == "1.0.0"
    ensures Categories("") == [] && PriceOf(Strip(""), parsePrice) == None
  {
    assert Strip("") == "";
    BlankCategories("");
  }

  /** Both modes yield a non-empty, normalised item name, which is therefore its own directory name. */
  lemma ItemNameIsDirName(a: Answers, date: string, parsePrice: string -> Option<real>,
                          name: Option<string>, author: Option<string>)
    ensures Prompt(a, date, parsePrice).Ok? ==>
      var itemName := Prompt(a, date, parsePrice).value.0;
      itemName != "" && DirName(itemName) == itemName
    ensures NonInteractive(name, author, date).Ok? ==>
      var itemName := NonInteractive(name, author, date).value.0;
      itemName != "" && DirName(itemName) == itemName
  {
    if Prompt(a, date, parsePrice).Ok? {
      NormalizedIsDirName(PromptedName(a.name));
    }
    if NonInteractive(name, author, date).Ok? {
      DirNameIdempotent(name.value);
    }
  }

  // ---------------------------------------------------------------------
  // The item directory

  /**
   * `create_item_directory`, `create_meta_yaml`, `create_item_module` and
   * `create_init_file` in turn: the directory `DirName(itemName)` is made
   * relative to `cwd`, and the three texts are written into it as UTF-8.
   */
  function Scaffold(fs: FileSystem, cwd: Path, itemName: string, metaText: string, moduleText: string,
                    initText: string): (r: Result<FileSystem, FsError>)
  {
    var dirName := DirName(itemName);
    match MakeDirs(fs, Resolve(cwd, dirName))
    case Err(e) => Err(e)
    case Ok(made) =>
      match WriteFile(made, Resolve(cwd, JoinPath(dirName, MetaFile)), Utf8.Encode(metaText))
      case Err(e) => Err(e)
      case Ok(withMeta) =>
        match WriteFile(withMeta, Resolve(cwd, JoinPath(dirName, ModuleFile(itemName))), Utf8.Encode(moduleText))
        case Err(e) => Err(e)
        case Ok(withModule) => WriteFile(withModule, Resolve(cwd, JoinPath(dirName, InitFile)), Utf8.Encode(initText))
  }

  /** The three writes land in the new directory, under their own names. */
  lemma ScaffoldWrites(fs: FileSystem, cwd: Path, itemName: string, metaText: string, moduleText: string,
                       initText: string)
    requires '/' !in itemName
    requires Scaffold(fs, cwd, itemName, metaText, moduleText, initText).Ok?
    ensures var dir := Resolve(cwd, DirName(itemName));
      && MakeDirs(fs, dir).Ok?
      && Scaffold(fs, cwd, itemName, metaText, moduleText, initText).value
         == MakeDirs(fs, dir).value[dir + [MetaFile] := File(Utf8.Encode(metaText))]
                                   [dir + [ModuleFile(itemName)] := File(Utf8.Encode(moduleText))]
                                   [dir + [InitFile] := File(Utf8.Encode(initText))]
  {
    var dirName := DirName(itemName);
    var dir := Resolve(cwd, dirName);
    var made := MakeDirs(fs, dir);
    assert made.Ok?;
    var w1 := WriteFile(made.value, Resolve(cwd, JoinPath(dirName, MetaFile)), Utf8.Encode(metaText));
    assert w1.Ok?;
    var w2 := WriteFile(w1.value, Resolve(cwd, JoinPath(dirName, ModuleFile(itemName))), Utf8.Encode(moduleText));
    assert w2.Ok?;
    assert Scaffold(fs, cwd, itemName, metaText, moduleText, initText)
      == WriteFile(w2.value, Resolve(cwd, JoinPath(dirName, InitFile)), Utf8.Encode(initText));
    FixedNames();
    ResolveJoin(cwd, dirName, MetaFile);
    ResolveJoin(cwd, dirName, ModuleFile(itemName));
    ResolveJoin(cwd, dirName, InitFile);
  }

  /** The three files have different names, unless the item is called `__init__`. */
  lemma DistinctFiles(itemName: string)
    ensures ModuleFile(itemName) != MetaFile && InitFile != MetaFile
    ensures ModuleFile(itemName) == InitFile <==> itemName == "__init__"
  {
    var moduleFile := ModuleFile(itemName);
    assert moduleFile[|moduleFile| - 1] == 'y' && MetaFile[|MetaFile| - 1] == 'l';
    assert |InitFile| != |MetaFile|;
    if moduleFile == InitFile {
      assert itemName == moduleFile[..|itemName|] == InitFile[..8] == "__init__";
    }
  }

  lemma ChildInjective(dir: Path, f: string, g: string)
    ensures dir + [f] == dir + [g] <==> f == g
  {
    if dir + [f] == dir + [g] {
      assert (dir + [f])[|dir|] == f && (dir + [g])[|dir|] == g;
    }
  }

  /** Making a directory that did not exist leaves nothing inside it. */
  lemma MadeEmpty(fs: FileSystem, dir: Path, f: string)
    requires WellFormed(fs) && dir !in fs && MakeDirs(fs, dir).Ok?
    ensures dir + [f] !in MakeDirs(fs, dir).value
  {
    FreshHasNothingBelow(fs, dir);
    var q := dir + [f];
    assert q[..|dir|] == dir;
  }

  /**
   * A new item directory holds exactly `meta.yml`, `<item_name>.py` and
   * `__init__.py`, with the texts given; an item named `__init__` has its
   * module overwritten by the package file.
   */
  lemma ScaffoldLayout(fs: FileSystem, cwd: Path, itemName: string, metaText: string, moduleText: string,
                       initText: string, f: string)
    requires WellFormed(fs) && '/' !in itemName
    requires Resolve(cwd, DirName(itemName)) !in fs
    requires Scaffold(fs, cwd, itemName, metaText, moduleText, initText).Ok?
    ensures var dir := Resolve(cwd, DirName(itemName));
      var after := Scaffold(fs, cwd, itemName, metaText, moduleText, initText).value;
      && (dir + [f] in after <==> f == MetaFile || f == ModuleFile(itemName) || f == InitFile)
      && (f == MetaFile ==> dir + [f] in after && after[dir + [f]] == File(Utf8.Encode(metaText)))
      && (f == ModuleFile(itemName) && itemName != "__init__" ==>
            dir + [f] in after && after[dir + [f]] == File(Utf8.Encode(moduleText)))
      && (f == InitFile ==> dir + [f] in after && after[dir + [f]] == File(Utf8.Encode(initText)))
  {
    var dir := Resolve(cwd, DirName(itemName));
    ScaffoldWrites(fs, cwd, itemName, metaText, moduleText, initText);
    MadeEmpty(fs, dir, f);
    DistinctFiles(itemName);
    ThreeWrites(MakeDirs(fs, dir).value, dir, MetaFile, ModuleFile(itemName), InitFile,
                File(Utf8.Encode(metaText)), File(Utf8.Encode(moduleText)), File(Utf8.Encode(initText)), f);
  }

  /** Three files written into a directory that held none of them: a later write to the same name wins. */
  lemma ThreeWrites(made: FileSystem, dir: Path, a: string, b: string, c: string, na: Node, nb: Node, nc: Node, f: string)
    requires dir + [f] !in made && a != b && a != c
    ensures var after := made[dir + [a] := na][dir + [b] := nb][dir + [c] := nc];
      && (dir + [f] in after <==> f == a || f == b || f == c)
      && (f == a ==> dir + [f] in after && after[dir + [f]] == na)
      && (f == b && b != c ==> dir + [f] in after && after[dir + [f]] == nb)
      && (f == c ==> dir + [f] in after && after[dir + [f]] == nc)
  {
    ChildInjective(dir, f, a);
    ChildInjective(dir, f, b);
    ChildInjective(dir, f, c);
    ChildInjective(dir, a, b);
    ChildInjective(dir, a, c);
    ChildInjective(dir, b, c);
  }

  /** How the names `Packager` requires compare with the names `Create` writes. */
  lemma RequiredAgainstWritten(itemName: string, m: string)
    requires '_' !in m
    ensures "meta.py" != MetaFile && "meta.py" != InitFile
    ensures "meta.py" == ModuleFile(itemName) <==> itemName == "meta"
    ensures m + ".py" != MetaFile && m + ".py" != InitFile
    ensures m + ".py" == ModuleFile(itemName) <==> m == itemName
  {
    if "meta.py" == ModuleFile(itemName) {
      assert itemName == "meta.py"[..|itemName|];
    }
    var s := m + ".py";
    assert s[|s| - 1] == 'y';
    if m != [] {
      assert s[0] == m[0] && m[0] in m;
    }
    assert InitFile[0] == '_';
    if s == itemName + ".py" {
      assert m == s[..|m|];
      assert itemName == (itemName + ".py")[..|itemName|];
    }
  }

  /** `Packager` given the item directory's name derives the item's class name as its module name. */
  lemma PackagerModuleName(itemName: string)
    requires IsName(itemName) && '\\' !in itemName
    ensures StripEndOf(itemName, Packager.Separators) == itemName
    ensures Packager.ModuleNameOf(itemName) == ClassName(itemName)
  {
    assert itemName[|itemName| - 1] in itemName;
    LastFieldWhole(itemName, '/');
  }

  /**
   * What `Packager` makes of a directory `Create` has just made: it derives
   * the module name `ClassName(itemName)` and so looks for `meta.py` and
   * `<ClassName>.py`, while `Create` wrote `meta.yml` and `<item_name>.py`.
   * `meta.py` is reported missing unless the item is called `meta`, the
   * module file unless the class name equals the item name, and the check
   * never passes.
   */
  lemma PackagerRejectsScaffold(fs: FileSystem, cwd: Path, itemName: string, metaText: string, moduleText: string,
                                initText: string, run: Interpreter)
    requires WellFormed(fs) && IsName(itemName) && '\\' !in itemName && DirName(itemName) == itemName
    requires Resolve(cwd, itemName) !in fs
    requires Scaffold(fs, cwd, itemName, metaText, moduleText, initText).Ok?
    ensures var m := Packager.ModuleNameOf(itemName);
      var after := Scaffold(fs, cwd, itemName, metaText, moduleText, initText).value;
      var missing := (if itemName == "meta" then [] else ["meta.py"]) + (if m == itemName then [] else [m + ".py"]);
      && m == ClassName(itemName)
      && missing != []
      && Packager.ValidateStructure(after, Resolve(cwd, itemName), m, run) == Fail(Packager.MissingFiles(missing))
  {
    PackagerModuleName(itemName);
    var m := ClassName(itemName);
    var after := Scaffold(fs, cwd, itemName, metaText, moduleText, initText).value;
    var dir := Resolve(cwd, itemName);
    ScaffoldLayout(fs, cwd, itemName, metaText, moduleText, initText, "meta.py");
    ScaffoldLayout(fs, cwd, itemName, metaText, moduleText, initText, m + ".py");
    RequiredAgainstWritten(itemName, m);
    assert dir + ["meta.py"] !in after <==> itemName != "meta";
    assert dir + [m + ".py"] !in after <==> m != itemName;
    MetaClassName();
    Packager.ValidateReportsMissing(after, dir, m, run);
  }
}
