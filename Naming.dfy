/**
 * `snake_to_camel`, which Packager.py and Create.py both define with the same
 * body: split on `_` and join the capitalised pieces.
 */
module Naming {
  import opened Text

  function CapitalizeAll(parts: seq<string>): (r: seq<string>)
    ensures |r| == |parts|
  {
    if parts == [] then [] else [Capitalize(parts[0])] + CapitalizeAll(parts[1..])
  }

  /** `''.join(word.capitalize() for word in name.split('_'))` */
  function SnakeToCamel(name: string): string
  {
    Concat(CapitalizeAll(Split(name, '_')))
  }

  /**
   * Reference definition, character by character: every `_` is dropped, and
   * every other character is upper-cased when it begins the name or follows a
   * `_` (`atStart`), and lower-cased otherwise.
   */
  function CamelCase(s: string, atStart: bool): string
  {
    if s == [] then []
    else if s[0] == '_' then CamelCase(s[1..], true)
    else [if atStart then UpperChar(s[0]) else LowerChar(s[0])] + CamelCase(s[1..], false)
  }

  lemma {:induction false} CamelCaseOfPieces(s: string, atStart: bool)
    ensures var parts := Split(s, '_');
      CamelCase(s, atStart)
      == (if atStart then Capitalize(parts[0]) else Lower(parts[0])) + Concat(CapitalizeAll(parts[1..]))
    decreases |s|
  {
    if s != [] {
      var rest := Split(s[1..], '_');
      if s[0] == '_' {
        CamelCaseOfPieces(s[1..], true);
        assert Split(s, '_') == [""] + rest;
        assert ([""] + rest)[1..] == rest;
        assert rest == [rest[0]] + rest[1..];
      } else {
        CamelCaseOfPieces(s[1..], false);
        var parts := Split(s, '_');
        assert parts == [[s[0]] + rest[0]] + rest[1..];
        assert parts[0][1..] == rest[0];
        assert parts[1..] == rest[1..];
      }
    }
  }

  /** `snake_to_camel` agrees with the character-by-character reference definition. */
  lemma SnakeToCamelIsCamelCase(name: string)
    ensures SnakeToCamel(name) == CamelCase(name, true)
  {
    var parts := Split(name, '_');
    CamelCaseOfPieces(name, true);
    assert parts == [parts[0]] + parts[1..];
    assert CapitalizeAll(parts) == [Capitalize(parts[0])] + CapitalizeAll(parts[1..]);
  }

  lemma {:induction false} CamelCaseDropsUnderscores(s: string, atStart: bool)
    ensures var r := CamelCase(s, atStart);
      '_' !in r && |r| == |s| - Count(s, '_') && Lower(r) == Lower(RemoveChar(s, '_'))
    decreases |s|
  {
    if s != [] {
      CamelCaseDropsUnderscores(s[1..], s[0] == '_');
      if s[0] != '_' {
        var c := if atStart then UpperChar(s[0]) else LowerChar(s[0]);
        assert LowerChar(c) == LowerChar(s[0]);
        var tail := CamelCase(s[1..], false);
        assert Lower([c] + tail) == [LowerChar(c)] + Lower(tail);
        assert Lower([s[0]] + RemoveChar(s[1..], '_')) == [LowerChar(s[0])] + Lower(RemoveChar(s[1..], '_'));
      }
    }
  }

  /**
   * `snake_to_camel` removes every `_`, keeps every other character in order,
   * and changes nothing but letter case.
   */
  lemma SnakeToCamelRemovesUnderscores(name: string)
    ensures var r := SnakeToCamel(name);
      '_' !in r && |r| == |name| - Count(name, '_') && Lower(r) == Lower(RemoveChar(name, '_'))
  {
    SnakeToCamelIsCamelCase(name);
    CamelCaseDropsUnderscores(name, true);
  }

  lemma {:induction false} CamelCaseKeepsUncased(s: string, atStart: bool, c: char)
    requires !IsCased(c) && c != '_'
    ensures c in CamelCase(s, atStart) <==> c in s
    decreases |s|
  {
    if s != [] {
      CamelCaseKeepsUncased(s[1..], s[0] == '_', c);
      assert s == [s[0]] + s[1..];
      if s[0] != '_' {
        var d := if atStart then UpperChar(s[0]) else LowerChar(s[0]);
        assert d == c <==> s[0] == c;
      }
    }
  }

  /**
   * Characters that are neither letters nor `_` (such as `/`, `.` and `:`)
   * occur in the CamelCase name exactly when they occur in the snake_case one.
   */
  lemma SnakeToCamelKeepsUncased(name: string, c: char)
    requires !IsCased(c) && c != '_'
    ensures c in SnakeToCamel(name) <==> c in name
  {
    SnakeToCamelIsCamelCase(name);
    CamelCaseKeepsUncased(name, true, c);
  }
}
