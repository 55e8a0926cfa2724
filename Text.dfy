/**
 * The Python `str` operations the inventory code relies on: `lower`, `strip`,
 * `split`, `join`, `replace`, `capitalize`, `title`, `endswith`, `in`.
 * Case mapping is modelled for ASCII letters only; every other character is
 * its own upper and lower case.
 */
module Text {

  predicate IsUpper(c: char) { 'A' <= c <= 'Z' }

  predicate IsLower(c: char) { 'a' <= c <= 'z' }

  /** A cased character in the sense of `str.title`. */
  predicate IsCased(c: char) { IsUpper(c) || IsLower(c) }

  function LowerChar(c: char): (r: char)
    ensures !IsUpper(r)
    ensures IsCased(c) <==> IsCased(r)
  {
    if IsUpper(c) then (c as int + 32) as char else c
  }

  function UpperChar(c: char): (r: char)
    ensures !IsLower(r)
    ensures IsCased(c) <==> IsCased(r)
  {
    if IsLower(c) then (c as int - 32) as char else c
  }

  /** `str.isspace()`: the characters Python strips and splits on by default. */
  predicate IsSpace(c: char) {
    c == ' ' || '\t' <= c <= '\r' || '\U{1C}' <= c <= '\U{1F}' || c == '\U{85}' || c == '\U{A0}'
    || c == '\U{1680}' || '\U{2000}' <= c <= '\U{200A}' || c == '\U{2028}' || c == '\U{2029}'
    || c == '\U{202F}' || c == '\U{205F}' || c == '\U{3000}'
  }

  /** `s.lower()` */
  function Lower(s: string): (r: string)
    ensures |r| == |s|
    ensures forall i :: 0 <= i < |s| ==> r[i] == LowerChar(s[i])
  {
    if s == [] then [] else [LowerChar(s[0])] + Lower(s[1..])
  }

  /** `s.capitalize()`: the first character upper-cased, the rest lower-cased. */
  function Capitalize(s: string): (r: string)
    ensures |r| == |s|
  {
    if s == [] then [] else [UpperChar(s[0])] + Lower(s[1..])
  }

  /**
   * `s.title()`: a cased character is upper-cased when the character before it
   * is not cased, and lower-cased otherwise; `afterCased` says whether the
   * character before `s` was cased.
   */
  function TitleFrom(s: string, afterCased: bool): (r: string)
    ensures |r| == |s|
  {
    if s == [] then []
    else
      var c := if afterCased then LowerChar(s[0]) else UpperChar(s[0]);
      [c] + TitleFrom(s[1..], IsCased(c))
  }

  function Title(s: string): (r: string)
    ensures |r| == |s|
  {
    TitleFrom(s, false)
  }

  /** `s.replace(from, to)` for one-character `from` and `to`. */
  function ReplaceChar(s: string, from: char, to: char): (r: string)
    ensures |r| == |s|
    ensures forall i :: 0 <= i < |s| ==> r[i] == if s[i] == from then to else s[i]
  {
    if s == [] then [] else [if s[0] == from then to else s[0]] + ReplaceChar(s[1..], from, to)
  }

  /** `s.replace(c, "")` */
  function RemoveChar(s: string, c: char): (r: string)
    ensures c !in r
    ensures |r| == |s| - Count(s, c)
  {
    if s == [] then [] else (if s[0] == c then [] else [s[0]]) + RemoveChar(s[1..], c)
  }

  function Count(s: string, c: char): (n: nat)
    ensures n <= |s|
    ensures n == 0 <==> c !in s
  {
    if s == [] then 0 else (if s[0] == c then 1 else 0) + Count(s[1..], c)
  }

  /** `s.lstrip()` */
  function StripStart(s: string): (r: string)
    ensures |r| <= |s| && r == s[|s| - |r|..]
    ensures r == [] || !IsSpace(r[0])
    ensures forall i :: 0 <= i < |s| - |r| ==> IsSpace(s[i])
  {
    if s != [] && IsSpace(s[0]) then StripStart(s[1..]) else s
  }

  /** `s.rstrip()` */
  function StripEnd(s: string): (r: string)
    ensures |r| <= |s| && r == s[..|r|]
    ensures r == [] || !IsSpace(r[|r| - 1])
    ensures forall i :: |r| <= i < |s| ==> IsSpace(s[i])
  {
    if s != [] && IsSpace(s[|s| - 1]) then StripEnd(s[..|s| - 1]) else s
  }

  /** `s.strip()` */
  function Strip(s: string): (r: string)
    ensures r == [] || (!IsSpace(r[0]) && !IsSpace(r[|r| - 1]))
  {
    StripEnd(StripStart(s))
  }

  /** `s.rstrip(chars)` */
  function StripEndOf(s: string, chars: set<char>): (r: string)
    ensures |r| <= |s| && r == s[..|r|]
    ensures r == [] || r[|r| - 1] !in chars
    ensures forall i :: |r| <= i < |s| ==> s[i] in chars
  {
    if s != [] && s[|s| - 1] in chars then StripEndOf(s[..|s| - 1], chars) else s
  }

  /** `s.split(sep)` for a one-character separator. */
  function Split(s: string, sep: char): (parts: seq<string>)
    ensures |parts| == Count(s, sep) + 1
    ensures forall i :: 0 <= i < |parts| ==> sep !in parts[i]
  {
    if s == [] then [""]
    else
      var rest := Split(s[1..], sep);
      if s[0] == sep then [""] + rest else [[s[0]] + rest[0]] + rest[1..]
  }

  /** `sep.join(parts)` */
  function Join(parts: seq<string>, sep: char): string
  {
    if parts == [] then ""
    else if |parts| == 1 then parts[0]
    else parts[0] + [sep] + Join(parts[1..], sep)
  }

  /** `''.join(parts)` */
  function Concat(parts: seq<string>): string
  {
    if parts == [] then "" else parts[0] + Concat(parts[1..])
  }

  lemma {:induction false} JoinSplit(s: string, sep: char)
    ensures Join(Split(s, sep), sep) == s
    decreases |s|
  {
    if s != [] {
      var rest := Split(s[1..], sep);
      JoinSplit(s[1..], sep);
      if s[0] == sep {
        JoinCons("", rest, sep);
        assert Split(s, sep) == [""] + rest;
      } else {
        JoinHead(s[0], rest, sep);
        assert Split(s, sep) == [[s[0]] + rest[0]] + rest[1..];
      }
      assert s == [s[0]] + s[1..];
    }
  }

  /** Putting a character in front of the first piece puts it in front of the joined text. */
  lemma JoinHead(c: char, parts: seq<string>, sep: char)
    requires parts != []
    ensures Join([[c] + parts[0]] + parts[1..], sep) == [c] + Join(parts, sep)
  {
    if |parts| > 1 {
      JoinCons([c] + parts[0], parts[1..], sep);
      JoinCons(parts[0], parts[1..], sep);
      assert parts == [parts[0]] + parts[1..];
    }
  }

  /** Splitting pieces joined by a separator none of them holds gives the pieces back. */
  lemma {:induction false} SplitJoin(parts: seq<string>, sep: char)
    requires parts != []
    requires forall i :: 0 <= i < |parts| ==> sep !in parts[i]
    ensures Split(Join(parts, sep), sep) == parts
    decreases |parts|
  {
    if |parts| == 1 {
      SplitWithoutSep(parts[0], sep);
    } else {
      var rest := parts[1..];
      SplitJoin(rest, sep);
      JoinCons(parts[0], rest, sep);
      assert parts == [parts[0]] + rest;
      SplitAround(parts[0], sep, Join(rest, sep));
      SplitWithoutSep(parts[0], sep);
    }
  }

  lemma JoinCons(p: string, ps: seq<string>, sep: char)
    requires ps != []
    ensures Join([p] + ps, sep) == p + [sep] + Join(ps, sep)
  {
    assert ([p] + ps)[1..] == ps;
  }

  lemma SplitConsSep(t: string, sep: char)
    ensures Split([sep] + t, sep) == [""] + Split(t, sep)
  {
    assert ([sep] + t)[1..] == t;
  }

  lemma SplitConsOther(c: char, t: string, sep: char)
    requires c != sep
    ensures Split([c] + t, sep) == [[c] + Split(t, sep)[0]] + Split(t, sep)[1..]
  {
    assert ([c] + t)[1..] == t;
  }

  /** Splitting around one more separator concatenates the pieces of both sides. */
  lemma {:induction false} SplitAround(x: string, sep: char, y: string)
    ensures Split(x + [sep] + y, sep) == Split(x, sep) + Split(y, sep)
    decreases |x|
  {
    if x == [] {
      assert x + [sep] + y == [sep] + y;
      SplitConsSep(y, sep);
    } else {
      var c, a, b := x[0], x[1..] + [sep] + y, x[1..];
      var pieces, tail := Split(b, sep), Split(y, sep);
      SplitAround(b, sep, y);
      assert x + [sep] + y == [c] + a;
      assert x == [c] + b;
      if c == sep {
        SplitConsSep(a, sep);
        SplitConsSep(b, sep);
        Associative([""], pieces, tail);
      } else {
        SplitConsOther(c, a, sep);
        SplitConsOther(c, b, sep);
        HeadOfConcat(pieces, tail);
        Associative([[c] + pieces[0]], pieces[1..], tail);
      }
    }
  }

  lemma Associative<T>(a: seq<T>, b: seq<T>, c: seq<T>)
    ensures a + (b + c) == (a + b) + c
  {
  }

  lemma HeadOfConcat<T>(a: seq<T>, b: seq<T>)
    requires a != []
    ensures (a + b)[0] == a[0] && (a + b)[1..] == a[1..] + b
  {
  }

  lemma {:induction false} SplitWithoutSep(s: string, sep: char)
    requires sep !in s
    ensures Split(s, sep) == [s]
    decreases |s|
  {
    if s != [] {
      SplitWithoutSep(s[1..], sep);
      assert s == [s[0]] + s[1..];
      SplitConsOther(s[0], s[1..], sep);
    }
  }

  /** The field before the first separator, when one follows `x`. */
  lemma FirstFieldAt(x: string, sep: char, y: string)
    requires sep !in x
    ensures FirstField(x + [sep] + y, sep) == x
  {
    var s := x + [sep] + y;
    FieldEndBefore(s, sep, 0, |x|);
    assert s[..|x|] == x;
  }

  lemma FirstFieldWhole(x: string, sep: char)
    requires sep !in x
    ensures FirstField(x, sep) == x
  {
    FieldEndNone(x, sep, 0);
  }

  /** The field after the last separator, when one precedes `y`. */
  lemma LastFieldAt(x: string, sep: char, y: string)
    requires sep !in y
    ensures LastField(x + [sep] + y, sep) == y
  {
    var s := x + [sep] + y;
    FieldStartAfter(s, sep, |s|, |x|);
    assert s[|x| + 1..] == y;
  }

  lemma LastFieldWhole(y: string, sep: char)
    requires sep !in y
    ensures LastField(y, sep) == y
  {
    FieldStartNone(y, sep, |y|);
  }

  /** `s.split(sep)[0]`: everything before the first `sep`. */
  function FirstField(s: string, sep: char): (r: string)
    ensures sep !in r
    ensures |r| <= |s|
  {
    var k := FieldEnd(s, sep, 0);
    assert forall c :: c in s[..k] ==> c != sep;
    s[..k]
  }

  /** Where the field that starts at `i` ends: at the first `sep` from `i` on, or at the end. */
  function FieldEnd(s: string, sep: char, i: nat): (k: nat)
    requires i <= |s|
    ensures i <= k <= |s| && (k == |s| || s[k] == sep)
    ensures forall j :: i <= j < k ==> s[j] != sep
    decreases |s| - i
  {
    if i == |s| || s[i] == sep then i else FieldEnd(s, sep, i + 1)
  }

  lemma {:induction false} FieldEndBefore(s: string, sep: char, i: nat, m: nat)
    requires i <= m < |s| && s[m] == sep
    requires forall j :: i <= j < m ==> s[j] != sep
    ensures FieldEnd(s, sep, i) == m
    decreases |s| - i
  {
    if i != m {
      FieldEndBefore(s, sep, i + 1, m);
    }
  }

  lemma {:induction false} FieldEndNone(s: string, sep: char, i: nat)
    requires i <= |s|
    requires forall j :: i <= j < |s| ==> s[j] != sep
    ensures FieldEnd(s, sep, i) == |s|
    decreases |s| - i
  {
    if i < |s| {
      FieldEndNone(s, sep, i + 1);
    }
  }

  /** `s.split(sep)[-1]`: everything after the last `sep`. */
  function LastField(s: string, sep: char): (r: string)
    ensures sep !in r
    ensures |r| <= |s|
  {
    var k := FieldStart(s, sep, |s|);
    assert forall c :: c in s[k..] ==> c != sep;
    s[k..]
  }

  /** Where the field that ends at `i` starts: just after the last `sep` before `i`, or 0. */
  function FieldStart(s: string, sep: char, i: nat): (k: nat)
    requires i <= |s|
    ensures k <= i && (k == 0 || s[k - 1] == sep)
    ensures forall j :: k <= j < i ==> s[j] != sep
    decreases i
  {
    if i == 0 || s[i - 1] == sep then i else FieldStart(s, sep, i - 1)
  }

  lemma {:induction false} FieldStartAfter(s: string, sep: char, i: nat, m: nat)
    requires m < i <= |s| && s[m] == sep
    requires forall j :: m < j < i ==> s[j] != sep
    ensures FieldStart(s, sep, i) == m + 1
    decreases i
  {
    if i - 1 != m {
      FieldStartAfter(s, sep, i - 1, m);
    }
  }

  lemma {:induction false} FieldStartNone(s: string, sep: char, i: nat)
    requires i <= |s|
    requires forall j :: 0 <= j < i ==> s[j] != sep
    ensures FieldStart(s, sep, i) == 0
    decreases i
  {
    if i > 0 {
      FieldStartNone(s, sep, i - 1);
    }
  }

  predicate StartsWith(s: string, prefix: string) {
    |prefix| <= |s| && s[..|prefix|] == prefix
  }

  /** `s.endswith(suffix)` */
  predicate EndsWith(s: string, suffix: string) {
    |suffix| <= |s| && s[|s| - |suffix|..] == suffix
  }

  /** `sub in s` */
  predicate Contains(s: string, sub: string)
  {
    StartsWith(s, sub) || (s != [] && Contains(s[1..], sub))
  }

  lemma {:induction false} ContainsInSuffix(prefix: string, s: string, sub: string)
    requires Contains(s, sub)
    ensures Contains(prefix + s, sub)
    decreases |prefix|
  {
    if prefix == [] {
      assert prefix + s == s;
    } else {
      assert (prefix + s)[1..] == prefix[1..] + s;
      ContainsInSuffix(prefix[1..], s, sub);
    }
  }

  lemma {:induction false} ContainsInPrefix(s: string, suffix: string, sub: string)
    requires Contains(s, sub)
    ensures Contains(s + suffix, sub)
    decreases |s|
  {
    if !StartsWith(s, sub) {
      assert (s + suffix)[1..] == s[1..] + suffix;
      ContainsInPrefix(s[1..], suffix, sub);
    }
  }
}
