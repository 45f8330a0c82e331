/**
 * The .NET string operations the chat relay relies on, restated over `seq<char>`:
 * `Char.IsWhiteSpace`, `string.IsNullOrWhiteSpace`, `Trim`, `StartsWith`,
 * `Split(char)`, `Split(char, count)`, `string.Join` and upper-casing.
 */
module Text {

  /** Char.IsWhiteSpace: the Unicode space separators, the line and paragraph
      separators, U+0009..U+000D and U+0085. */
  predicate IsWhiteSpace(c: char) {
    || c == ' '
    || ('\t' <= c <= '\r')
    || c == '\U{85}'
    || c == '\U{A0}'
    || c == '\U{1680}'
    || ('\U{2000}' <= c <= '\U{200A}')
    || c == '\U{2028}'
    || c == '\U{2029}'
    || c == '\U{202F}'
    || c == '\U{205F}'
    || c == '\U{3000}'
  }

  /** string.IsNullOrWhiteSpace (a model string is never null). */
  predicate IsBlank(s: string) {
    forall i | 0 <= i < |s| :: IsWhiteSpace(s[i])
  }

  /** Neither the first nor the last character is white space. */
  predicate IsTrimmed(s: string) {
    s == [] || (!IsWhiteSpace(s[0]) && !IsWhiteSpace(s[|s| - 1]))
  }

  /** The suffix of `s` left after dropping its leading white space. */
  function TrimStart(s: string): (r: string)
    ensures |r| <= |s| && r == s[|s| - |r|..]
    ensures r == [] || !IsWhiteSpace(r[0])
    ensures r == [] <==> IsBlank(s)
  {
    if s != [] && IsWhiteSpace(s[0]) then
      assert IsBlank(s) <==> IsBlank(s[1..]) by {
        if IsBlank(s[1..]) {
          forall i | 1 <= i < |s| ensures IsWhiteSpace(s[i]) { assert s[i] == s[1..][i - 1]; }
        }
      }
      TrimStart(s[1..])
    else s
  }

  /** The prefix of `s` left after dropping its trailing white space. */
  function TrimEnd(s: string): (r: string)
    ensures |r| <= |s| && r == s[..|r|]
    ensures r == [] || !IsWhiteSpace(r[|r| - 1])
    ensures r == [] <==> IsBlank(s)
  {
    if s != [] && IsWhiteSpace(s[|s| - 1]) then
      assert IsBlank(s) <==> IsBlank(s[..|s| - 1]) by {
        if IsBlank(s[..|s| - 1]) {
          forall i | 0 <= i < |s| - 1 ensures IsWhiteSpace(s[i]) { assert s[i] == s[..|s| - 1][i]; }
        }
      }
      TrimEnd(s[..|s| - 1])
    else s
  }

  /** string.Trim(): the result has no white space at either end, is empty exactly
      when `s` is blank, leaves an already trimmed string alone and adds no character. */
  function Trim(s: string): (r: string)
    ensures IsTrimmed(r)
    ensures r == [] <==> IsBlank(s)
    ensures IsTrimmed(s) ==> r == s
    ensures forall c | c in r :: c in s
  {
    var t := TrimStart(s);
    var r := TrimEnd(t);
    assert r != [] ==> r[0] == t[0];
    assert t != [] ==> !IsBlank(t);
    assert forall c | c in r :: c in t;
    r
  }

  /** A string that differs from `prefix` at some position inside both does not
      start with it. */
  lemma DiffersAt(s: string, prefix: string, k: nat)
    requires k < |s| && k < |prefix| && s[k] != prefix[k]
    ensures !StartsWith(s, prefix)
  {
    assert |prefix| <= |s| ==> s[..|prefix|][k] == s[k];
  }

  lemma StartsWithConcat(prefix: string, rest: string)
    ensures StartsWith(prefix + rest, prefix)
  {
    assert (prefix + rest)[..|prefix|] == prefix;
  }

  /** A non-empty sequence is its front followed by its last element. */
  lemma FrontLast<T>(s: seq<T>)
    requires s != []
    ensures s[..|s| - 1] + [s[|s| - 1]] == s
  {
  }

  /** A space put in front of a non-empty trimmed string is trimmed away again. */
  lemma LeadingSpaceTrimmed(s: string)
    requires s != [] && IsTrimmed(s)
    ensures Trim(" " + s) == s && !IsBlank(" " + s)
  {
    var t := " " + s;
    assert t[1..] == s && t[1] == s[0];
    assert TrimStart(t) == TrimStart(s) == s;
  }

  /** The character `c` with ASCII letters a..z mapped to A..Z. */
  function UpperChar(c: char): char {
    if 'a' <= c <= 'z' then (c as int - 32) as char else c
  }

  /** String.ToUpper(), restricted to the ASCII letters. */
  function ToUpper(s: string): (r: string)
    ensures |r| == |s|
    ensures forall i | 0 <= i < |s| :: r[i] == UpperChar(s[i])
  {
    if s == [] then [] else [UpperChar(s[0])] + ToUpper(s[1..])
  }

  /** String.Equals(a, b, StringComparison.OrdinalIgnoreCase), over the ASCII fold. */
  predicate EqualsIgnoreCase(a: string, b: string) {
    ToUpper(a) == ToUpper(b)
  }

  /** String.StartsWith(prefix), compared character by character. */
  predicate StartsWith(s: string, prefix: string) {
    |prefix| <= |s| && s[..|prefix|] == prefix
  }

  function Min(a: int, b: int): int {
    if a <= b then a else b
  }

  /** The number of occurrences of `c` in `s`. */
  function Count(s: string, c: char): (n: nat)
    ensures n <= |s|
    ensures n == 0 <==> c !in s
  {
    if s == [] then 0
    else (if s[0] == c then 1 else 0) + Count(s[1..], c)
  }

  /** String.Split(sep): every separator cuts, so there is one more part than
      separators and no part holds one. */
  function Split(s: string, sep: char): (parts: seq<string>)
    ensures |parts| == Count(s, sep) + 1
    ensures forall p | p in parts :: sep !in p
  {
    if s == [] then [[]]
    else
      var rest := Split(s[1..], sep);
      if s[0] == sep then [[]] + rest
      else [[s[0]] + rest[0]] + rest[1..]
  }

  /** String.Split(sep, count): at most `count` parts; only the last part may
      still hold separators. */
  function SplitN(s: string, sep: char, count: nat): (parts: seq<string>)
    ensures count == 0 ==> parts == []
    ensures count >= 1 ==> |parts| == Min(count, Count(s, sep) + 1)
    ensures forall k | 0 <= k < |parts| - 1 :: sep !in parts[k]
    decreases |s|
  {
    if count == 0 then []
    else if count == 1 then [s]
    else if s == [] then [[]]
    else if s[0] == sep then [[]] + SplitN(s[1..], sep, count - 1)
    else
      var rest := SplitN(s[1..], sep, count);
      [[s[0]] + rest[0]] + rest[1..]
  }

  /** string.Join(sep, parts). */
  function Join(parts: seq<string>, sep: char): string {
    if |parts| == 0 then []
    else if |parts| == 1 then parts[0]
    else parts[0] + [sep] + Join(parts[1..], sep)
  }

  lemma {:induction false} JoinCons(a: string, parts: seq<string>, sep: char)
    requires |parts| >= 1
    ensures Join([a] + parts, sep) == a + [sep] + Join(parts, sep)
  {
    assert ([a] + parts)[1..] == parts;
  }

  /** Joining the parts of a split with the same separator gives back the string. */
  lemma {:induction false} JoinSplit(s: string, sep: char)
    ensures Join(Split(s, sep), sep) == s
  {
    if s != [] {
      var rest := Split(s[1..], sep);
      JoinSplit(s[1..], sep);
      if s[0] == sep {
        assert Split(s, sep) == [[]] + rest;
        JoinCons([], rest, sep);
        assert Join(Split(s, sep), sep) == [sep] + s[1..];
      } else {
        assert Split(s, sep) == [[s[0]] + rest[0]] + rest[1..];
        JoinHead([s[0]], rest, sep);
        assert Join(Split(s, sep), sep) == [s[0]] + s[1..];
      }
      assert s == [s[0]] + s[1..];
    }
  }

  /** Gluing a string onto the first part glues it onto the join. */
  lemma {:induction false} JoinHead(a: string, parts: seq<string>, sep: char)
    requires |parts| >= 1
    ensures Join([a + parts[0]] + parts[1..], sep) == a + Join(parts, sep)
  {
    if |parts| > 1 {
      JoinCons(a + parts[0], parts[1..], sep);
      assert parts == [parts[0]] + parts[1..];
      JoinCons(parts[0], parts[1..], sep);
    } else {
      assert [a + parts[0]] + parts[1..] == [a + parts[0]];
    }
  }

  /** Splitting a string without separators gives the string alone. */
  lemma {:induction false} SplitNoSep(a: string, sep: char)
    requires sep !in a
    ensures Split(a, sep) == [a]
  {
    if a != [] {
      SplitNoSep(a[1..], sep);
      assert a == [a[0]] + a[1..];
    }
  }

  /** The first part of a split is everything before the first separator. */
  lemma {:induction false} SplitAtFirst(a: string, b: string, sep: char)
    requires sep !in a
    ensures Split(a + [sep] + b, sep) == [a] + Split(b, sep)
  {
    var s := a + [sep] + b;
    if a == [] {
      assert s == [sep] + b && s[1..] == b;
      assert Split(s, sep) == [[]] + Split(b, sep);
    } else {
      assert s[0] == a[0] && s[1..] == a[1..] + [sep] + b;
      SplitAtFirst(a[1..], b, sep);
      var rest := Split(s[1..], sep);
      assert rest[0] == a[1..] && rest[1..] == Split(b, sep) by {
        assert rest == [a[1..]] + Split(b, sep);
      }
      assert [a[0]] + rest[0] == a;
      assert Split(s, sep) == [[a[0]] + rest[0]] + rest[1..];
    }
  }

  /** Splitting a join of separator-free parts gives back the parts. */
  lemma {:induction false} SplitJoin(parts: seq<string>, sep: char)
    requires |parts| >= 1
    requires forall p | p in parts :: sep !in p
    ensures Split(Join(parts, sep), sep) == parts
  {
    if |parts| == 1 {
      SplitNoSep(parts[0], sep);
    } else {
      SplitJoin(parts[1..], sep);
      SplitAtFirst(parts[0], Join(parts[1..], sep), sep);
      assert parts == [parts[0]] + parts[1..];
    }
  }

  /** With a count of at least one, the bounded split still joins back to the string. */
  lemma {:induction false} JoinSplitN(s: string, sep: char, count: nat)
    requires count >= 1
    ensures Join(SplitN(s, sep, count), sep) == s
    decreases |s|
  {
    if count >= 2 && s != [] {
      if s[0] == sep {
        var rest := SplitN(s[1..], sep, count - 1);
        JoinSplitN(s[1..], sep, count - 1);
        assert SplitN(s, sep, count) == [[]] + rest;
        JoinCons([], rest, sep);
        assert Join(SplitN(s, sep, count), sep) == [sep] + s[1..];
      } else {
        var rest := SplitN(s[1..], sep, count);
        JoinSplitN(s[1..], sep, count);
        assert SplitN(s, sep, count) == [[s[0]] + rest[0]] + rest[1..];
        JoinHead([s[0]], rest, sep);
        assert Join(SplitN(s, sep, count), sep) == [s[0]] + s[1..];
      }
      assert s == [s[0]] + s[1..];
    }
  }

  /** A bounded split of a string without separators gives the string alone. */
  lemma {:induction false} SplitNNoSep(a: string, sep: char, count: nat)
    requires count >= 1
    requires sep !in a
    ensures SplitN(a, sep, count) == [a]
    decreases |a|
  {
    if count >= 2 && a != [] {
      SplitNNoSep(a[1..], sep, count);
      assert a == [a[0]] + a[1..];
    }
  }

  /** The first part of a bounded split (count at least two) is everything before
      the first separator, and the rest is split with one part fewer. */
  lemma {:induction false} SplitNAtFirst(a: string, b: string, sep: char, count: nat)
    requires count >= 2
    requires sep !in a
    ensures SplitN(a + [sep] + b, sep, count) == [a] + SplitN(b, sep, count - 1)
    decreases |a|
  {
    var s := a + [sep] + b;
    if a == [] {
      assert s == [sep] + b && s[1..] == b;
      assert SplitN(s, sep, count) == [[]] + SplitN(b, sep, count - 1);
    } else {
      assert s[0] == a[0] && s[1..] == a[1..] + [sep] + b;
      SplitNAtFirst(a[1..], b, sep, count);
      var rest := SplitN(s[1..], sep, count);
      assert rest == [a[1..]] + SplitN(b, sep, count - 1);
      assert s != [] && s[0] != sep;
      assert SplitN(s, sep, count) == [[s[0]] + rest[0]] + rest[1..];
      assert rest[0] == a[1..] && rest[1..] == SplitN(b, sep, count - 1);
      assert [a[0]] + a[1..] == a;
    }
  }

  /** A split into two parts cuts the string at its first separator. */
  lemma SplitNTwo(s: string, sep: char)
    requires |SplitN(s, sep, 2)| == 2
    ensures var parts := SplitN(s, sep, 2);
      s == parts[0] + [sep] + parts[1] && sep !in parts[0]
  {
    var parts := SplitN(s, sep, 2);
    JoinSplitN(s, sep, 2);
    assert parts == [parts[0]] + [parts[1]];
    JoinCons(parts[0], [parts[1]], sep);
  }

  /** A split into three parts of a string that starts with a separator-free head
      and a separator puts the head first and cuts the rest at its first separator. */
  lemma SplitNThree(head: string, rest: string, sep: char)
    requires sep !in head
    requires |SplitN(head + [sep] + rest, sep, 3)| == 3
    ensures var parts := SplitN(head + [sep] + rest, sep, 3);
      parts[0] == head && rest == parts[1] + [sep] + parts[2] && sep !in parts[1]
  {
    SplitNAtFirst(head, rest, sep, 3);
    SplitNTwo(rest, sep);
  }

  /** The position of the first `c` in `s`. */
  function IndexOf(s: string, c: char): (i: nat)
    requires c in s
    ensures i < |s| && s[i] == c
  {
    if s[0] == c then 0 else 1 + IndexOf(s[1..], c)
  }

  lemma {:induction false} IndexOfAfterFree(a: string, x: string, sep: char)
    requires sep !in a
    ensures IndexOf(a + [sep] + x, sep) == |a|
  {
    if a != [] {
      assert (a + [sep] + x)[1..] == a[1..] + [sep] + x;
      IndexOfAfterFree(a[1..], x, sep);
    }
  }

  /** A string cut at its first separator is cut in only one way. */
  lemma {:induction false} FirstSeparatorUnique(a: string, x: string, b: string, y: string, sep: char)
    requires sep !in a && sep !in b
    requires a + [sep] + x == b + [sep] + y
    ensures a == b && x == y
  {
    var s := a + [sep] + x;
    IndexOfAfterFree(a, x, sep);
    IndexOfAfterFree(b, y, sep);
    assert a == s[..|a|];
    assert b == s[..|b|];
    assert x == s[|a| + 1..];
    assert y == (b + [sep] + y)[|b| + 1..];
  }
}
