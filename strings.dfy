/**
 * The few Python string built-ins the loader relies on: `str.strip`
 * with and without an argument, `"\n".join`, `str.split("\n")` (used only
 * to state what a join keeps) and `str.endswith`.
 */
module Strings {

  /** The characters `str.strip()` removes when it is given no argument. */
  const Whitespace: set<char> := {
    '\t', '\n', '\U{000B}', '\U{000C}', '\r',
    '\U{001C}', '\U{001D}', '\U{001E}', '\U{001F}', ' ',
    '\U{0085}', '\U{00A0}', '\U{1680}',
    '\U{2000}', '\U{2001}', '\U{2002}', '\U{2003}', '\U{2004}', '\U{2005}',
    '\U{2006}', '\U{2007}', '\U{2008}', '\U{2009}', '\U{200A}',
    '\U{2028}', '\U{2029}', '\U{202F}', '\U{205F}', '\U{3000}'
  }

  /** The characters `str.strip(' ')` removes. */
  const Space: set<char> := {' '}

  /** Drops the longest prefix of `s` made of characters in `cs`. */
  function TrimLeft(s: string, cs: set<char>): (r: string)
    ensures |r| <= |s|
  {
    if s != [] && s[0] in cs then TrimLeft(s[1..], cs) else s
  }

  /** What `TrimLeft` keeps is a suffix of `s`; what it drops is all in `cs`; what it keeps starts outside `cs`. */
  lemma {:induction false} TrimLeftSpec(s: string, cs: set<char>)
    ensures var r := TrimLeft(s, cs);
      && r == s[|s| - |r|..]
      && (forall k :: 0 <= k < |s| - |r| ==> s[k] in cs)
      && (r != [] ==> r[0] !in cs)
  {
    if s != [] && s[0] in cs {
      TrimLeftSpec(s[1..], cs);
    }
  }

  /** Drops the longest suffix of `s` made of characters in `cs`. */
  function TrimRight(s: string, cs: set<char>): (r: string)
    ensures |r| <= |s|
  {
    if s != [] && s[|s| - 1] in cs then TrimRight(s[..|s| - 1], cs) else s
  }

  /** What `TrimRight` keeps is a prefix of `s`; what it drops is all in `cs`; what it keeps ends outside `cs`. */
  lemma {:induction false} TrimRightSpec(s: string, cs: set<char>)
    ensures var r := TrimRight(s, cs);
      && r == s[..|r|]
      && (forall k :: |r| <= k < |s| ==> s[k] in cs)
      && (r != [] ==> r[|r| - 1] !in cs)
  {
    if s != [] && s[|s| - 1] in cs {
      TrimRightSpec(s[..|s| - 1], cs);
    }
  }

  /**
   * `s.strip(chars)`: removes characters in `cs` from both ends; what is
   * left, unless empty, neither starts nor ends with a character in `cs`.
   */
  function Strip(s: string, cs: set<char>): (r: string)
    ensures r != [] ==> r[0] !in cs && r[|r| - 1] !in cs
  {
    var t := TrimLeft(s, cs);
    var r := TrimRight(t, cs);
    TrimLeftSpec(s, cs);
    TrimRightSpec(t, cs);
    assert r != [] ==> r[0] == t[0];
    r
  }

  /**
   * `r` is the slice of `s` starting at `a`, and every character of `s`
   * before or after that slice is in `cs`.
   */
  predicate StrippedAt(s: string, cs: set<char>, r: string, a: nat)
  {
    && a <= |s| - |r|
    && r == s[a..a + |r|]
    && (forall k :: 0 <= k < a ==> s[k] in cs)
    && (forall k :: a + |r| <= k < |s| ==> s[k] in cs)
  }

  /** The strip is one slice of `s`, with only characters in `cs` cut off before and after it. */
  lemma StripSlice(s: string, cs: set<char>)
    ensures exists a: nat :: StrippedAt(s, cs, Strip(s, cs), a)
  {
    var t := TrimLeft(s, cs);
    var r := TrimRight(t, cs);
    TrimLeftSpec(s, cs);
    TrimRightSpec(t, cs);
    var a := |s| - |t|;
    assert Strip(s, cs) == r;
    assert r == s[a..a + |r|] by {
      assert t == s[a..] && r == t[..|r|];
    }
    assert forall k :: a + |r| <= k < |s| ==> s[k] == t[k - a];
    assert StrippedAt(s, cs, r, a);
  }

  /** The strip is empty exactly when every character of `s` is in `cs`. */
  lemma StripEmpty(s: string, cs: set<char>)
    ensures Strip(s, cs) == [] <==> forall k :: 0 <= k < |s| ==> s[k] in cs
  {
    var t := TrimLeft(s, cs);
    var r := TrimRight(t, cs);
    TrimLeftSpec(s, cs);
    TrimRightSpec(t, cs);
    if r == [] {
      assert t == [];
    } else {
      assert r[0] == t[0] == s[|s| - |t|];
    }
  }

  /** The strip holds only characters of `s`. */
  lemma StripKeepsAbsence(s: string, cs: set<char>, c: char)
    requires c !in s
    ensures c !in Strip(s, cs)
  {
    var t := TrimLeft(s, cs);
    var r := TrimRight(t, cs);
    TrimLeftSpec(s, cs);
    TrimRightSpec(t, cs);
    assert forall k :: 0 <= k < |r| ==> r[k] == t[k] == s[|s| - |t| + k];
  }

  /** Stripping a string whose ends are already outside `cs` changes nothing. */
  lemma StripUnchanged(s: string, cs: set<char>)
    requires s != [] ==> s[0] !in cs && s[|s| - 1] !in cs
    ensures Strip(s, cs) == s
  {
  }

  /** The total length of some lines. */
  function TotalLength(lines: seq<string>): nat
  {
    if lines == [] then 0 else |lines[0]| + TotalLength(lines[1..])
  }

  /**
   * `"\n".join(lines)`: the lines in order with one newline between each
   * pair, so the first line leads, the last line ends it, and the length is
   * the lines' total plus one per separator.
   */
  function Join(lines: seq<string>): (r: string)
    ensures lines != [] ==> |r| == TotalLength(lines) + |lines| - 1
    ensures lines != [] ==> lines[0] <= r
    ensures lines != [] ==> |lines[|lines| - 1]| <= |r| && r[|r| - |lines[|lines| - 1]|..] == lines[|lines| - 1]
  {
    if lines == [] then ""
    else if |lines| == 1 then lines[0]
    else
      var rest := Join(lines[1..]);
      var last := lines[|lines| - 1];
      assert last == lines[1..][|lines[1..]| - 1];
      var r := lines[0] + "\n" + rest;
      assert r[|r| - |last|..] == rest[|rest| - |last|..];
      r
  }

  /** A join of two or more lines is the first line, a newline, and the join of the rest. */
  lemma JoinCons(lines: seq<string>)
    requires |lines| >= 2
    ensures Join(lines) == lines[0] + "\n" + Join(lines[1..])
  {
  }

  /** `s.split("\n")`: the pieces of `s` between its newline characters. */
  function Split(s: string): (r: seq<string>)
    ensures |r| >= 1
  {
    if s == [] then [""]
    else if s[0] == '\n' then [""] + Split(s[1..])
    else
      var t := Split(s[1..]);
      [[s[0]] + t[0]] + t[1..]
  }

  lemma {:induction false} SplitWithoutBreak(a: string)
    requires '\n' !in a
    ensures Split(a) == [a]
  {
    if a != [] {
      SplitWithoutBreak(a[1..]);
      assert [a[0]] + a[1..] == a;
    }
  }

  lemma {:induction false} SplitAfterLine(a: string, t: string)
    requires '\n' !in a
    ensures Split(a + "\n" + t) == [a] + Split(t)
  {
    if a == [] {
      assert (a + "\n" + t)[1..] == t;
    } else {
      assert (a + "\n" + t)[1..] == a[1..] + "\n" + t;
      SplitAfterLine(a[1..], t);
      assert [a[0]] + a[1..] == a;
    }
  }

  /** One step of `SplitJoin`: a newline-free first line in front of a join that splits back. */
  lemma SplitJoinStep(lines: seq<string>)
    requires |lines| >= 2 && '\n' !in lines[0]
    requires Split(Join(lines[1..])) == lines[1..]
    ensures Split(Join(lines)) == lines
  {
    var rest := Join(lines[1..]);
    JoinCons(lines);
    SplitAfterLine(lines[0], rest);
    assert [lines[0]] + lines[1..] == lines;
  }

  /**
   * Joining lines that hold no newline with `"\n"` loses nothing: splitting
   * the result at its newlines gives the lines back, one for one.
   */
  lemma {:induction false} SplitJoin(lines: seq<string>)
    requires lines != []
    requires forall k :: 0 <= k < |lines| ==> '\n' !in lines[k]
    ensures Split(Join(lines)) == lines
  {
    if |lines| == 1 {
      SplitWithoutBreak(lines[0]);
    } else {
      assert forall k :: 0 <= k < |lines[1..]| ==> lines[1..][k] == lines[k + 1];
      SplitJoin(lines[1..]);
      SplitJoinStep(lines);
    }
  }

  /** `name.endswith(suffix)`: the name is some string followed by the suffix. */
  function EndsWith(name: string, suffix: string): (b: bool)
    ensures b <==> exists front :: name == front + suffix
  {
    if |suffix| <= |name| && name[|name| - |suffix|..] == suffix then
      assert name == name[..|name| - |suffix|] + suffix;
      true
    else
      assert forall front :: name == front + suffix ==> name[|front|..] == suffix;
      false
  }
}
