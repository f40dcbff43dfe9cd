/**
 * `LegalDocumentLoader.clean_text`: two regular-expression substitutions
 * over a string, and `""` for anything that is not text.
 *
 * Both substitutions follow Python's `re.sub`: the pattern is tried at
 * each position from the left, a match is replaced and scanning resumes
 * after it, and where nothing matches one character is copied.
 */
module TextCleaner {
  import opened Common

  /** The number of newlines `s` starts with. */
  function BreakRun(s: string): (n: nat)
    ensures n <= |s|
    ensures forall k :: 0 <= k < n ==> s[k] == '\n'
    ensures n < |s| ==> s[n] != '\n'
  {
    if s != [] && s[0] == '\n' then 1 + BreakRun(s[1..]) else 0
  }

  /**
   * `re.sub('\n{1,} | \n', '\n', s)`. The first alternative is a maximal
   * run of newlines followed by a space (greedy backtracking cannot help:
   * a shorter run is followed by another newline); the second is a space
   * followed by a newline. Each match becomes one newline.
   */
  function SubstituteSpacedBreaks(s: string): (r: string)
    ensures |r| <= |s|
    ensures |s| > 0 ==> |r| > 0
  {
    if s == [] then []
    else
      var n := BreakRun(s);
      if 0 < n < |s| && s[n] == ' ' then "\n" + SubstituteSpacedBreaks(s[n + 1..])
      else if 2 <= |s| && s[0] == ' ' && s[1] == '\n' then "\n" + SubstituteSpacedBreaks(s[2..])
      else [s[0]] + SubstituteSpacedBreaks(s[1..])
  }

  /** `re.sub('\n{2,}', '\n\n', s)`: every run of two or more newlines becomes exactly two. */
  function SubstituteBreakRuns(s: string): (r: string)
    ensures |r| <= |s|
    ensures |s| > 0 ==> |r| > 0
  {
    if s == [] then []
    else
      var n := BreakRun(s);
      if n >= 2 then "\n\n" + SubstituteBreakRuns(s[n..])
      else [s[0]] + SubstituteBreakRuns(s[1..])
  }

  /**
   * `clean_text(doc)`: both substitutions for a string, `""` otherwise.
   * It never lengthens its input and empties only the empty string.
   */
  function CleanText(doc: Value): (r: string)
    ensures doc.NonStr? ==> r == ""
    ensures doc.Str? ==> |r| <= |doc.s| && (r == "" <==> doc.s == "")
  {
    match doc
    case Str(s) => SubstituteBreakRuns(SubstituteSpacedBreaks(s))
    case NonStr => ""
  }

  /** No three newlines stand next to each other. */
  predicate NoTripleBreak(s: string)
  {
    forall i :: 0 <= i < |s| - 2 ==> !(s[i] == '\n' && s[i + 1] == '\n' && s[i + 2] == '\n')
  }

  /** The characters of `s` other than spaces and newlines, in order. */
  function Visible(s: string): string
  {
    if s == [] then []
    else (if s[0] == ' ' || s[0] == '\n' then [] else [s[0]]) + Visible(s[1..])
  }

  lemma NoTripleBreakCons(c: char, s: string)
    requires NoTripleBreak(s)
    requires c == '\n' ==> BreakRun(s) < 2
    ensures NoTripleBreak([c] + s)
  {
    var t := [c] + s;
    forall i | 0 <= i < |t| - 2
      ensures !(t[i] == '\n' && t[i + 1] == '\n' && t[i + 2] == '\n')
    {
      if i > 0 {
        assert t[i] == s[i - 1] && t[i + 1] == s[i] && t[i + 2] == s[i + 1];
      }
    }
  }

  lemma NoTripleBreakTail(s: string, m: nat)
    requires NoTripleBreak(s) && m <= |s|
    ensures NoTripleBreak(s[m..])
  {
    var t := s[m..];
    forall i | 0 <= i < |t| - 2
      ensures !(t[i] == '\n' && t[i + 1] == '\n' && t[i + 2] == '\n')
    {
      assert t[i] == s[m + i] && t[i + 1] == s[m + i + 1] && t[i + 2] == s[m + i + 2];
    }
  }

  /** Two newlines put before text that starts with none make a run of exactly two, and no run of three. */
  lemma DoubleBreakCons(rest: string)
    requires BreakRun(rest) == 0 && NoTripleBreak(rest)
    ensures BreakRun("\n\n" + rest) == 2 && NoTripleBreak("\n\n" + rest)
  {
    NoTripleBreakCons('\n', rest);
    NoTripleBreakCons('\n', "\n" + rest);
    assert "\n\n" + rest == ['\n'] + ("\n" + rest);
    assert ("\n\n" + rest)[1..] == "\n" + rest && ("\n" + rest)[1..] == rest;
  }

  /**
   * The second substitution caps every run of newlines at two: its result
   * starts with as many newlines as its input, but at most two, and holds
   * no three newlines in a row.
   */
  lemma {:induction false} BreakRunsCapped(s: string)
    ensures BreakRun(SubstituteBreakRuns(s)) == Min(BreakRun(s), 2)
    ensures NoTripleBreak(SubstituteBreakRuns(s))
  {
    if s != [] {
      var n := BreakRun(s);
      if n >= 2 {
        BreakRunsCapped(s[n..]);
        DoubleBreakCons(SubstituteBreakRuns(s[n..]));
      } else {
        var rest := SubstituteBreakRuns(s[1..]);
        BreakRunsCapped(s[1..]);
        NoTripleBreakCons(s[0], rest);
      }
    }
  }

  /**
   * The second substitution leaves a string unchanged exactly when that
   * string has no three newlines in a row, so applying it twice is the
   * same as applying it once.
   */
  lemma {:induction false} BreakRunsFixedPoint(s: string)
    ensures SubstituteBreakRuns(s) == s <==> NoTripleBreak(s)
  {
    BreakRunsCapped(s);
    if s != [] && NoTripleBreak(s) {
      var n := BreakRun(s);
      if n >= 2 {
        assert |s| > 2 ==> !(s[0] == '\n' && s[1] == '\n' && s[2] == '\n');
        assert n == 2;
        NoTripleBreakTail(s, 2);
        BreakRunsFixedPoint(s[2..]);
        assert s == "\n\n" + s[2..];
      } else {
        NoTripleBreakTail(s, 1);
        BreakRunsFixedPoint(s[1..]);
        assert s == [s[0]] + s[1..];
      }
    }
  }

  /** `clean_text` never leaves more than two line breaks in a row. */
  lemma CleanTextNoTripleBreak(doc: Value)
    ensures NoTripleBreak(CleanText(doc))
  {
    if doc.Str? {
      BreakRunsCapped(SubstituteSpacedBreaks(doc.s));
    }
  }

  /** Dropping a prefix of spaces and newlines does not change the visible characters. */
  lemma {:induction false} VisibleSkip(s: string, m: nat)
    requires m <= |s|
    requires forall k :: 0 <= k < m ==> s[k] == ' ' || s[k] == '\n'
    ensures Visible(s[m..]) == Visible(s)
  {
    if m > 0 {
      VisibleSkip(s[1..], m - 1);
      assert s[1..][m - 1..] == s[m..];
    }
  }

  /** The visible characters of a string with one more character in front. */
  lemma VisibleCons(c: char, t: string)
    ensures Visible([c] + t) == (if c == ' ' || c == '\n' then [] else [c]) + Visible(t)
  {
    assert ([c] + t)[1..] == t;
  }

  /** The first substitution keeps every character other than spaces and newlines, in order. */
  lemma {:induction false} SpacedBreaksKeepVisible(s: string)
    ensures Visible(SubstituteSpacedBreaks(s)) == Visible(s)
  {
    if s != [] {
      var n := BreakRun(s);
      if 0 < n < |s| && s[n] == ' ' {
        SpacedBreaksKeepVisible(s[n + 1..]);
        VisibleSkip(s, n + 1);
        VisibleCons('\n', SubstituteSpacedBreaks(s[n + 1..]));
      } else if 2 <= |s| && s[0] == ' ' && s[1] == '\n' {
        SpacedBreaksKeepVisible(s[2..]);
        VisibleSkip(s, 2);
        VisibleCons('\n', SubstituteSpacedBreaks(s[2..]));
      } else {
        SpacedBreaksKeepVisible(s[1..]);
        VisibleCons(s[0], SubstituteSpacedBreaks(s[1..]));
      }
    }
  }

  /** The second substitution keeps every character other than spaces and newlines, in order. */
  lemma {:induction false} BreakRunsKeepVisible(s: string)
    ensures Visible(SubstituteBreakRuns(s)) == Visible(s)
  {
    if s != [] {
      var n := BreakRun(s);
      if n >= 2 {
        BreakRunsKeepVisible(s[n..]);
        VisibleSkip(s, n);
        var rest := SubstituteBreakRuns(s[n..]);
        VisibleCons('\n', rest);
        VisibleCons('\n', "\n" + rest);
        assert "\n\n" + rest == ['\n'] + ("\n" + rest);
      } else {
        BreakRunsKeepVisible(s[1..]);
        VisibleCons(s[0], SubstituteBreakRuns(s[1..]));
      }
    }
  }

  /**
   * `clean_text` only removes or merges spaces and newlines: every other
   * character of a text survives, in its original order.
   */
  lemma CleanTextKeepsVisible(doc: Value)
    requires doc.Str?
    ensures Visible(CleanText(doc)) == Visible(doc.s)
  {
    SpacedBreaksKeepVisible(doc.s);
    BreakRunsKeepVisible(SubstituteSpacedBreaks(doc.s));
  }

  /** Without spaces the first substitution has nothing to match. */
  lemma {:induction false} SpacedBreaksNeedSpace(s: string)
    requires ' ' !in s
    ensures SubstituteSpacedBreaks(s) == s
  {
    if s != [] {
      var n := BreakRun(s);
      assert n < |s| ==> s[n] != ' ';
      SpacedBreaksNeedSpace(s[1..]);
      assert [s[0]] + s[1..] == s;
    }
  }

  /**
   * A text with no spaces and no three line breaks in a row is already
   * clean: `clean_text` returns it unchanged.
   */
  lemma CleanTextKeepsSettledText(s: string)
    requires ' ' !in s && NoTripleBreak(s)
    ensures CleanText(Str(s)) == s
  {
    SpacedBreaksNeedSpace(s);
    BreakRunsFixedPoint(s);
  }

  /**
   * `clean_text` is not idempotent: the first substitution consumes only
   * one space before a newline, so a second call finds the next one.
   */
  lemma CleanTextNotIdempotent()
    ensures CleanText(Str("  \n")) == " \n"
    ensures CleanText(Str(" \n")) == "\n"
    ensures CleanText(Str(CleanText(Str("  \n")))) != CleanText(Str("  \n"))
  {
  }

  /** A run of four line breaks between two letters becomes two. */
  lemma CleanTextCollapsesRun()
    ensures CleanText(Str("a\n\n\n\nb")) == "a\n\nb"
  {
    // No space anywhere, so only the second pass acts.
    SpacedBreaksNeedSpace("a\n\n\n\nb");
    // It copies "a", then replaces the run of four that ends before "b".
    SecondPassOfExample();
  }

  /** The second pass on the example: "a" is copied, four breaks become two, and "b" is copied. */
  lemma SecondPassOfExample()
    ensures SubstituteBreakRuns("a\n\n\n\nb") == "a\n\nb"
  {
    assert SubstituteBreakRuns("\n\n\n\nb") == "\n\nb" by {
      RunOfFourCollapses();
    }
    assert BreakRun("a\n\n\n\nb") == 0;
    assert "a\n\n\n\nb"[1..] == "\n\n\n\nb";
  }

  /** The run of four breaks in the example, replaced by two ahead of a copied "b". */
  lemma RunOfFourCollapses()
    ensures SubstituteBreakRuns("\n\n\n\nb") == "\n\nb"
  {
    assert BreakRun("b") == 0 && SubstituteBreakRuns("b") == "b";
    assert BreakRun("\n\n\n\nb") == 4 by {
      assert "\n\n\n\nb"[1..] == "\n\n\nb" && "\n\n\nb"[1..] == "\n\nb" && "\n\nb"[1..] == "\nb" && "\nb"[1..] == "b";
    }
    assert "\n\n\n\nb"[4..] == "b";
  }

  /**
   * A space after a run of line breaks is absorbed with the run, unless
   * the run is a single break that a space before it has already taken.
   */
  lemma CleanTextAbsorbsSpaceAfterBreak()
    ensures CleanText(Str("a\n b")) == "a\nb"
  {
  }

  /**
   * A space before a run of two breaks takes only the first of them; the
   * rest of the run then absorbs the space after it.
   */
  lemma CleanTextAbsorbsSpaceAfterLongerRun()
    ensures CleanText(Str("a \n\n b")) == "a\n\nb"
  {
    assert BreakRun("\n b") == 1 && SubstituteSpacedBreaks("\n b") == "\nb";
    assert SubstituteSpacedBreaks("a \n\n b") == "a\n\nb";
  }

  /**
   * A space before a line break is absorbed with it, and the match ends at
   * that break, so a space after the break stays.
   */
  lemma CleanTextKeepsSpaceAfterBreak()
    ensures CleanText(Str("a \n b")) == "a\n b"
  {
    FirstPassOfSpacedBreak();
    assert SubstituteBreakRuns("a\n b") == "a\n b" by {
      assert BreakRun("\n b") == 1;
    }
  }

  /** The first pass on "a \n b": "a" is copied, " \n" becomes one break, and " b" is copied. */
  lemma FirstPassOfSpacedBreak()
    ensures SubstituteSpacedBreaks("a \n b") == "a\n b"
  {
    assert SubstituteSpacedBreaks(" b") == " b" by {
      assert BreakRun("b") == 0 && SubstituteSpacedBreaks("b") == "b";
    }
    assert " \n b"[2..] == " b";
  }
}
