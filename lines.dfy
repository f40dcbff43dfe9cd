/**
 * `remove_new_lines`: keeps the `str` items of a list, strips spaces from
 * both ends of each, and drops those that are then empty.
 */
module Lines {
  import opened Common
  import opened Strings

  /** A line worth keeping: non-empty, with no space at either end. */
  predicate Tidy(line: string)
  {
    line != "" && line[0] != ' ' && line[|line| - 1] != ' '
  }

  /** What one item contributes to the result: its space-strip, if that is a non-empty string. */
  function Kept(item: Value): (r: seq<string>)
  {
    match item
    case NonStr => []
    case Str(s) => var line := Strip(s, Space); if line == "" then [] else [line]
  }

  /** The list `remove_new_lines(items)` returns, built item by item. */
  function SurvivingLines(items: seq<Value>): (r: seq<string>)
    ensures |r| <= |items|
    ensures forall k :: 0 <= k < |r| ==> Tidy(r[k])
  {
    if items == [] then []
    else SurvivingLines(items[..|items| - 1]) + Kept(items[|items| - 1])
  }

  /** The lines read from a file, as the `str` values Python holds them as. */
  function AsValues(lines: seq<string>): (r: seq<Value>)
    ensures |r| == |lines|
    ensures forall k :: 0 <= k < |lines| ==> r[k] == Str(lines[k])
  {
    seq(|lines|, k requires 0 <= k < |lines| => Str(lines[k]))
  }

  /** `remove_new_lines`: the loop that appends each kept line to a fresh list. */
  method RemoveNewLines(lines: seq<Value>) returns (clean: seq<string>)
    ensures clean == SurvivingLines(lines)
  {
    clean := [];
    for i := 0 to |lines|
      invariant clean == SurvivingLines(lines[..i])
    {
      assert lines[..i + 1][..i] == lines[..i];
      match lines[i]
      case NonStr =>
      case Str(s) =>
        var line := Strip(s, Space);
        if line != "" {
          clean := clean + [line];
        }
    }
    assert lines[..|lines|] == lines;
  }

  /** Appending one item appends what that item contributes. */
  lemma SurvivingLinesSnoc(xs: seq<Value>, x: Value)
    ensures SurvivingLines(xs + [x]) == SurvivingLines(xs) + Kept(x)
  {
    assert (xs + [x])[..|xs|] == xs;
  }

  /** Filtering a concatenation filters each part: the result follows input order. */
  lemma {:induction false} SurvivingLinesAppend(xs: seq<Value>, ys: seq<Value>)
    ensures SurvivingLines(xs + ys) == SurvivingLines(xs) + SurvivingLines(ys)
  {
    if ys == [] {
      assert xs + ys == xs;
    } else {
      var init, last := ys[..|ys| - 1], ys[|ys| - 1];
      assert (xs + ys)[..|xs + ys| - 1] == xs + init;
      SurvivingLinesAppend(xs, init);
      var a, b, c := SurvivingLines(xs), SurvivingLines(init), Kept(last);
      assert SurvivingLines(xs + ys) == (a + b) + c;
      assert SurvivingLines(ys) == b + c;
      assert (a + b) + c == a + (b + c);
    }
  }

  /** The indices of the items that contribute a line, in increasing order. */
  function Origins(items: seq<Value>): (o: seq<nat>)
    ensures |o| == |SurvivingLines(items)|
  {
    if items == [] then []
    else
      var n := |items| - 1;
      Origins(items[..n]) + if Kept(items[n]) == [] then [] else [n]
  }

  /**
   * Each surviving line is the space-strip of an input item, and the items
   * it comes from appear in increasing order.
   */
  lemma {:induction false} OriginsSound(items: seq<Value>)
    ensures forall k :: 0 <= k < |Origins(items)| ==> Origins(items)[k] < |items|
    ensures forall j, k :: 0 <= j < k < |Origins(items)| ==> Origins(items)[j] < Origins(items)[k]
    ensures forall k :: 0 <= k < |Origins(items)| ==>
      items[Origins(items)[k]].Str? && SurvivingLines(items)[k] == Strip(items[Origins(items)[k]].s, Space)
  {
    if items != [] {
      var n := |items| - 1;
      var init := items[..n];
      OriginsSound(init);
      var o', o := Origins(init), Origins(items);
      var r', r := SurvivingLines(init), SurvivingLines(items);
      assert o == o' + if Kept(items[n]) == [] then [] else [n];
      assert r == r' + Kept(items[n]);
      forall k | 0 <= k < |o|
        ensures o[k] < |items|
        ensures items[o[k]].Str? && r[k] == Strip(items[o[k]].s, Space)
      {
        if k < |o'| {
          assert o[k] == o'[k] && r[k] == r'[k] && items[o[k]] == init[o'[k]];
        }
      }
    }
  }

  /** Every item whose strip is a non-empty string contributes a line. */
  lemma {:induction false} OriginsComplete(items: seq<Value>)
    ensures forall i :: 0 <= i < |items| && Kept(items[i]) != [] ==> i in Origins(items)
  {
    if items != [] {
      var n := |items| - 1;
      var init := items[..n];
      OriginsComplete(init);
      var o', o := Origins(init), Origins(items);
      assert o == o' + if Kept(items[n]) == [] then [] else [n];
      forall i | 0 <= i < |items| && Kept(items[i]) != []
        ensures i in o
      {
        if i < n {
          assert init[i] == items[i];
          var k :| 0 <= k < |o'| && o'[k] == i;
          assert o[k] == i;
        } else {
          assert o[|o'|] == i;
        }
      }
    }
  }

  /**
   * Each surviving line is the space-strip of an input item, the items it
   * comes from appear in increasing order, and every item whose strip is
   * a non-empty string is one of them.
   */
  lemma OriginsSpec(items: seq<Value>)
    ensures forall k :: 0 <= k < |Origins(items)| ==> Origins(items)[k] < |items|
    ensures forall j, k :: 0 <= j < k < |Origins(items)| ==> Origins(items)[j] < Origins(items)[k]
    ensures forall k :: 0 <= k < |Origins(items)| ==>
      items[Origins(items)[k]].Str? && SurvivingLines(items)[k] == Strip(items[Origins(items)[k]].s, Space)
    ensures forall i :: 0 <= i < |items| && Kept(items[i]) != [] ==> i in Origins(items)
  {
    OriginsSound(items);
    OriginsComplete(items);
  }

  /** A list of tidy lines passes through `remove_new_lines` unchanged. */
  lemma {:induction false} TidyLinesSurvive(lines: seq<string>)
    requires forall k :: 0 <= k < |lines| ==> Tidy(lines[k])
    ensures SurvivingLines(AsValues(lines)) == lines
  {
    if lines != [] {
      var n := |lines| - 1;
      assert AsValues(lines)[..n] == AsValues(lines[..n]);
      TidyLinesSurvive(lines[..n]);
      StripUnchanged(lines[n], Space);
      assert lines[..n] + [lines[n]] == lines;
    }
  }

  /** Applying `remove_new_lines` twice gives the same list as applying it once. */
  lemma RemoveNewLinesIdempotent(items: seq<Value>)
    ensures SurvivingLines(AsValues(SurvivingLines(items))) == SurvivingLines(items)
  {
    TidyLinesSurvive(SurvivingLines(items));
  }

  /** The line holds a character other than a space. */
  predicate HasNonSpace(line: string)
  {
    exists j :: 0 <= j < |line| && line[j] != ' '
  }

  /** A line contributes to the result exactly when it holds a non-space character. */
  lemma KeptIffNonSpace(line: string)
    ensures Kept(Str(line)) != [] <==> HasNonSpace(line)
  {
    StripEmpty(line, Space);
  }

  /** At least one line survives exactly when some line holds a non-space character. */
  lemma {:induction false} SurvivorsExist(lines: seq<string>)
    ensures SurvivingLines(AsValues(lines)) != [] <==> exists k :: 0 <= k < |lines| && HasNonSpace(lines[k])
  {
    if lines != [] {
      var n := |lines| - 1;
      var init := lines[..n];
      assert AsValues(lines) == AsValues(init) + [Str(lines[n])];
      SurvivingLinesSnoc(AsValues(init), Str(lines[n]));
      SurvivorsExist(init);
      KeptIffNonSpace(lines[n]);
      if SurvivingLines(AsValues(lines)) != [] {
        if SurvivingLines(AsValues(init)) != [] {
          var k :| 0 <= k < n && HasNonSpace(init[k]);
          assert init[k] == lines[k];
        }
      } else {
        forall k | 0 <= k < |lines| ensures !HasNonSpace(lines[k]) {
          if k < n {
            assert init[k] == lines[k];
          }
        }
      }
    }
  }

  /** Lines read by `splitlines` hold no newline, and neither does any line that survives. */
  lemma SurvivorsHaveNoBreak(lines: seq<string>)
    requires forall k :: 0 <= k < |lines| ==> '\n' !in lines[k]
    ensures forall k :: 0 <= k < |SurvivingLines(AsValues(lines))| ==> '\n' !in SurvivingLines(AsValues(lines))[k]
  {
    var items := AsValues(lines);
    var o := Origins(items);
    OriginsSpec(items);
    forall k | 0 <= k < |o|
      ensures '\n' !in SurvivingLines(items)[k]
    {
      StripKeepsAbsence(lines[o[k]], Space, '\n');
    }
  }
}
