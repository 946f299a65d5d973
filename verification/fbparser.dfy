/**
 * The text cleanup of `fbparser.py`, from the markdown that html2text returns
 * onwards: drop `#`, turn `**` into `*`, keep the stripped lines that hold a
 * letter or a digit.
 */
module FbParser {
  import opened PyText

  /** `is_string_contentent`: scans for a letter or a digit and stops at the first. */
  function IsStringContentent(s: string): (r: bool)
    ensures r <==> exists i :: 0 <= i < |s| && (IsAlpha(s[i]) || IsDigit(s[i]))
  {
    if s == [] then false
    else if IsAlpha(s[0]) || IsDigit(s[0]) then true
    else
      var rest := IsStringContentent(s[1..]);
      assert forall i :: 0 < i < |s| ==> s[i] == s[1..][i - 1];
      rest
  }

  /** `filter_contentent_strings`: the contentful strings, stripped, in their order. */
  function FilterContententStrings(ls: seq<string>): (r: seq<string>)
    ensures |r| <= |ls|
    ensures forall i :: 0 <= i < |r| ==> IsStripped(r[i]) && HasAlnum(r[i])
  {
    if ls == [] then []
    else
      var rest := FilterContententStrings(ls[1..]);
      if IsStringContentent(ls[0]) then
        StripKeepsAlnum(ls[0]);
        [Strip(ls[0])] + rest
      else rest
  }

  /** The filter works element by element: it distributes over concatenation... */
  lemma {:induction false} FilterAppend(a: seq<string>, b: seq<string>)
    ensures FilterContententStrings(a + b) == FilterContententStrings(a) + FilterContententStrings(b)
  {
    if a != [] {
      assert (a + b)[0] == a[0] && (a + b)[1..] == a[1..] + b;
      FilterAppend(a[1..], b);
    } else {
      assert a + b == b;
    }
  }

  /** ...and keeps one string exactly when it is contentful, stripping it. */
  lemma FilterSingle(x: string)
    ensures FilterContententStrings([x])
            == if exists i :: 0 <= i < |x| && IsAlnum(x[i]) then [Strip(x)] else []
  {
    assert [x][1..] == [];
  }

  /** A character absent from every input string is absent from every output string. */
  lemma {:induction false} FilterKeepsAbsent(ls: seq<string>, c: char)
    requires forall i :: 0 <= i < |ls| ==> c !in ls[i]
    ensures forall i :: 0 <= i < |FilterContententStrings(ls)| ==> c !in FilterContententStrings(ls)[i]
  {
    if ls != [] {
      FilterKeepsAbsent(ls[1..], c);
      StripKeepsAbsent(ls[0], c);
    }
  }

  /** Dropping lines and stripping the rest never lengthens the joined text. */
  lemma {:induction false} FilterJoinNotLonger(sep: char, ls: seq<string>)
    ensures |Join(sep, FilterContententStrings(ls))| <= |Join(sep, ls)|
  {
    if ls != [] {
      var x, rest := ls[0], ls[1..];
      assert ls == [x] + rest;
      FilterJoinNotLonger(sep, rest);
      JoinConsLength(sep, x, rest);
      var fr := FilterContententStrings(rest);
      if IsStringContentent(x) {
        JoinConsLength(sep, Strip(x), fr);
        assert fr != [] ==> rest != [];
      }
    }
  }

  /** `prettify_text`. */
  function PrettifyText(text: string): string {
    var t := Replace(Replace(text, "#", ""), "**", "*");
    Join('\n', FilterContententStrings(Split(t, '\n')))
  }

  /** The output holds no `#`. */
  lemma PrettifyRemovesHash(text: string)
    ensures '#' !in PrettifyText(text)
  {
    var t1 := Replace(text, "#", "");
    assert "#" == ['#'];
    ReplaceRemoves(text, '#', "");
    var t := Replace(t1, "**", "*");
    ReplaceKeepsAbsent(t1, "**", "*", '#');
    SplitKeepsAbsent(t, '\n', '#');
    FilterKeepsAbsent(Split(t, '\n'), '#');
    JoinKeepsAbsent('\n', FilterContententStrings(Split(t, '\n')), '#');
  }

  /** Every line of a non-empty output is stripped and holds a letter or a digit. */
  lemma PrettifyLinesAreClean(text: string)
    ensures var r := PrettifyText(text);
            r == [] || forall i :: 0 <= i < |Split(r, '\n')| ==>
                         IsStripped(Split(r, '\n')[i]) && HasAlnum(Split(r, '\n')[i])
  {
    var t := Replace(Replace(text, "#", ""), "**", "*");
    var kept := FilterContententStrings(Split(t, '\n'));
    if kept != [] {
      SplitPiecesLackSep(t, '\n');
      FilterKeepsAbsent(Split(t, '\n'), '\n');
      SplitJoin('\n', kept);
    }
  }

  /** The output has no more lines than the input. */
  lemma PrettifyFewerLines(text: string)
    ensures |Split(PrettifyText(text), '\n')| <= |Split(text, '\n')|
  {
    var t1 := Replace(text, "#", "");
    var t := Replace(t1, "**", "*");
    var kept := FilterContententStrings(Split(t, '\n'));
    if kept != [] {
      SplitPiecesLackSep(t, '\n');
      FilterKeepsAbsent(Split(t, '\n'), '\n');
      SplitJoin('\n', kept);
      ReplaceKeepsCount(text, "#", "", '\n');
      ReplaceKeepsCount(t1, "**", "*", '\n');
      SplitLength(t, '\n');
      SplitLength(text, '\n');
    }
  }

  /** The output is never longer than the input. */
  lemma PrettifyNotLonger(text: string)
    ensures |PrettifyText(text)| <= |text|
  {
    var t1 := Replace(text, "#", "");
    var t := Replace(t1, "**", "*");
    ReplaceNotLonger(text, "#", "");
    ReplaceNotLonger(t1, "**", "*");
    FilterJoinNotLonger('\n', Split(t, '\n'));
    JoinSplit(t, '\n');
  }
}
