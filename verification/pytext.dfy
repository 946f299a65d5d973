/**
 * The pieces of Python's `str` that the text cleanup uses: the character
 * classes (`isalpha`, `isdigit`, `isalnum`, `isspace`, `string.punctuation`),
 * `strip`, `split` and `join` on a one-character separator, and `replace`.
 * Character classes are the ASCII part of Python's Unicode classes.
 */
module PyText {

  predicate IsAlpha(c: char) { 'a' <= c <= 'z' || 'A' <= c <= 'Z' }

  predicate IsDigit(c: char) { '0' <= c <= '9' }

  /** `str.isalnum` on one character; a letter or digit is neither whitespace nor
      punctuation. */
  predicate IsAlnum(c: char)
    ensures IsAlnum(c) ==> !IsSpace(c) && !IsPunctuation(c)
  {
    IsAlpha(c) || IsDigit(c)
  }

  /** `str.isspace`: blank, \t \n \v \f \r and the separators \x1c to \x1f. */
  predicate IsSpace(c: char) {
    c == ' ' || ('\t' <= c <= '\r') || ('\U{001C}' <= c <= '\U{001F}')
  }

  /** Membership in `string.punctuation`, the printable ASCII symbols. */
  predicate IsPunctuation(c: char) {
    ('!' <= c <= '/') || (':' <= c <= '@') || ('[' <= c <= '`') || ('{' <= c <= '~')
  }

  /** True iff some character of `s` is a letter or a digit. */
  predicate HasAlnum(s: string) {
    exists i :: 0 <= i < |s| && IsAlnum(s[i])
  }

  function CountChar(s: string, c: char): nat {
    if s == [] then 0 else CountChar(s[..|s| - 1], c) + (if s[|s| - 1] == c then 1 else 0)
  }

  // ---------------------------------------------------------------------------
  // strip

  /** `str.lstrip()`: drops the leading whitespace, nothing else. */
  function LStrip(s: string): (r: string)
    ensures |r| <= |s|
  {
    if s != [] && IsSpace(s[0]) then LStrip(s[1..]) else s
  }

  /** `lstrip` keeps a suffix, drops only whitespace, and stops at a non-space. */
  lemma {:induction false} LStripSpec(s: string)
    ensures var r := LStrip(s);
            && r == s[|s| - |r|..]
            && (forall k :: 0 <= k < |s| - |r| ==> IsSpace(s[k]))
            && (r == [] || !IsSpace(r[0]))
  {
    if s != [] && IsSpace(s[0]) {
      LStripSpec(s[1..]);
    }
  }

  /** `str.rstrip()`: drops the trailing whitespace, nothing else. */
  function RStrip(s: string): (r: string)
    ensures |r| <= |s|
  {
    if s != [] && IsSpace(s[|s| - 1]) then RStrip(s[..|s| - 1]) else s
  }

  /** `rstrip` keeps a prefix, drops only whitespace, and stops at a non-space. */
  lemma {:induction false} RStripSpec(s: string)
    ensures var r := RStrip(s);
            && r == s[..|r|]
            && (forall k :: |r| <= k < |s| ==> IsSpace(s[k]))
            && (r == [] || !IsSpace(r[|r| - 1]))
  {
    if s != [] && IsSpace(s[|s| - 1]) {
      RStripSpec(s[..|s| - 1]);
    }
  }

  /** A stripped string neither starts nor ends with whitespace. */
  predicate IsStripped(s: string) {
    s == [] || (!IsSpace(s[0]) && !IsSpace(s[|s| - 1]))
  }

  /** `str.strip()`: never longer, and neither starting nor ending with whitespace. */
  function Strip(s: string): (r: string)
    ensures |r| <= |s| && IsStripped(r)
  {
    var l := LStrip(s);
    LStripSpec(s);
    RStripSpec(l);
    var r := RStrip(l);
    assert r != [] ==> r[0] == l[0];
    r
  }

  /** Everything of `s` outside the window `s[i..j]` is whitespace. */
  predicate TrimmedAt(s: string, i: int, j: int) {
    && 0 <= i <= j <= |s|
    && (forall k :: 0 <= k < i ==> IsSpace(s[k]))
    && (forall k :: j <= k < |s| ==> IsSpace(s[k]))
  }

  /** `strip` removes whitespace at both ends and keeps the middle as it is. */
  lemma StripIsInfix(s: string)
    ensures exists i, j :: TrimmedAt(s, i, j) && Strip(s) == s[i..j]
  {
    var l := LStrip(s);
    var r := RStrip(l);
    var i := |s| - |l|;
    var j := i + |r|;
    LStripSpec(s);
    RStripSpec(l);
    assert r == s[i..j] by {
      assert l == s[i..] && r == l[..|r|];
      assert s[i..][..|r|] == s[i..j];
    }
    assert TrimmedAt(s, i, j) by {
      forall k | j <= k < |s| ensures IsSpace(s[k]) {
        assert s[k] == l[k - i];
      }
    }
  }

  lemma StrippedIsFixpoint(s: string)
    requires IsStripped(s)
    ensures Strip(s) == s
  {
  }

  /** `strip` is idempotent: a stripped line stays as it is when stripped again. */
  lemma StripIdempotent(s: string)
    ensures Strip(Strip(s)) == Strip(s)
  {
    StrippedIsFixpoint(Strip(s));
  }

  /** Dropping a run of whitespace at either end keeps every other character. */
  lemma TrimKeepsChars(s: string, t: string, d: nat, c: char)
    requires !IsSpace(c) && TrimmedAt(s, d, d + |t|) && t == s[d..d + |t|]
    ensures c in t <==> c in s
  {
    if c in s {
      var k :| 0 <= k < |s| && s[k] == c;
      assert t[k - d] == c;
    }
    if c in t {
      var k :| 0 <= k < |t| && t[k] == c;
      assert s[k + d] == c;
    }
  }

  /** `strip` removes no character other than whitespace. */
  lemma StripKeepsChars(s: string, c: char)
    requires !IsSpace(c)
    ensures c in Strip(s) <==> c in s
  {
    var l := LStrip(s);
    LStripSpec(s);
    RStripSpec(l);
    TrimKeepsChars(s, l, |s| - |l|, c);
    TrimKeepsChars(l, RStrip(l), 0, c);
  }

  /** `strip` adds no character. */
  lemma StripKeepsAbsent(s: string, c: char)
    requires c !in s
    ensures c !in Strip(s)
  {
    StripIsInfix(s);
    var i, j :| TrimmedAt(s, i, j) && Strip(s) == s[i..j];
  }

  /** Dropping a run of whitespace at either end keeps the letters and digits. */
  lemma TrimKeepsAlnum(s: string, t: string, d: nat)
    requires TrimmedAt(s, d, d + |t|) && t == s[d..d + |t|]
    ensures HasAlnum(t) <==> HasAlnum(s)
  {
    if HasAlnum(s) {
      var k :| 0 <= k < |s| && IsAlnum(s[k]);
      assert t[k - d] == s[k];
    }
    if HasAlnum(t) {
      var k :| 0 <= k < |t| && IsAlnum(t[k]);
      assert s[k + d] == t[k];
    }
  }

  /** A string and its stripped form hold the same letters and digits. */
  lemma StripKeepsAlnum(s: string)
    ensures HasAlnum(Strip(s)) <==> HasAlnum(s)
  {
    var l := LStrip(s);
    LStripSpec(s);
    RStripSpec(l);
    TrimKeepsAlnum(s, l, |s| - |l|);
    TrimKeepsAlnum(l, RStrip(l), 0);
  }

  // ---------------------------------------------------------------------------
  // split and join on one separator character

  /** `s.split(sep)`: the pieces between separators; never an empty list. */
  function Split(s: string, sep: char): (r: seq<string>)
    ensures |r| >= 1
  {
    if s == [] then [[]]
    else
      var rest := Split(s[1..], sep);
      if s[0] == sep then [[]] + rest else [[s[0]] + rest[0]] + rest[1..]
  }

  /** No piece of a split holds the separator. */
  lemma {:induction false} SplitPiecesLackSep(s: string, sep: char)
    ensures forall i :: 0 <= i < |Split(s, sep)| ==> sep !in Split(s, sep)[i]
  {
    if s != [] {
      SplitPiecesLackSep(s[1..], sep);
    }
  }

  /** `sep.join(ls)`. */
  function Join(sep: char, ls: seq<string>): string {
    if |ls| == 0 then []
    else if |ls| == 1 then ls[0]
    else ls[0] + [sep] + Join(sep, ls[1..])
  }

  lemma JoinCons(sep: char, a: string, ls: seq<string>)
    ensures Join(sep, [a] + ls) == a + (if ls == [] then [] else [sep] + Join(sep, ls))
  {
    assert ([a] + ls)[1..] == ls;
  }

  /** Joining the pieces of a split gives back the text. */
  lemma {:induction false} JoinSplit(s: string, sep: char)
    ensures Join(sep, Split(s, sep)) == s
  {
    if s != [] {
      var rest := Split(s[1..], sep);
      JoinSplit(s[1..], sep);
      if s[0] == sep {
        assert Split(s, sep) == [[]] + rest;
        JoinCons(sep, [], rest);
        assert [] + ([sep] + s[1..]) == s;
      } else {
        var tail := if rest[1..] == [] then [] else [sep] + Join(sep, rest[1..]);
        assert Split(s, sep) == [[s[0]] + rest[0]] + rest[1..];
        JoinCons(sep, [s[0]] + rest[0], rest[1..]);
        JoinCons(sep, rest[0], rest[1..]);
        assert [rest[0]] + rest[1..] == rest;
        assert Join(sep, rest) == rest[0] + tail == s[1..];
        AppendAssoc([s[0]], rest[0], tail);
        assert [s[0]] + s[1..] == s;
      }
    }
  }

  lemma {:induction false} SplitWithoutSep(s: string, sep: char)
    requires sep !in s
    ensures Split(s, sep) == [s]
  {
    if s != [] {
      SplitWithoutSep(s[1..], sep);
      assert [s[0]] + s[1..] == s;
    }
  }

  /** A separator in the middle of a text splits it into the pieces of either side. */
  lemma {:induction false} SplitAround(a: string, sep: char, b: string)
    ensures Split(a + [sep] + b, sep) == Split(a, sep) + Split(b, sep)
  {
    var t := a + [sep] + b;
    if a == [] {
      assert t[0] == sep && t[1..] == b;
    } else {
      assert t[0] == a[0] && t[1..] == a[1..] + [sep] + b;
      SplitAround(a[1..], sep, b);
      var ra, rb := Split(a[1..], sep), Split(b, sep);
      if a[0] == sep {
        ConsAppend([], ra, rb);
      } else {
        ConsTailAppend([a[0]] + ra[0], ra, rb);
      }
    }
  }

  lemma AppendAssoc<T>(x: seq<T>, y: seq<T>, z: seq<T>)
    ensures x + y + z == x + (y + z)
  {
  }

  lemma ConsAppend<T>(h: T, x: seq<T>, y: seq<T>)
    ensures [h] + (x + y) == [h] + x + y
  {
  }

  lemma ConsTailAppend<T>(h: T, x: seq<T>, y: seq<T>)
    requires x != []
    ensures (x + y)[0] == x[0] && [h] + (x + y)[1..] == [h] + x[1..] + y
  {
    assert (x + y)[1..] == x[1..] + y;
  }

  /** Splitting a join of separator-free pieces gives back the pieces. */
  lemma {:induction false} SplitJoin(sep: char, ls: seq<string>)
    requires |ls| >= 1
    requires forall i :: 0 <= i < |ls| ==> sep !in ls[i]
    ensures Split(Join(sep, ls), sep) == ls
  {
    if |ls| == 1 {
      SplitWithoutSep(ls[0], sep);
    } else {
      SplitJoin(sep, ls[1..]);
      SplitAround(ls[0], sep, Join(sep, ls[1..]));
      SplitWithoutSep(ls[0], sep);
      assert [ls[0]] + ls[1..] == ls;
    }
  }

  /** A text of n separators has n + 1 pieces. */
  lemma {:induction false} SplitLength(s: string, sep: char)
    ensures |Split(s, sep)| == CountChar(s, sep) + 1
  {
    if s != [] {
      SplitLength(s[1..], sep);
      CountCons(s[0], s[1..], sep);
      assert [s[0]] + s[1..] == s;
    }
  }

  lemma {:induction false} CountAppend(a: string, b: string, c: char)
    ensures CountChar(a + b, c) == CountChar(a, c) + CountChar(b, c)
  {
    if b != [] {
      CountAppend(a, b[..|b| - 1], c);
      assert (a + b)[..|a + b| - 1] == a + b[..|b| - 1];
    } else {
      assert a + b == a;
    }
  }

  lemma CountCons(x: char, s: string, c: char)
    ensures CountChar([x] + s, c) == (if x == c then 1 else 0) + CountChar(s, c)
  {
    CountAppend([x], s, c);
    assert [x][..0] == [];
  }

  lemma {:induction false} CountAbsent(s: string, c: char)
    requires c !in s
    ensures CountChar(s, c) == 0
  {
    if s != [] {
      CountAbsent(s[..|s| - 1], c);
    }
  }

  /** The join of non-empty lists is the pieces plus one separator between each two. */
  lemma JoinConsLength(sep: char, a: string, ls: seq<string>)
    ensures |Join(sep, [a] + ls)| == |a| + (if ls == [] then 0 else 1 + |Join(sep, ls)|)
  {
    JoinCons(sep, a, ls);
  }

  /** No character other than the separator appears in a join unless it is in a piece. */
  lemma {:induction false} JoinKeepsAbsent(sep: char, ls: seq<string>, c: char)
    requires c != sep
    requires forall i :: 0 <= i < |ls| ==> c !in ls[i]
    ensures c !in Join(sep, ls)
  {
    if |ls| > 1 {
      JoinKeepsAbsent(sep, ls[1..], c);
    }
  }

  /** Every piece of a split is made of characters of the text. */
  lemma {:induction false} SplitKeepsAbsent(s: string, sep: char, c: char)
    requires c !in s
    ensures forall i :: 0 <= i < |Split(s, sep)| ==> c !in Split(s, sep)[i]
  {
    if s != [] {
      SplitKeepsAbsent(s[1..], sep, c);
    }
  }

  // ---------------------------------------------------------------------------
  // replace

  /** `s.replace(pat, rep)`: occurrences of `pat` found left to right, without overlap. */
  function Replace(s: string, pat: string, rep: string): string
    requires |pat| > 0
    decreases |s|
  {
    if |s| < |pat| then s
    else if s[..|pat|] == pat then rep + Replace(s[|pat|..], pat, rep)
    else [s[0]] + Replace(s[1..], pat, rep)
  }

  /** A replacement no longer than the pattern never lengthens the text. */
  lemma {:induction false} ReplaceNotLonger(s: string, pat: string, rep: string)
    requires |pat| > 0 && |rep| <= |pat|
    ensures |Replace(s, pat, rep)| <= |s|
    decreases |s|
  {
    if |s| >= |pat| {
      if s[..|pat|] == pat {
        ReplaceNotLonger(s[|pat|..], pat, rep);
      } else {
        ReplaceNotLonger(s[1..], pat, rep);
      }
    }
  }

  /** Replacing a one-character pattern by text without it removes every occurrence. */
  lemma {:induction false} ReplaceRemoves(s: string, c: char, rep: string)
    requires c !in rep
    ensures c !in Replace(s, [c], rep)
    decreases |s|
  {
    if |s| >= 1 {
      if s[..1] == [c] {
        ReplaceRemoves(s[1..], c, rep);
      } else {
        assert s[0] != c by { assert s[..1][0] == s[0]; }
        ReplaceRemoves(s[1..], c, rep);
      }
    }
  }

  /** A character absent from the text and from the replacement stays absent. */
  lemma {:induction false} ReplaceKeepsAbsent(s: string, pat: string, rep: string, c: char)
    requires |pat| > 0 && c !in s && c !in rep
    ensures c !in Replace(s, pat, rep)
    decreases |s|
  {
    if |s| >= |pat| {
      if s[..|pat|] == pat {
        ReplaceKeepsAbsent(s[|pat|..], pat, rep, c);
      } else {
        ReplaceKeepsAbsent(s[1..], pat, rep, c);
      }
    }
  }

  /** A character in neither the pattern nor the replacement occurs as often after replacing. */
  lemma {:induction false} ReplaceKeepsCount(s: string, pat: string, rep: string, c: char)
    requires |pat| > 0 && c !in pat && c !in rep
    ensures CountChar(Replace(s, pat, rep), c) == CountChar(s, c)
    decreases |s|
  {
    if |s| >= |pat| {
      if s[..|pat|] == pat {
        ReplaceKeepsCount(s[|pat|..], pat, rep, c);
        CountAppend(rep, Replace(s[|pat|..], pat, rep), c);
        CountAbsent(rep, c);
        CountAppend(pat, s[|pat|..], c);
        CountAbsent(pat, c);
        assert s == pat + s[|pat|..];
      } else {
        ReplaceKeepsCount(s[1..], pat, rep, c);
        CountCons(s[0], Replace(s[1..], pat, rep), c);
        CountCons(s[0], s[1..], c);
        assert s == [s[0]] + s[1..];
      }
    }
  }
}
