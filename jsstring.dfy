/** The JavaScript string operations the codec is written with:
    `indexOf`, `split` with a non-empty separator, `join`, `trim`, and
    array destructuring (`const [a, b] = xs`), on strings of characters. */
module JsString {
  import opened Wrappers

  /** True when `sep` occurs in `s` starting at index `k`. */
  predicate MatchAt(s: string, sep: string, k: nat)
  {
    k + |sep| <= |s| && s[k..k + |sep|] == sep
  }

  /** True when `sep` occurs somewhere in `s`. */
  predicate Contains(s: string, sep: string)
  {
    exists k: nat | k <= |s| :: MatchAt(s, sep, k)
  }

  /** `s.indexOf(sep, from)` for a non-empty separator: the first index at or after `from` where `sep` occurs. */
  function IndexOf(s: string, sep: string, from: nat): (r: Option<nat>)
    ensures r.Some? ==> from <= r.value && MatchAt(s, sep, r.value)
    ensures r.Some? ==> forall k: nat :: from <= k < r.value ==> !MatchAt(s, sep, k)
    ensures r.None? ==> forall k: nat :: from <= k ==> !MatchAt(s, sep, k)
    decreases |s| - from
  {
    if from + |sep| > |s| then None
    else if MatchAt(s, sep, from) then Some(from)
    else IndexOf(s, sep, from + 1)
  }

  /** `s.split(sep)` for a non-empty separator: the text between consecutive
      occurrences of `sep`, found left to right without overlap. */
  function Split(s: string, sep: string): (pieces: seq<string>)
    requires |sep| > 0
    ensures |pieces| >= 1
    decreases |s|
  {
    match IndexOf(s, sep, 0)
    case None => [s]
    case Some(i) => [s[..i]] + Split(s[i + |sep|..], sep)
  }

  /** The first occurrence at or after `from` is the one `IndexOf` finds. */
  lemma IndexOfIs(s: string, sep: string, from: nat, i: nat)
    requires from <= i && MatchAt(s, sep, i)
    requires forall k: nat :: from <= k < i ==> !MatchAt(s, sep, k)
    ensures IndexOf(s, sep, from) == Some(i)
  {
  }

  /** `pieces.join(sep)`. */
  function Join(pieces: seq<string>, sep: string): string
  {
    if |pieces| == 0 then ""
    else if |pieces| == 1 then pieces[0]
    else pieces[0] + sep + Join(pieces[1..], sep)
  }

  /** Destructuring `const [.., x] = xs`: the element at `i`, or `undefined`. */
  function At<T>(xs: seq<T>, i: nat): (r: Option<T>)
    ensures r.None? <==> |xs| <= i
    ensures r.Some? ==> r.value == xs[i]
  {
    if i < |xs| then Some(xs[i]) else None
  }

  /** A match of `sep` in a prefix of `s` is a match in `s`. */
  lemma MatchInPrefix(s: string, sep: string, i: nat, k: nat)
    requires i <= |s| && MatchAt(s[..i], sep, k)
    ensures MatchAt(s, sep, k)
  {
    assert s[..i][k..k + |sep|] == s[k..k + |sep|];
  }

  /** A match of `sep` in a suffix of `s` is a match in `s`, shifted. */
  lemma MatchInSuffix(s: string, sep: string, i: nat, k: nat)
    requires i <= |s|
    ensures MatchAt(s[i..], sep, k) <==> MatchAt(s, sep, i + k)
  {
    if i + k + |sep| <= |s| {
      assert s[i..][k..k + |sep|] == s[i + k..i + k + |sep|];
    }
  }

  /** The first piece of a split is the text before the first occurrence of
      the separator (or all of `s`); when there is more than one piece, the
      separator follows it and the other pieces split the rest. */
  lemma {:induction false} SplitFirst(s: string, sep: string)
    requires |sep| > 0
    ensures var pieces := Split(s, sep);
      && |pieces[0]| <= |s| && pieces[0] == s[..|pieces[0]|]
      && (forall k: nat :: k < |pieces[0]| ==> !MatchAt(s, sep, k))
      && (|pieces| == 1 ==> pieces[0] == s)
      && (|pieces| > 1 ==>
            MatchAt(s, sep, |pieces[0]|) && pieces[1..] == Split(s[|pieces[0]| + |sep|..], sep))
  {
    match IndexOf(s, sep, 0)
    case None =>
    case Some(i) =>
      var pieces := Split(s, sep);
      assert pieces[0] == s[..i];
      assert pieces[1..] == Split(s[i + |sep|..], sep);
  }

  /** No piece of a split contains the separator. */
  lemma {:induction false} SplitPiecesFree(s: string, sep: string)
    requires |sep| > 0
    ensures forall p :: p in Split(s, sep) ==> !Contains(p, sep)
    decreases |s|
  {
    var pieces := Split(s, sep);
    SplitFirst(s, sep);
    var p0 := pieces[0];
    forall k: nat | k <= |p0|
      ensures !MatchAt(p0, sep, k)
    {
      if MatchAt(p0, sep, k) {
        MatchInPrefix(s, sep, |p0|, k);
      }
    }
    if |pieces| > 1 {
      var rest := s[|p0| + |sep|..];
      SplitPiecesFree(rest, sep);
      assert pieces == [p0] + Split(rest, sep);
    }
  }

  /** A split yields a single piece exactly when the separator does not occur. */
  lemma SplitSingle(s: string, sep: string)
    requires |sep| > 0
    ensures |Split(s, sep)| == 1 <==> !Contains(s, sep)
  {
    SplitFirst(s, sep);
    if Contains(s, sep) {
      var k: nat :| k <= |s| && MatchAt(s, sep, k);
      assert IndexOf(s, sep, 0).Some?;
    }
  }

  /** The separator does not match where one of its characters differs
      from the text. */
  lemma MismatchAt(s: string, sep: string, k: nat, j: nat)
    requires j < |sep| && k + j < |s| && s[k + j] != sep[j]
    ensures !MatchAt(s, sep, k)
  {
    if k + |sep| <= |s| {
      assert s[k..k + |sep|][j] == s[k + j];
    }
  }

  /** A text without the separator splits into itself alone. */
  lemma SplitWithout(s: string, sep: string)
    requires |sep| > 0 && !Contains(s, sep)
    ensures Split(s, sep) == [s]
  {
    SplitSingle(s, sep);
    SplitFirst(s, sep);
  }

  /** A text whose first match is at `i` splits into the text before it
      and the split of the text after it. */
  lemma SplitAtFirstMatch(s: string, sep: string, i: nat)
    requires |sep| > 0 && IndexOf(s, sep, 0) == Some(i)
    ensures Split(s, sep) == [s[..i]] + Split(s[i + |sep|..], sep)
  {
  }

  /** For a one-character separator, occurring is being an element. */
  lemma ContainsChar(s: string, c: char)
    ensures Contains(s, [c]) <==> c in s
  {
    if c in s {
      var k :| 0 <= k < |s| && s[k] == c;
      assert MatchAt(s, [c], k);
    }
    if Contains(s, [c]) {
      var k: nat :| k <= |s| && MatchAt(s, [c], k);
      assert s[k..k + 1] == [c];
      assert s[k] == c;
    }
  }

  /** Splitting at a character: the first piece is the text before the
      first occurrence, there is more than one piece exactly when the
      character occurs, and the other pieces are the split of the text after
      that occurrence. */
  lemma FirstPieceAtChar(s: string, c: char)
    ensures var pieces := Split(s, [c]);
      && c !in pieces[0] && |pieces[0]| <= |s| && pieces[0] == s[..|pieces[0]|]
      && (|pieces| > 1 <==> c in s)
      && (|pieces| == 1 ==> pieces[0] == s)
      && (|pieces| > 1 ==>
            |pieces[0]| < |s| && s[|pieces[0]|] == c
            && pieces[1..] == Split(s[|pieces[0]| + 1..], [c]))
  {
    match IndexOf(s, [c], 0)
    case None =>
      ContainsChar(s, c);
      assert !Contains(s, [c]);
    case Some(i) =>
      var pieces := Split(s, [c]);
      assert pieces[0] == s[..i];
      assert |pieces[0]| == i;
      assert pieces[1..] == Split(s[i + 1..], [c]);
      NoCharBeforeMatch(s, c, i);
      assert s[i..i + 1] == [c];
      assert s[i] == s[i..i + 1][0];
  }

  /** No piece of a split at a character contains it. */
  lemma PieceFreeOfChar(s: string, c: char, i: nat)
    requires i < |Split(s, [c])|
    ensures c !in Split(s, [c])[i]
  {
    SplitPiecesFree(s, [c]);
    assert Split(s, [c])[i] in Split(s, [c]);
    ContainsChar(Split(s, [c])[i], c);
  }

  /** A character that does not match before `n` is not in the first `n`
      characters. */
  lemma NoCharBeforeMatch(s: string, c: char, n: nat)
    requires n <= |s|
    requires forall k: nat :: k < n ==> !MatchAt(s, [c], k)
    ensures c !in s[..n]
  {
    forall k | 0 <= k < n
      ensures s[k] != c
    {
      assert !MatchAt(s, [c], k);
      assert s[k..k + 1] == [s[k]];
    }
  }

  /** The second piece of a split at a character is free of it, the text
      starts with the first piece, the character and the second piece, and
      the second piece ends at the second occurrence of the character, or at
      the end of the text when there is none (exactly when there are only
      two pieces). */
  lemma SecondPieceAtChar(s: string, c: char)
    requires |Split(s, [c])| > 1
    ensures var pieces := Split(s, [c]); var n := |pieces[0]| + 1 + |pieces[1]|;
      && c !in pieces[1]
      && n <= |s|
      && s[..n] == pieces[0] + [c] + pieces[1]
      && (|pieces| > 2 <==> n < |s|)
      && (n < |s| ==> s[n] == c)
  {
    var pieces := Split(s, [c]);
    FirstPieceAtChar(s, c);
    var rest := s[|pieces[0]| + 1..];
    SecondPieceEnd(s, c, rest);
    PrefixAround(s, pieces[0], c, pieces[1]);
  }

  /** A text that starts with `a`, then `c`, then `b` has `a + [c] + b` as
      its prefix of that length. */
  lemma PrefixAround(s: string, a: string, c: char, b: string)
    requires |a| < |s| && s[..|a|] == a && s[|a|] == c
    requires |b| <= |s[|a| + 1..]| && s[|a| + 1..][..|b|] == b
    ensures s[..|a| + 1 + |b|] == a + [c] + b
  {
    var n := |a| + 1 + |b|;
    forall k | 0 <= k < n
      ensures s[..n][k] == (a + [c] + b)[k]
    {
      if k > |a| {
        assert s[k] == s[|a| + 1..][..|b|][k - |a| - 1];
      }
    }
  }

  /** The pieces after the first are the split of the text after the first
      occurrence, so the second piece ends where that split's first does. */
  lemma SecondPieceEnd(s: string, c: char, rest: string)
    requires |Split(s, [c])| > 1
    requires var p0 := Split(s, [c])[0];
      |p0| < |s| && rest == s[|p0| + 1..] && Split(s, [c])[1..] == Split(rest, [c])
    ensures var pieces := Split(s, [c]);
      && c !in pieces[1] && |pieces[1]| <= |rest| && pieces[1] == rest[..|pieces[1]|]
      && (|pieces| > 2 <==> |pieces[1]| < |rest|)
      && (|pieces[1]| < |rest| ==> rest[|pieces[1]|] == c)
  {
    var pieces := Split(s, [c]);
    FirstPieceAtChar(rest, c);
    assert pieces[1] == Split(rest, [c])[0];
    assert |pieces| == 1 + |Split(rest, [c])|;
  }

  /** Joining the pieces of a split with the same separator gives back the
      original string. */
  lemma {:induction false} JoinSplit(s: string, sep: string)
    requires |sep| > 0
    ensures Join(Split(s, sep), sep) == s
    decreases |s|
  {
    var pieces := Split(s, sep);
    SplitFirst(s, sep);
    if |pieces| > 1 {
      var p0 := pieces[0];
      var rest := s[|p0| + |sep|..];
      var tail := pieces[1..];
      assert tail == Split(rest, sep);
      JoinSplit(rest, sep);
      assert Join(tail, sep) == rest;
      assert pieces == [p0] + tail;
      assert Join(pieces, sep) == p0 + sep + Join(tail, sep);
      ThreeParts(s, |p0|, |p0| + |sep|);
    }
  }

  /** A text is its three slices at two cut points. */
  lemma ThreeParts(s: string, i: nat, j: nat)
    requires i <= j <= |s|
    ensures s == s[..i] + s[i..j] + s[j..]
  {
    assert s[..j] == s[..i] + s[i..j];
    assert s == s[..j] + s[j..];
  }

  /** A character in none of the pieces and not in the separator is not in
      their join. */
  lemma {:induction false} JoinFree(pieces: seq<string>, sep: string, c: char)
    requires forall p :: p in pieces ==> c !in p
    requires c !in sep
    ensures c !in Join(pieces, sep)
    decreases |pieces|
  {
    if |pieces| > 1 {
      assert pieces[0] in pieces;
      forall p | p in pieces[1..] ensures c !in p {
        assert p in pieces;
      }
      JoinFree(pieces[1..], sep, c);
    } else if |pieces| == 1 {
      assert pieces[0] in pieces;
    }
  }

  /** Joining two pieces puts the separator between them. */
  lemma JoinTwo(a: string, b: string, sep: string)
    ensures Join([a, b], sep) == a + sep + b
  {
    assert [a, b][1..] == [b];
  }

  /** Splitting a join gives back the pieces, provided the separator's first
      character occurs in none of them. */
  lemma {:induction false} SplitJoin(pieces: seq<string>, sep: string)
    requires |sep| > 0 && |pieces| >= 1
    requires forall p :: p in pieces ==> sep[0] !in p
    ensures Split(Join(pieces, sep), sep) == pieces
    decreases |pieces|
  {
    var s := Join(pieces, sep);
    var p0 := pieces[0];
    forall k: nat | k < |p0|
      ensures !MatchAt(s, sep, k)
    {
      assert s[k] == p0[k];
      assert p0[k] in p0;
    }
    if |pieces| == 1 {
      assert s == p0;
      assert IndexOf(s, sep, 0).None?;
    } else {
      var rest := Join(pieces[1..], sep);
      assert s == p0 + sep + rest;
      assert s[..|p0|] == p0;
      assert s[|p0|..|p0| + |sep|] == sep;
      IndexOfIs(s, sep, 0, |p0|);
      assert s[|p0| + |sep|..] == rest;
      assert Split(s, sep) == [p0] + Split(rest, sep);
      SplitJoin(pieces[1..], sep);
    }
  }

  /** The white space `String.prototype.trim` removes: the ECMAScript
      WhiteSpace characters (tab, vertical tab, form feed, ZWNBSP and every
      Unicode space separator) and LineTerminator characters. */
  predicate IsJsWhiteSpace(c: char)
  {
    var n := c as int;
    || (0x9 <= n <= 0xD) || n == 0x20 || n == 0xA0 || n == 0x1680
    || (0x2000 <= n <= 0x200A) || n == 0x2028 || n == 0x2029 || n == 0x202F
    || n == 0x205F || n == 0x3000 || n == 0xFEFF
  }

  /** True when every character of `s` is white space. */
  predicate IsWhiteSpaceOnly(s: string)
  {
    forall k :: 0 <= k < |s| ==> IsJsWhiteSpace(s[k])
  }

  /** True when `s` neither starts nor ends with white space. */
  predicate IsTrimmed(s: string)
  {
    s == [] || (!IsJsWhiteSpace(s[0]) && !IsJsWhiteSpace(s[|s| - 1]))
  }

  /** The index of the first character of `s`, at `i` or after it, that is
      not white space; `|s|` when there is none. */
  function SkipWhiteSpace(s: string, i: nat): (j: nat)
    requires i <= |s|
    ensures i <= j <= |s|
    ensures forall k :: i <= k < j ==> IsJsWhiteSpace(s[k])
    ensures j == |s| || !IsJsWhiteSpace(s[j])
    decreases |s| - i
  {
    if i < |s| && IsJsWhiteSpace(s[i]) then SkipWhiteSpace(s, i + 1) else i
  }

  /** Scanning back from `j`, and no further than `lo`: the index just after
      the last character that is not white space; `lo` when there is none. */
  function SkipWhiteSpaceBack(s: string, lo: nat, j: nat): (i: nat)
    requires lo <= j <= |s|
    ensures lo <= i <= j
    ensures forall k :: i <= k < j ==> IsJsWhiteSpace(s[k])
    ensures i == lo || !IsJsWhiteSpace(s[i - 1])
    decreases j - lo
  {
    if lo < j && IsJsWhiteSpace(s[j - 1]) then SkipWhiteSpaceBack(s, lo, j - 1) else j
  }

  /** `s.trim()`: `s` without its leading and trailing white space. */
  function Trim(s: string): string
  {
    var i := SkipWhiteSpace(s, 0);
    s[i..SkipWhiteSpaceBack(s, i, |s|)]
  }

  /** Any index with only white space between `i` and it, and no white space
      at it, is where `SkipWhiteSpace` stops. */
  lemma SkipWhiteSpaceAt(s: string, i: nat, m: nat)
    requires i <= m <= |s|
    requires forall k :: i <= k < m ==> IsJsWhiteSpace(s[k])
    requires m == |s| || !IsJsWhiteSpace(s[m])
    ensures SkipWhiteSpace(s, i) == m
  {
  }

  /** Any index with only white space between it and `j`, and no white space
      just before it (or equal to `lo`), is where `SkipWhiteSpaceBack` stops. */
  lemma SkipWhiteSpaceBackAt(s: string, lo: nat, j: nat, m: nat)
    requires lo <= m <= j <= |s|
    requires forall k :: m <= k < j ==> IsJsWhiteSpace(s[k])
    requires m == lo || !IsJsWhiteSpace(s[m - 1])
    ensures SkipWhiteSpaceBack(s, lo, j) == m
  {
  }

  /** A trimmed text neither starts nor ends with white space. */
  lemma TrimIsTrimmed(s: string)
    ensures IsTrimmed(Trim(s))
  {
    var i := SkipWhiteSpace(s, 0);
    var j := SkipWhiteSpaceBack(s, i, |s|);
    var t := s[i..j];
    if t != [] {
      assert t[0] == s[i] && t[|t| - 1] == s[j - 1];
    }
  }

  /** The input is the trimmed text with only white space before and after it. */
  lemma TrimRemovesWhiteSpace(s: string)
    ensures exists i, j :: 0 <= i <= j <= |s| && Trim(s) == s[i..j]
                           && IsWhiteSpaceOnly(s[..i]) && IsWhiteSpaceOnly(s[j..])
  {
    var i := SkipWhiteSpace(s, 0);
    var j := SkipWhiteSpaceBack(s, i, |s|);
    assert IsWhiteSpaceOnly(s[..i]);
    assert IsWhiteSpaceOnly(s[j..]);
  }

  /** Conversely, trimming white space off both sides of a trimmed text gives
      that text back. */
  lemma TrimPadded(pre: string, t: string, post: string)
    requires IsWhiteSpaceOnly(pre) && IsWhiteSpaceOnly(post)
    requires IsTrimmed(t)
    ensures Trim(pre + t + post) == t
  {
    var s := pre + t + post;
    var e := |pre| + |t|;
    forall k | 0 <= k < |pre|
      ensures IsJsWhiteSpace(s[k])
    {
      assert s[k] == pre[k];
    }
    forall k | e <= k < |s|
      ensures IsJsWhiteSpace(s[k])
    {
      assert s[k] == post[k - e];
    }
    if t == [] {
      SkipWhiteSpaceAt(s, 0, |s|);
      SkipWhiteSpaceBackAt(s, |s|, |s|, |s|);
    } else {
      assert s[|pre|] == t[0] && s[e - 1] == t[|t| - 1];
      SkipWhiteSpaceAt(s, 0, |pre|);
      SkipWhiteSpaceBackAt(s, |pre|, |s|, e);
      assert s[|pre|..e] == t;
    }
  }
}
