/** The string methods the modelled code relies on: `indexOf`, `includes`, `split`
    with a string separator, and `join`. */
module JsText {

  /** `needle` occurs in `s` starting at index `i`. */
  predicate OccursAt(s: string, needle: string, i: nat) {
    i + |needle| <= |s| && s[i..i + |needle|] == needle
  }

  /** `s.indexOf(needle, from)`: the first occurrence at or after `from`, or -1
      (`IndexFromSpec`). */
  function IndexFrom(s: string, needle: string, from: nat): (r: int)
    requires from <= |s|
    ensures r == -1 || (from <= r && r + |needle| <= |s|)
    decreases |s| - from
  {
    if OccursAt(s, needle, from) then from
    else if from + |needle| >= |s| then -1
    else IndexFrom(s, needle, from + 1)
  }

  lemma {:induction false} IndexFromSpec(s: string, needle: string, from: nat)
    requires from <= |s|
    ensures var r := IndexFrom(s, needle, from);
      && (r != -1 ==> OccursAt(s, needle, r) && forall i :: from <= i < r ==> !OccursAt(s, needle, i))
      && (r == -1 ==> forall i :: from <= i <= |s| ==> !OccursAt(s, needle, i))
    decreases |s| - from
  {
    if !OccursAt(s, needle, from) && from + |needle| < |s| {
      IndexFromSpec(s, needle, from + 1);
    }
  }

  /** `s.indexOf(needle)`. */
  function IndexOf(s: string, needle: string): (r: int)
    ensures r == -1 || (0 <= r && r + |needle| <= |s|)
  {
    IndexFrom(s, needle, 0)
  }

  /** `indexOf` gives -1 exactly when `needle` does not occur, and otherwise a
      position where it occurs, ... */
  lemma IndexOfFound(s: string, needle: string)
    ensures var r := IndexOf(s, needle);
      && (r == -1 <==> !Includes(s, needle))
      && (r != -1 ==> OccursAt(s, needle, r))
  {
    IndexFromSpec(s, needle, 0);
  }

  /** ... and that position is the first one. */
  lemma IndexOfFirst(s: string, needle: string)
    ensures var r := IndexOf(s, needle);
      r != -1 ==> forall i :: 0 <= i < r ==> !OccursAt(s, needle, i)
  {
    IndexFromSpec(s, needle, 0);
  }

  /** The text before the first occurrence does not contain the needle. */
  lemma BeforeFirstClean(s: string, needle: string)
    requires needle != ""
    ensures var r := IndexOf(s, needle);
      r != -1 ==> !Includes(s[..r], needle)
  {
    var r := IndexOf(s, needle);
    IndexOfFirst(s, needle);
    if r != -1 {
      NoneBeforeFirst(s, needle, r);
    }
  }

  /** `s.includes(needle)`: `needle` occurs somewhere in `s`. */
  predicate Includes(s: string, needle: string) {
    exists i :: 0 <= i <= |s| && OccursAt(s, needle, i)
  }

  lemma IncludesAt(s: string, needle: string, i: nat)
    requires OccursAt(s, needle, i)
    ensures Includes(s, needle)
  {
  }

  /** An occurrence inside a prefix of `s` is an occurrence in `s`. */
  lemma OccursInPrefix(s: string, needle: string, n: nat, i: nat)
    requires n <= |s| && i + |needle| <= n
    ensures OccursAt(s[..n], needle, i) == OccursAt(s, needle, i)
  {
    assert s[..n][i..i + |needle|] == s[i..i + |needle|];
  }

  /** Adjacent occurrences of `a` and `b` form an occurrence of `a + b`. */
  lemma OccursConcat(s: string, a: string, b: string, i: nat)
    requires OccursAt(s, a, i) && OccursAt(s, b, i + |a|)
    ensures OccursAt(s, a + b, i)
  {
    assert s[i..i + |a| + |b|] == s[i..i + |a|] + s[i + |a|..i + |a| + |b|];
  }

  /** An occurrence inside a suffix of `s` is an occurrence in `s`, shifted. */
  lemma OccursInSuffix(s: string, needle: string, k: nat, i: nat)
    requires k <= |s|
    ensures OccursAt(s[k..], needle, i) == OccursAt(s, needle, k + i)
  {
    if k + i + |needle| <= |s| {
      assert s[k..][i..i + |needle|] == s[k + i..k + i + |needle|];
    }
  }

  /** The text before the first occurrence of `needle` does not contain it. */
  lemma NoneBeforeFirst(s: string, needle: string, q: nat)
    requires needle != "" && q <= |s|
    requires forall i :: 0 <= i < q ==> !OccursAt(s, needle, i)
    ensures !Includes(s[..q], needle)
  {
    forall j | 0 <= j <= q ensures !OccursAt(s[..q], needle, j) {
      if j + |needle| <= q {
        OccursInPrefix(s, needle, q, j);
      }
    }
  }

  /** `xs.join(sep)`. */
  function JoinWith(xs: seq<string>, sep: string): string {
    if |xs| == 0 then ""
    else if |xs| == 1 then xs[0]
    else xs[0] + sep + JoinWith(xs[1..], sep)
  }

  /** `s.split(sep)` for a non-empty separator: the pieces between successive
      occurrences, scanning from the left. There is always at least one piece,
      and joining the pieces gives `s` back (`SplitJoin`). */
  function Split(s: string, sep: string): (r: seq<string>)
    requires sep != ""
    ensures |r| >= 1
    decreases |s|
  {
    var i := IndexOf(s, sep);
    if i == -1 then [s]
    else [s[..i]] + Split(s[i + |sep|..], sep)
  }

  /** `s.split(sep).join(sep) == s`. */
  lemma {:induction false} SplitJoin(s: string, sep: string)
    requires sep != ""
    ensures JoinWith(Split(s, sep), sep) == s
    decreases |s|
  {
    SplitUnfold(s, sep);
    IndexOfFound(s, sep);
    if IndexOf(s, sep) != -1 {
      SplitJoin(s[IndexOf(s, sep) + |sep|..], sep);
      AroundOccurrence(s, sep, IndexOf(s, sep));
      JoinCons(s[..IndexOf(s, sep)], Split(s[IndexOf(s, sep) + |sep|..], sep), sep);
    }
  }

  /** Text is the part before an occurrence, the occurrence, and the part after. */
  lemma AroundOccurrence(s: string, needle: string, i: nat)
    requires OccursAt(s, needle, i)
    ensures s == s[..i] + needle + s[i + |needle|..]
  {
    assert s == s[..i] + s[i..i + |needle|] + s[i + |needle|..];
  }

  lemma JoinCons(head: string, rest: seq<string>, sep: string)
    requires rest != []
    ensures JoinWith([head] + rest, sep) == head + sep + JoinWith(rest, sep)
  {
    assert ([head] + rest)[1..] == rest;
  }

  /** No piece contains the separator. */
  lemma {:induction false} SplitPiecesClean(s: string, sep: string)
    requires sep != ""
    ensures forall k :: 0 <= k < |Split(s, sep)| ==> !Includes(Split(s, sep)[k], sep)
    decreases |s|
  {
    SplitUnfold(s, sep);
    IndexOfFound(s, sep);
    BeforeFirstClean(s, sep);
    if IndexOf(s, sep) != -1 {
      SplitPiecesClean(s[IndexOf(s, sep) + |sep|..], sep);
      forall k | 0 < k < |Split(s, sep)| ensures !Includes(Split(s, sep)[k], sep) {
        assert Split(s, sep)[k] == Split(s[IndexOf(s, sep) + |sep|..], sep)[k - 1];
      }
    }
  }

  /** There is more than one piece exactly when the separator occurs. */
  lemma SplitCount(s: string, sep: string)
    requires sep != ""
    ensures |Split(s, sep)| > 1 <==> Includes(s, sep)
  {
    SplitUnfold(s, sep);
    IndexOfFound(s, sep);
  }

  /** The second piece is the first piece of what follows the first separator. */
  lemma SplitSecond(s: string, sep: string)
    requires sep != "" && Includes(s, sep)
    ensures 0 <= IndexOf(s, sep) && |Split(s, sep)| > 1
    ensures Split(s, sep)[1] == Split(s[IndexOf(s, sep) + |sep|..], sep)[0]
  {
    SplitUnfold(s, sep);
    IndexOfFound(s, sep);
  }

  /** `p` is what `s.split(sep)[0]` gives: the text before the first `sep`, or all
      of `s` when `sep` does not occur. No occurrence of `sep` starts inside `p`,
      so at most one text is a first piece (`FirstPieceUnique`). */
  predicate IsFirstPiece(s: string, p: string, sep: string) {
    && |p| <= |s| && s[..|p|] == p
    && !Includes(p, sep)
    && (forall i :: 0 <= i < |p| ==> !OccursAt(s, sep, i))
    && (p == s || OccursAt(s, sep, |p|))
  }

  /** The left-to-right scan of `s.split(sep)` cuts at an occurrence of `sep` at
      `j`: the scan cuts at the first occurrence, then goes on after it. With a
      separator that overlaps itself, such as "XYX" in "XYXYX", not every
      occurrence is a cut. */
  predicate CutAt(s: string, sep: string, j: nat)
    requires sep != ""
    decreases |s|
  {
    var i := IndexOf(s, sep);
    i != -1 && (j == i || (i + |sep| <= j && CutAt(s[i + |sep|..], sep, j - i - |sep|)))
  }

  /** `p` is what `s.split(sep).slice(-1)[0]` gives: the text after the last cut
      of the scan, or all of `s` when `sep` does not occur. At most one text is a
      last piece (`LastPieceUnique`). */
  predicate IsLastPiece(s: string, p: string, sep: string)
    requires sep != ""
  {
    && |p| <= |s| && s[|s| - |p|..] == p
    && !Includes(p, sep)
    && (p == s || (|p| + |sep| <= |s| && OccursAt(s, sep, |s| - |p| - |sep|) && CutAt(s, sep, |s| - |p| - |sep|)))
  }

  /** A first piece is determined by the text and the separator. */
  lemma FirstPieceUnique(s: string, p: string, q: string, sep: string)
    requires IsFirstPiece(s, p, sep) && IsFirstPiece(s, q, sep)
    ensures p == q
  {
  }

  /** A cut is an occurrence of the separator. */
  lemma {:induction false} CutOccurs(s: string, sep: string, j: nat)
    requires sep != "" && CutAt(s, sep, j)
    ensures OccursAt(s, sep, j)
    decreases |s|
  {
    var i := IndexOf(s, sep);
    if j == i {
      IndexOfOccurs(s, sep);
    } else {
      var tail := s[i + |sep|..];
      assert i != -1 && i + |sep| <= j && CutAt(tail, sep, j - i - |sep|);
      CutOccurs(tail, sep, j - i - |sep|);
      OccursInSuffix(s, sep, i + |sep|, j - i - |sep|);
    }
  }

  /** A found position is an occurrence. */
  lemma IndexOfOccurs(s: string, needle: string)
    ensures IndexOf(s, needle) != -1 ==> OccursAt(s, needle, IndexOf(s, needle))
  {
    IndexFromSpec(s, needle, 0);
  }

  /** Two cuts never overlap: the later one starts after the earlier one ends. */
  lemma {:induction false} CutsApart(s: string, sep: string, j: nat, k: nat)
    requires sep != "" && CutAt(s, sep, j) && CutAt(s, sep, k) && j < k
    ensures j + |sep| <= k
    decreases |s|
  {
    var i := IndexOf(s, sep);
    if j != i {
      CutsApart(s[i + |sep|..], sep, j - i - |sep|, k - i - |sep|);
    }
  }

  /** A last piece is determined by the text and the separator. */
  lemma LastPieceUnique(s: string, p: string, q: string, sep: string)
    requires sep != "" && IsLastPiece(s, p, sep) && IsLastPiece(s, q, sep)
    ensures p == q
  {
    if |p| < |q| {
      LastPieceCut(s, p, sep);
      CutInLonger(s, sep, q, |s| - |p| - |sep|);
    } else if |q| < |p| {
      LastPieceCut(s, q, sep);
      CutInLonger(s, sep, p, |s| - |q| - |sep|);
    }
  }

  /** A cut at `k` lies inside a suffix that is the whole text or starts after an
      earlier cut, so that suffix holds the separator. */
  lemma CutInLonger(s: string, sep: string, long: string, k: nat)
    requires sep != "" && CutAt(s, sep, k) && OccursAt(s, sep, k)
    requires |long| <= |s| && s[|s| - |long|..] == long && |s| - |long| - |sep| < k
    requires long == s || (|long| + |sep| <= |s| && CutAt(s, sep, |s| - |long| - |sep|))
    ensures Includes(long, sep)
  {
    if long == s {
      IncludesAt(s, sep, k);
    } else {
      CutInsideSuffix(s, sep, |s| - |long| - |sep|, k);
    }
  }

  /** A later cut lies inside the text after an earlier one. */
  lemma CutInsideSuffix(s: string, sep: string, j: nat, k: nat)
    requires sep != "" && CutAt(s, sep, j) && CutAt(s, sep, k) && j < k
    requires OccursAt(s, sep, k)
    ensures j + |sep| <= |s| && Includes(s[j + |sep|..], sep)
  {
    CutsApart(s, sep, j, k);
    ShiftedOccurrence(s, sep, j + |sep|, k, s[j + |sep|..]);
  }

  /** Before a last piece other than the whole text the scan cuts. */
  lemma LastPieceCut(s: string, p: string, sep: string)
    requires sep != "" && IsLastPiece(s, p, sep) && p != s
    ensures |p| + |sep| <= |s| && OccursAt(s, sep, |s| - |p| - |sep|) && CutAt(s, sep, |s| - |p| - |sep|)
  {
  }

  /** An occurrence at `k` inside the suffix `long` from `m` is one in `long`. */
  lemma ShiftedOccurrence(s: string, sep: string, m: nat, k: nat, long: string)
    requires m <= k && m <= |s| && s[m..] == long && OccursAt(s, sep, k)
    ensures Includes(long, sep)
  {
    OccursInSuffix(s, sep, m, k - m);
    IncludesAt(long, sep, k - m);
  }

  lemma SplitFirst(s: string, sep: string)
    requires sep != ""
    ensures IsFirstPiece(s, Split(s, sep)[0], sep)
  {
    SplitUnfold(s, sep);
    IndexOfFound(s, sep);
    IndexOfFirst(s, sep);
    BeforeFirstClean(s, sep);
    if IndexOf(s, sep) == -1 {
      assert s[..|s|] == s;
    }
  }

  /** `s.split(sep)[0]`. */
  function FirstPiece(s: string, sep: string): (p: string)
    requires sep != ""
    ensures IsFirstPiece(s, p, sep)
  {
    SplitFirst(s, sep);
    Split(s, sep)[0]
  }

  /** `s.split(sep)[1]`, which exists exactly when `sep` occurs (`SplitCount`): the
      text after the first `sep` up to the next one. */
  function SecondPiece(s: string, sep: string): (p: string)
    requires sep != "" && Includes(s, sep)
    ensures 0 <= IndexOf(s, sep)
    ensures OccursAt(s, sep + p, IndexOf(s, sep))
    ensures IsFirstPiece(s[IndexOf(s, sep) + |sep|..], p, sep)
  {
    SecondPieceFirst(s, sep);
    SecondPieceJoined(s, sep);
    Split(s, sep)[1]
  }

  /** The second piece is the first piece of the text after the first separator. */
  lemma SecondPieceFirst(s: string, sep: string)
    requires sep != "" && Includes(s, sep)
    ensures 0 <= IndexOf(s, sep) && |Split(s, sep)| > 1
    ensures IsFirstPiece(s[IndexOf(s, sep) + |sep|..], Split(s, sep)[1], sep)
  {
    SplitSecond(s, sep);
    SplitFirst(s[IndexOf(s, sep) + |sep|..], sep);
  }

  /** The first separator followed by the second piece occurs where the separator does. */
  lemma SecondPieceJoined(s: string, sep: string)
    requires sep != "" && Includes(s, sep)
    ensures 0 <= IndexOf(s, sep) && |Split(s, sep)| > 1
    ensures OccursAt(s, sep + Split(s, sep)[1], IndexOf(s, sep))
  {
    IndexOfFound(s, sep);
    SecondPieceFirst(s, sep);
    PrefixOfSuffix(s, Split(s, sep)[1], IndexOf(s, sep) + |sep|);
    OccursConcat(s, sep, Split(s, sep)[1], IndexOf(s, sep));
  }

  /** A prefix of the suffix from `k` occurs at `k`. */
  lemma PrefixOfSuffix(s: string, p: string, k: nat)
    requires k <= |s| && |p| <= |s| - k && s[k..][..|p|] == p
    ensures OccursAt(s, p, k)
  {
    assert s[k..k + |p|] == s[k..][..|p|];
  }

  /** The last of a non-empty list of pieces. */
  function Last(r: seq<string>): string
    requires r != []
  {
    r[|r| - 1]
  }

  lemma {:induction false} SplitLast(s: string, sep: string)
    requires sep != ""
    ensures IsLastPiece(s, Last(Split(s, sep)), sep)
    decreases |s|
  {
    IndexOfFound(s, sep);
    if IndexOf(s, sep) != -1 {
      LastOfSplitSome(s, sep);
      SplitLast(s[IndexOf(s, sep) + |sep|..], sep);
      LastPieceOfTail(s, sep, IndexOf(s, sep), Last(Split(s[IndexOf(s, sep) + |sep|..], sep)));
    } else {
      LastOfSplitNone(s, sep);
      WholeIsLastPiece(s, sep);
    }
  }

  /** Without a separator the last piece is the whole text ... */
  lemma LastOfSplitNone(s: string, sep: string)
    requires sep != "" && IndexOf(s, sep) == -1
    ensures Last(Split(s, sep)) == s
  {
    SplitUnfold(s, sep);
  }

  /** ... and otherwise the last piece of what follows the first separator. */
  lemma LastOfSplitSome(s: string, sep: string)
    requires sep != "" && IndexOf(s, sep) != -1
    ensures Last(Split(s, sep)) == Last(Split(s[IndexOf(s, sep) + |sep|..], sep))
  {
    SplitUnfold(s, sep);
    LastOfCons(s[..IndexOf(s, sep)], Split(s[IndexOf(s, sep) + |sep|..], sep));
  }

  /** `s.split(sep).slice(-1)[0]`. */
  function LastPiece(s: string, sep: string): (p: string)
    requires sep != ""
    ensures IsLastPiece(s, p, sep)
  {
    SplitLast(s, sep);
    Last(Split(s, sep))
  }

  /** One step of `Split`: the text before the first separator, then the pieces
      of what follows it. */
  lemma SplitUnfold(s: string, sep: string)
    requires sep != ""
    ensures Split(s, sep) == if IndexOf(s, sep) == -1 then [s]
      else [s[..IndexOf(s, sep)]] + Split(s[IndexOf(s, sep) + |sep|..], sep)
  {
  }

  lemma LastOfCons(x: string, rest: seq<string>)
    requires rest != []
    ensures Last([x] + rest) == Last(rest)
  {
  }

  /** A text without the separator is its own last piece. */
  lemma WholeIsLastPiece(s: string, sep: string)
    requires sep != "" && !Includes(s, sep)
    ensures IsLastPiece(s, s, sep)
  {
    assert s[|s| - |s|..] == s;
  }

  /** A last piece of the text after the first `sep` is a last piece of the whole. */
  lemma LastPieceOfTail(s: string, sep: string, i: nat, p: string)
    requires sep != "" && i == IndexOf(s, sep)
    requires IsLastPiece(s[i + |sep|..], p, sep)
    ensures IsLastPiece(s, p, sep)
  {
    var tail := s[i + |sep|..];
    IndexOfOccurs(s, sep);
    TailPositions(s, sep, i, p, p == tail);
    var j := |s| - |p| - |sep|;
    if p != tail {
      assert j - i - |sep| == |tail| - |p| - |sep|;
      assert CutAt(tail, sep, j - i - |sep|);
    }
    assert CutAt(s, sep, j);
  }

  /** Where a last piece of the text after an occurrence of `sep` sits in the
      whole text. */
  lemma TailPositions(s: string, sep: string, i: nat, p: string, whole: bool)
    requires OccursAt(s, sep, i)
    requires var tail := s[i + |sep|..];
      && |p| <= |tail| && tail[|tail| - |p|..] == p
      && (whole ==> p == tail)
      && (!whole ==> |p| + |sep| <= |tail| && OccursAt(tail, sep, |tail| - |p| - |sep|))
    ensures |p| + |sep| <= |s| && s[|s| - |p|..] == p
    ensures OccursAt(s, sep, |s| - |p| - |sep|)
  {
    var m := i + |sep|;
    SuffixOfSuffix(s, m, |p|);
    if !whole {
      OccursInSuffix(s, sep, m, |s| - m - |p| - |sep|);
    }
  }

  /** The last `n` characters of a suffix are the last `n` of the whole. */
  lemma SuffixOfSuffix(s: string, m: nat, n: nat)
    requires m <= |s| && n <= |s| - m
    ensures s[m..][|s| - m - n..] == s[|s| - n..]
  {
  }
}
