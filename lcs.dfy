/**
 * The longest-common-subsequence alignment of two sibling lists used by the tree diff
 * (`SetupLCS` and `GetCommonAndMissingNodes` in dom-compare/find_tree_diff.py).
 *
 * The node comparison is a parameter `eq`; the diff passes its `NodesEqual`.
 */
module Lcs {

  function Max(a: int, b: int): int {
    if a >= b then a else b
  }

  /**
   * The length of a longest common subsequence under `eq` of `xs[0..i]` and `ys[0..j]`,
   * both inclusive; an index of -1 stands for an empty prefix.
   */
  ghost function LcsLength<T>(eq: (T, T) -> bool, xs: seq<T>, ys: seq<T>, i: int, j: int): (r: nat)
    requires -1 <= i < |xs| && -1 <= j < |ys|
    ensures r <= i + 1 && r <= j + 1
    decreases i + j + 2
  {
    if i < 0 || j < 0 then 0
    else if eq(xs[i], ys[j]) then LcsLength(eq, xs, ys, i - 1, j - 1) + 1
    else Max(LcsLength(eq, xs, ys, i, j - 1), LcsLength(eq, xs, ys, i - 1, j))
  }

  /** Python's reading of index `i` of a list of length `len`: -1 is the last element. */
  function PyIndex(i: int, len: nat): (k: nat)
    requires 0 <= len + i && i < len
    ensures k < len && (i >= 0 ==> k == i) && (i < 0 ==> k == len + i)
  {
    if i < 0 then len + i else i
  }

  /**
   * The table `SetupLCS` leaves: `(n+1) x (m+1)`, entry `[i, j]` the LCS length of the
   * prefixes ending at `i` and `j`, and the last row and column, never written, zero.
   */
  ghost predicate IsLcsTable<T>(eq: (T, T) -> bool, c: array2<int>, xs: seq<T>, ys: seq<T>)
    reads c
  {
    && c.Length0 == |xs| + 1 && c.Length1 == |ys| + 1
    && (forall i, j :: 0 <= i < |xs| && 0 <= j < |ys| ==> c[i, j] == LcsLength(eq, xs, ys, i, j))
    && (forall j :: 0 <= j <= |ys| ==> c[|xs|, j] == 0)
    && (forall i :: 0 <= i <= |xs| ==> c[i, |ys|] == 0)
  }

  /** The table once the cells of the rows before `i`, and of row `i` before `j`, are written. */
  ghost predicate FilledUpTo<T>(eq: (T, T) -> bool, c: array2<int>, xs: seq<T>, ys: seq<T>, i: int, j: int)
    reads c
  {
    && c.Length0 == |xs| + 1 && c.Length1 == |ys| + 1
    && (forall a, b :: 0 <= a < |xs| && 0 <= b < |ys| && (a < i || (a == i && b < j)) ==>
          c[a, b] == LcsLength(eq, xs, ys, a, b))
    && (forall a, b :: 0 <= a <= |xs| && 0 <= b <= |ys| && !(a < |xs| && b < |ys| && (a < i || (a == i && b < j))) ==>
          c[a, b] == 0)
  }

  /**
   * Reading the table the way the backtrack does, with -1 wrapping around to the last
   * row or column, gives the LCS length of the prefixes, and 0 for an empty prefix.
   */
  lemma TableReads<T>(eq: (T, T) -> bool, c: array2<int>, xs: seq<T>, ys: seq<T>, i: int, j: int)
    requires IsLcsTable(eq, c, xs, ys)
    requires -1 <= i < |xs| && -1 <= j < |ys|
    ensures c[PyIndex(i, |xs| + 1), PyIndex(j, |ys| + 1)] == LcsLength(eq, xs, ys, i, j)
  {
  }

  /**
   * `SetupLCS`: fills the table row by row. A cell reads its neighbours at `i - 1` and
   * `j - 1`, which at 0 wrap around to the zero last row or column, as in Python.
   */
  method SetupLCS<T>(eq: (T, T) -> bool, xs: seq<T>, ys: seq<T>) returns (c: array2<int>)
    ensures IsLcsTable(eq, c, xs, ys)
  {
    var n, m := |xs|, |ys|;
    c := new int[n + 1, m + 1]((_, _) => 0);
    for i := 0 to n
      invariant FilledUpTo(eq, c, xs, ys, i, 0)
    {
      for j := 0 to m
        invariant FilledUpTo(eq, c, xs, ys, i, j)
      {
        if eq(xs[i], ys[j]) {
          c[i, j] := c[PyIndex(i - 1, n + 1), PyIndex(j - 1, m + 1)] + 1;
        } else {
          c[i, j] := Max(c[i, PyIndex(j - 1, m + 1)], c[PyIndex(i - 1, n + 1), j]);
        }
      }
    }
  }

  predicate Increasing(s: seq<int>) {
    forall a, b :: 0 <= a < b < |s| ==> s[a] < s[b]
  }

  predicate InRange(s: seq<int>, n: int) {
    forall k :: 0 <= k < |s| ==> 0 <= s[k] < n
  }

  /** `ix` and `jx` pick a common subsequence of `xs` and `ys`: increasing positions that match in pairs. */
  ghost predicate IsCommonSubsequence<T>(eq: (T, T) -> bool, xs: seq<T>, ys: seq<T>, ix: seq<int>, jx: seq<int>) {
    && |ix| == |jx|
    && Increasing(ix) && Increasing(jx)
    && InRange(ix, |xs|) && InRange(jx, |ys|)
    && forall k :: 0 <= k < |ix| ==> eq(xs[ix[k]], ys[jx[k]])
  }

  /** Every index below `n` is in exactly one of `ix` and `ms`, both in increasing order. */
  predicate Partitions(n: int, ix: seq<int>, ms: seq<int>) {
    && Increasing(ix) && Increasing(ms)
    && InRange(ix, n) && InRange(ms, n)
    && forall k :: 0 <= k < n ==> (k in ix <==> k !in ms)
  }

  /** The positions a backtrack chooses: matched correct, matched testing and missing correct nodes. */
  datatype Alignment = Alignment(correctIdx: seq<int>, testingIdx: seq<int>, missingIdx: seq<int>)

  /**
   * The positions `GetCommonAndMissingNodes` collects from `(i, j)` down: a match moves
   * both indices; otherwise the testing index moves when `c[i][j-1] >= c[i-1][j]`, and
   * the correct node is marked missing when `c[i][j-1] < c[i-1][j]` or `j < 0`.
   */
  ghost function Align<T>(eq: (T, T) -> bool, xs: seq<T>, ys: seq<T>, i: int, j: int): (a: Alignment)
    requires -1 <= i < |xs| && -1 <= j < |ys|
    ensures |a.correctIdx| == |a.testingIdx|
    ensures InRange(a.correctIdx, i + 1) && InRange(a.testingIdx, j + 1) && InRange(a.missingIdx, i + 1)
    decreases i + j + 2
  {
    if i < 0 && j < 0 then Alignment([], [], [])
    else if i < 0 then Align(eq, xs, ys, i, j - 1)
    else if j < 0 then
      var a := Align(eq, xs, ys, i - 1, j);
      a.(missingIdx := a.missingIdx + [i])
    else if eq(xs[i], ys[j]) then
      var a := Align(eq, xs, ys, i - 1, j - 1);
      Alignment(a.correctIdx + [i], a.testingIdx + [j], a.missingIdx)
    else if LcsLength(eq, xs, ys, i, j - 1) >= LcsLength(eq, xs, ys, i - 1, j) then
      Align(eq, xs, ys, i, j - 1)
    else
      var a := Align(eq, xs, ys, i - 1, j);
      a.(missingIdx := a.missingIdx + [i])
  }

  lemma AppendAbove(s: seq<int>, i: int, n: int)
    requires Increasing(s) && InRange(s, i) && 0 <= i < n
    ensures Increasing(s + [i]) && InRange(s + [i], n)
    ensures forall k :: k in s + [i] <==> k in s || k == i
    ensures i !in s
  {
  }

  /**
   * The backtrack from `(i, j)` picks a common subsequence of the two prefixes of the
   * full LCS length, and splits `xs[0..i]` into the matched and the missing nodes.
   */
  lemma {:induction false} AlignCorrect<T>(eq: (T, T) -> bool, xs: seq<T>, ys: seq<T>, i: int, j: int)
    requires -1 <= i < |xs| && -1 <= j < |ys|
    ensures var a := Align(eq, xs, ys, i, j);
      && IsCommonSubsequence(eq, xs, ys, a.correctIdx, a.testingIdx)
      && |a.correctIdx| == LcsLength(eq, xs, ys, i, j)
      && Partitions(i + 1, a.correctIdx, a.missingIdx)
    decreases i + j + 2
  {
    if i < 0 && j < 0 {
    } else if i < 0 {
      AlignCorrect(eq, xs, ys, i, j - 1);
    } else if j < 0 {
      AlignCorrect(eq, xs, ys, i - 1, j);
      var a := Align(eq, xs, ys, i - 1, j);
      MissExtends(a.correctIdx, a.missingIdx, i);
    } else if eq(xs[i], ys[j]) {
      AlignCorrect(eq, xs, ys, i - 1, j - 1);
      var a := Align(eq, xs, ys, i - 1, j - 1);
      MatchExtends(eq, xs, ys, a.correctIdx, a.testingIdx, a.missingIdx, i, j);
    } else if LcsLength(eq, xs, ys, i, j - 1) >= LcsLength(eq, xs, ys, i - 1, j) {
      AlignCorrect(eq, xs, ys, i, j - 1);
    } else {
      AlignCorrect(eq, xs, ys, i - 1, j);
      var a := Align(eq, xs, ys, i - 1, j);
      MissExtends(a.correctIdx, a.missingIdx, i);
    }
  }

  /** A matching pair after both prefixes extends a common subsequence and the partition of `xs[0..i]`. */
  lemma MatchExtends<T>(eq: (T, T) -> bool, xs: seq<T>, ys: seq<T>, ix: seq<int>, jx: seq<int>, ms: seq<int>, i: int, j: int)
    requires 0 <= i < |xs| && 0 <= j < |ys| && eq(xs[i], ys[j])
    requires IsCommonSubsequence(eq, xs, ys, ix, jx) && InRange(jx, j) && Partitions(i, ix, ms)
    ensures IsCommonSubsequence(eq, xs, ys, ix + [i], jx + [j]) && Partitions(i + 1, ix + [i], ms)
  {
    AppendAbove(ix, i, i + 1);
    AppendAbove(jx, j, j + 1);
    assert i !in ms;
    forall k | 0 <= k < |ix| + 1
      ensures eq(xs[(ix + [i])[k]], ys[(jx + [j])[k]])
    {
      if k < |ix| {
        assert (ix + [i])[k] == ix[k] && (jx + [j])[k] == jx[k];
      }
    }
  }

  /** Marking position `i` missing extends the partition of `xs[0..i]` to `xs[0..i+1]`. */
  lemma MissExtends(ix: seq<int>, ms: seq<int>, i: int)
    requires 0 <= i && Partitions(i, ix, ms)
    ensures Partitions(i + 1, ix, ms + [i])
  {
    AppendAbove(ms, i, i + 1);
    assert i !in ix;
  }

  /** No common subsequence of the prefixes is longer than `LcsLength`. */
  lemma {:induction false} LcsUpperBound<T>(eq: (T, T) -> bool, xs: seq<T>, ys: seq<T>, i: int, j: int,
                                            ix: seq<int>, jx: seq<int>)
    requires -1 <= i < |xs| && -1 <= j < |ys|
    requires IsCommonSubsequence(eq, xs, ys, ix, jx)
    requires InRange(ix, i + 1) && InRange(jx, j + 1)
    ensures |ix| <= LcsLength(eq, xs, ys, i, j)
    decreases i + j + 2
  {
    if |ix| == 0 {
      return;
    }
    var last := |ix| - 1;
    assert 0 <= ix[last] <= i && 0 <= jx[last] <= j;
    if eq(xs[i], ys[j]) {
      var ix', jx' := ix[..last], jx[..last];
      assert forall k :: 0 <= k < last ==> ix'[k] < ix[last] && jx'[k] < jx[last];
      LcsUpperBound(eq, xs, ys, i - 1, j - 1, ix', jx');
    } else if ix[last] < i {
      assert forall k :: 0 <= k < last ==> ix[k] < ix[last];
      LcsUpperBound(eq, xs, ys, i - 1, j, ix, jx);
    } else {
      assert jx[last] < j;
      assert forall k :: 0 <= k < last ==> jx[k] < jx[last];
      LcsUpperBound(eq, xs, ys, i, j - 1, ix, jx);
    }
  }

  /**
   * The backtrack from the last cells finds a common subsequence no shorter than any
   * other, and every position of `xs` is either in it or missing.
   */
  lemma BacktrackIsLongest<T>(eq: (T, T) -> bool, xs: seq<T>, ys: seq<T>)
    ensures var a := Align(eq, xs, ys, |xs| - 1, |ys| - 1);
      && IsCommonSubsequence(eq, xs, ys, a.correctIdx, a.testingIdx)
      && Partitions(|xs|, a.correctIdx, a.missingIdx)
      && |a.correctIdx| + |a.missingIdx| == |xs|
      && forall ix, jx :: IsCommonSubsequence(eq, xs, ys, ix, jx) ==> |ix| <= |a.correctIdx|
  {
    var a := Align(eq, xs, ys, |xs| - 1, |ys| - 1);
    AlignCorrect(eq, xs, ys, |xs| - 1, |ys| - 1);
    PartitionSizes(|xs|, a.correctIdx, a.missingIdx);
    forall ix, jx | IsCommonSubsequence(eq, xs, ys, ix, jx)
      ensures |ix| <= |a.correctIdx|
    {
      LcsUpperBound(eq, xs, ys, |xs| - 1, |ys| - 1, ix, jx);
    }
  }

  /** The nodes at the given positions. */
  function Pick<T>(xs: seq<T>, ix: seq<int>): (r: seq<T>)
    requires InRange(ix, |xs|)
    ensures |r| == |ix| && forall k :: 0 <= k < |ix| ==> r[k] == xs[ix[k]]
  {
    seq(|ix|, k requires 0 <= k < |ix| => xs[ix[k]])
  }

  lemma PickIn<T>(xs: seq<T>, ix: seq<int>)
    requires InRange(ix, |xs|)
    ensures forall k :: 0 <= k < |ix| ==> Pick(xs, ix)[k] in xs
  {
    forall k | 0 <= k < |ix|
      ensures Pick(xs, ix)[k] in xs
    {
      assert Pick(xs, ix)[k] == xs[ix[k]];
    }
  }

  lemma PickAppend<T>(xs: seq<T>, ix: seq<int>, i: int, rest: seq<T>)
    requires InRange(ix, |xs|) && 0 <= i < |xs|
    ensures Pick(xs, ix + [i]) + rest == Pick(xs, ix) + ([xs[i]] + rest)
  {
    assert Pick(xs, ix + [i]) == Pick(xs, ix) + [xs[i]];
  }

  /**
   * `GetCommonAndMissingNodes`: walks back from `(i, j)` through the table and
   * `appendleft`s onto the three deques, here the sequences `cc`, `tc` and `mn`; the
   * result is what the deques hold once the recursion is done.
   */
  method GetCommonAndMissingNodes<T>(eq: (T, T) -> bool, c: array2<int>, xs: seq<T>, ys: seq<T>, i: int, j: int,
                                     cc: seq<T>, tc: seq<T>, mn: seq<T>)
    returns (cc': seq<T>, tc': seq<T>, mn': seq<T>)
    requires IsLcsTable(eq, c, xs, ys)
    requires -1 <= i < |xs| && -1 <= j < |ys|
    ensures var a := Align(eq, xs, ys, i, j);
      && cc' == Pick(xs, a.correctIdx) + cc
      && tc' == Pick(ys, a.testingIdx) + tc
      && mn' == Pick(xs, a.missingIdx) + mn
    decreases i + j + 2
  {
    if i < 0 && j < 0 {
      return cc, tc, mn;
    } else if i < 0 {
      cc', tc', mn' := GetCommonAndMissingNodes(eq, c, xs, ys, i, j - 1, cc, tc, mn);
    } else if j < 0 {
      cc', tc', mn' := GetCommonAndMissingNodes(eq, c, xs, ys, i - 1, j, cc, tc, [xs[i]] + mn);
      PickAppend(xs, Align(eq, xs, ys, i - 1, j).missingIdx, i, mn);
    } else if eq(xs[i], ys[j]) {
      cc', tc', mn' := GetCommonAndMissingNodes(eq, c, xs, ys, i - 1, j - 1, [xs[i]] + cc, [ys[j]] + tc, mn);
      var a := Align(eq, xs, ys, i - 1, j - 1);
      PickAppend(xs, a.correctIdx, i, cc);
      PickAppend(ys, a.testingIdx, j, tc);
    } else {
      TableReads(eq, c, xs, ys, i, j - 1);
      TableReads(eq, c, xs, ys, i - 1, j);
      if c[i, PyIndex(j - 1, c.Length1)] >= c[PyIndex(i - 1, c.Length0), j] {
        cc', tc', mn' := GetCommonAndMissingNodes(eq, c, xs, ys, i, j - 1, cc, tc, mn);
      } else {
        // the source's `elif c[i][j-1] < c[i-1][j]`, the only case left
        cc', tc', mn' := GetCommonAndMissingNodes(eq, c, xs, ys, i - 1, j, cc, tc, [xs[i]] + mn);
        PickAppend(xs, Align(eq, xs, ys, i - 1, j).missingIdx, i, mn);
      }
    }
  }

  /** An increasing list of indices below `n` has at most `n` entries. */
  lemma {:induction false} IncreasingBound(s: seq<int>, n: nat)
    requires Increasing(s) && InRange(s, n)
    ensures |s| <= n
    decreases |s|
  {
    if s != [] {
      var init := s[..|s| - 1];
      assert InRange(init, s[|s| - 1]);
      IncreasingBound(init, s[|s| - 1]);
      assert s[|s| - 1] < n;
    }
  }

  /** The two sides of a partition of `0..n-1` have `n` entries together. */
  lemma {:induction false} PartitionSizes(n: nat, ix: seq<int>, ms: seq<int>)
    requires Partitions(n, ix, ms)
    ensures |ix| + |ms| == n
  {
    if n == 0 {
      IncreasingBound(ix, 0);
      IncreasingBound(ms, 0);
    } else if n - 1 in ix {
      var ix' := ix[..|ix| - 1];
      assert ix[|ix| - 1] == n - 1;
      assert forall k :: k in ix <==> k in ix' || k == n - 1;
      PartitionSizes(n - 1, ix', ms);
    } else {
      var ms' := ms[..|ms| - 1];
      assert ms[|ms| - 1] == n - 1;
      assert forall k :: k in ms <==> k in ms' || k == n - 1;
      PartitionSizes(n - 1, ix, ms');
    }
  }

  function Range(n: nat): (r: seq<int>)
    ensures |r| == n && forall k :: 0 <= k < n ==> r[k] == k
  {
    seq(n, k => k)
  }

  /** Under a reflexive comparison a list aligns with itself position by position. */
  lemma {:induction false} AlignSelf<T>(eq: (T, T) -> bool, s: seq<T>, i: int)
    requires forall x :: eq(x, x)
    requires -1 <= i < |s|
    ensures Align(eq, s, s, i, i) == Alignment(Range(i + 1), Range(i + 1), [])
    decreases i + 1
  {
    if i >= 0 {
      assert eq(s[i], s[i]);
      AlignSelf(eq, s, i - 1);
      assert Range(i + 1) == Range(i) + [i];
    }
  }

  lemma PickAll<T>(xs: seq<T>)
    ensures Pick(xs, Range(|xs|)) == xs
  {
  }
}
