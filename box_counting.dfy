/**
 * The integer part of `enhanced_fractal_dimension`: the box counts taken at
 * the scales 1, 2, 4, 8 and 16, and the arguments of the logarithms that
 * combine neighbouring counts.
 *
 * At every scale the blocks are walked in windows of `scale` consecutive
 * positions, and a block counts when it has not been seen before in that
 * pass. The windows cover every position once, in order, and the set of
 * seen blocks is only reset between passes, so every count is the number of
 * distinct blocks, whatever the scale.
 */
module BoxCounting {

  const Scales: seq<nat> := [1, 2, 4, 8, 16]

  /** The distinct block values. */
  function Distinct(blocks: seq<string>): set<string> {
    set b | b in blocks
  }

  /** The positions `0, 1, ..., n - 1`, in order. */
  function Indices(n: nat): (r: seq<nat>)
    ensures |r| == n && forall k :: 0 <= k < n ==> r[k] == k
  {
    seq(n, k => k)
  }

  function Min(a: int, b: int): int {
    if a <= b then a else b
  }

  /** No block list has more distinct values than entries, and only the empty one has none. */
  lemma {:induction false} DistinctBounds(blocks: seq<string>)
    ensures |Distinct(blocks)| <= |blocks|
    ensures |Distinct(blocks)| == 0 <==> blocks == []
  {
    if blocks != [] {
      var last := blocks[|blocks| - 1];
      DistinctBounds(blocks[..|blocks| - 1]);
      DistinctSnoc(blocks[..|blocks| - 1], last);
      assert blocks[..|blocks| - 1] + [last] == blocks;
      assert last in Distinct(blocks);
    }
  }

  lemma DistinctSnoc(blocks: seq<string>, b: string)
    ensures Distinct(blocks + [b]) == Distinct(blocks) + {b}
  {
    assert forall x :: x in blocks + [b] <==> x in blocks || x == b;
  }

  /** Looking at one more block adds it to the seen values and its position to the visited ones. */
  lemma CoverStep(blocks: seq<string>, j: nat)
    requires j < |blocks|
    ensures Distinct(blocks[..j + 1]) == Distinct(blocks[..j]) + {blocks[j]}
    ensures blocks[j] in Distinct(blocks[..j]) ==> Distinct(blocks[..j + 1]) == Distinct(blocks[..j])
    ensures blocks[j] !in Distinct(blocks[..j]) ==> |Distinct(blocks[..j + 1])| == |Distinct(blocks[..j])| + 1
    ensures Indices(j + 1) == Indices(j) + [j]
  {
    assert blocks[..j + 1] == blocks[..j] + [blocks[j]];
    DistinctSnoc(blocks[..j], blocks[j]);
  }

  /**
   * One pass of the box-counting loop at `scale`: windows start at
   * `0, scale, 2 * scale, ...`, each covers the positions up to the next
   * start or the end, and a block is counted the first time it is seen.
   * The positions are visited once each, in increasing order, and the count
   * is the number of distinct blocks.
   */
  method CountAtScale(blocks: seq<string>, scale: nat) returns (count: nat, ghost visited: seq<nat>)
    requires scale >= 1
    ensures visited == Indices(|blocks|)
    ensures count == |Distinct(blocks)|
  {
    var n := |blocks|;
    var covered: set<string> := {};
    count := 0;
    visited := [];
    var i := 0;
    while i < n
      invariant 0 <= i
      invariant covered == Distinct(blocks[..Min(i, n)])
      invariant count == |covered|
      invariant visited == Indices(Min(i, n))
      decreases n - i
    {
      covered, count, visited := CoverWindow(blocks, i, Min(i + scale, n), covered, count, visited);
      i := i + scale;
    }
    assert blocks[..n] == blocks;
  }

  /**
   * The inner loop over one window `lo .. hi - 1`: every block not seen yet
   * is counted and marked as seen.
   */
  method CoverWindow(blocks: seq<string>, lo: nat, hi: nat, covered: set<string>, count: nat, ghost visited: seq<nat>)
    returns (covered': set<string>, count': nat, ghost visited': seq<nat>)
    requires lo <= hi <= |blocks|
    requires covered == Distinct(blocks[..lo]) && count == |covered| && visited == Indices(lo)
    ensures covered' == Distinct(blocks[..hi]) && count' == |covered'| && visited' == Indices(hi)
  {
    covered', count', visited' := covered, count, visited;
    for j := lo to hi
      invariant covered' == Distinct(blocks[..j])
      invariant count' == |covered'|
      invariant visited' == Indices(j)
    {
      CoverStep(blocks, j);
      if blocks[j] !in covered' {
        count' := count' + 1;
        covered' := covered' + {blocks[j]};
      }
      visited' := visited' + [j];
    }
  }

  /** The `counts` list: one count per scale, each the number of distinct blocks. */
  method BoxCounts(blocks: seq<string>) returns (counts: seq<nat>)
    ensures |counts| == |Scales|
    ensures forall k :: 0 <= k < |counts| ==> counts[k] == |Distinct(blocks)|
  {
    counts := [];
    for s := 0 to |Scales|
      invariant |counts| == s
      invariant forall k :: 0 <= k < s ==> counts[k] == |Distinct(blocks)|
    {
      var count, _ := CountAtScale(blocks, Scales[s]);
      counts := counts + [count];
    }
  }

  /**
   * The arguments of one term of the average: `counts[i - 1] / counts[i]` to
   * the logarithm above, `scales[i - 1] / scales[i]` to the one below.
   */
  datatype LogArguments = LogArguments(countNum: nat, countDen: nat, scaleNum: nat, scaleDen: nat)

  /**
   * The terms of the `dimensions` list, or the exception that stops it:
   * `counts[i - 1] / counts[i]` with `counts[i] == 0` raises
   * `ZeroDivisionError`, and `log` of a zero ratio raises `ValueError`.
   */
  datatype Dimensions = Terms(terms: seq<LogArguments>) | ZeroDivisionError | ValueError

  /**
   * The terms for `i` from `from` up to the last scale, left to right. Each
   * term first divides the counts, then takes the `log` of the quotient; the
   * `log` of the scale ratio is always defined.
   */
  function TermsFrom(counts: seq<nat>, from: nat): (d: Dimensions)
    requires 1 <= from <= |counts| == |Scales|
    ensures d.Terms? <==> from == |counts| || forall i :: from - 1 <= i < |counts| ==> counts[i] > 0
    ensures d.ValueError? <==> from < |counts| && counts[from - 1] == 0 && counts[from] > 0
    ensures d.ZeroDivisionError? <==>
      (exists i :: from <= i < |counts| && counts[i] == 0) &&
      !(from < |counts| && counts[from - 1] == 0 && counts[from] > 0)
    ensures d.Terms? ==> |d.terms| == |counts| - from
    ensures d.Terms? ==> forall k :: 0 <= k < |d.terms| ==>
      d.terms[k] == LogArguments(counts[from + k - 1], counts[from + k], Scales[from + k - 1], Scales[from + k])
    decreases |counts| - from
  {
    if from == |counts| then Terms([])
    else if counts[from] == 0 then ZeroDivisionError
    else if counts[from - 1] == 0 then ValueError
    else
      var later := TermsFrom(counts, from + 1);
      if later.Terms? then
        Terms([LogArguments(counts[from - 1], counts[from], Scales[from - 1], Scales[from])] + later.terms)
      else later
  }

  /** A zero count before a non-zero one makes `log` of the quotient raise `ValueError` first. */
  lemma LogOfZeroRatio(counts: seq<nat>)
    requires |counts| == |Scales| && counts[0] == 0 && counts[1] > 0
    ensures DimensionTerms(counts).ValueError?
  {
  }

  /** The `dimensions` list built from the counts, `i` ranging over `1..len(scales) - 1`. */
  function DimensionTerms(counts: seq<nat>): Dimensions
    requires |counts| == |Scales|
  {
    TermsFrom(counts, 1)
  }

  /**
   * The counts and the log arguments of `enhanced_fractal_dimension`. An empty
   * block list divides by zero; otherwise there are four terms (so the
   * `else 0` branch is never taken), every count ratio is `c / c` with `c > 0`
   * and every scale ratio is one half.
   */
  method FractalDimensionTerms(blocks: seq<string>) returns (d: Dimensions)
    ensures d.ZeroDivisionError? <==> blocks == []
    ensures d.Terms? <==> blocks != []
    ensures d.Terms? ==> |d.terms| == |Scales| - 1 > 0
    ensures d.Terms? ==> forall k :: 0 <= k < |d.terms| ==>
      d.terms[k].countNum == d.terms[k].countDen > 0 && 2 * d.terms[k].scaleNum == d.terms[k].scaleDen
  {
    var counts := BoxCounts(blocks);
    DistinctBounds(blocks);
    d := DimensionTerms(counts);
  }
}
