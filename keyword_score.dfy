/**
 * The integer tally of `interdisciplinary_fractal_analysis`: for each of the
 * three categories, the number of blocks that contain its keyword, and the
 * sum of the three.
 */
module KeywordScore {
  import opened PyText

  const Physics := "physics"
  const Economics := "economics"
  const Biology := "biology"

  const Quantum := "quantum"
  const Market := "market"
  const Ecosystem := "ecosystem"

  function Indicator(b: bool): nat {
    if b then 1 else 0
  }

  /** How many of the blocks contain `keyword`, counted from the front of the list. */
  function BlocksContaining(blocks: seq<string>, keyword: string): (n: nat)
    ensures n <= |blocks|
  {
    if blocks == [] then 0
    else BlocksContaining(blocks[..|blocks| - 1], keyword) + Indicator(Contains(blocks[|blocks| - 1], keyword))
  }

  /** The categories one block adds 1 to. */
  function Hits(block: string): (n: nat)
    ensures n <= 3
    ensures n == 0 <==> !Contains(block, Quantum) && !Contains(block, Market) && !Contains(block, Ecosystem)
  {
    Indicator(Contains(block, Quantum)) + Indicator(Contains(block, Market)) + Indicator(Contains(block, Ecosystem))
  }

  /** The number of (block, keyword) pairs in which the keyword occurs in the block. */
  function Tally(blocks: seq<string>): (n: nat)
    ensures n <= 3 * |blocks|
  {
    if blocks == [] then 0 else Tally(blocks[..|blocks| - 1]) + Hits(blocks[|blocks| - 1])
  }

  /** The scores as the loop has them after the blocks `blocks`. */
  function ScoresAfter(blocks: seq<string>): map<string, nat> {
    map[Physics := BlocksContaining(blocks, Quantum),
        Economics := BlocksContaining(blocks, Market),
        Biology := BlocksContaining(blocks, Ecosystem)]
  }

  /**
   * The `scores` loop and `sum(scores.values())`: each category counts the
   * blocks holding its keyword, and the total is the tally of matching
   * (block, keyword) pairs.
   */
  method InterdisciplinaryScores(blocks: seq<string>) returns (scores: map<string, nat>, total: nat)
    ensures scores.Keys == {Physics, Economics, Biology}
    ensures scores[Physics] == BlocksContaining(blocks, Quantum)
    ensures scores[Economics] == BlocksContaining(blocks, Market)
    ensures scores[Biology] == BlocksContaining(blocks, Ecosystem)
    ensures total == Tally(blocks)
  {
    scores := map[Physics := 0, Economics := 0, Biology := 0];
    for k := 0 to |blocks|
      invariant scores == ScoresAfter(blocks[..k])
    {
      var block := blocks[k];
      assert blocks[..k + 1][..k] == blocks[..k];
      if Contains(block, Quantum) {
        scores := scores[Physics := scores[Physics] + 1];
      }
      if Contains(block, Market) {
        scores := scores[Economics := scores[Economics] + 1];
      }
      if Contains(block, Ecosystem) {
        scores := scores[Biology := scores[Biology] + 1];
      }
    }
    assert blocks[..|blocks|] == blocks;
    total := scores[Physics] + scores[Economics] + scores[Biology];
    TallyByCategory(blocks);
  }

  /** The tally is the sum, over the three keywords, of the blocks that contain it. */
  lemma {:induction false} TallyByCategory(blocks: seq<string>)
    ensures Tally(blocks) == BlocksContaining(blocks, Quantum) + BlocksContaining(blocks, Market)
                             + BlocksContaining(blocks, Ecosystem)
  {
    if blocks != [] {
      TallyByCategory(blocks[..|blocks| - 1]);
    }
  }

  /** The tally adds up over consecutive runs of blocks. */
  lemma {:induction false} TallyAppend(a: seq<string>, b: seq<string>)
    ensures Tally(a + b) == Tally(a) + Tally(b)
    decreases |b|
  {
    if b == [] {
      assert a + b == a;
    } else {
      assert (a + b)[..|a + b| - 1] == a + b[..|b| - 1];
      TallyAppend(a, b[..|b| - 1]);
    }
  }

  /** The tally does not depend on the order of the blocks. */
  lemma {:induction false} TallyPermutation(a: seq<string>, b: seq<string>)
    requires multiset(a) == multiset(b)
    ensures Tally(a) == Tally(b)
    decreases |a|
  {
    if a != [] {
      var x := a[|a| - 1];
      var a' := a[..|a| - 1];
      assert a == a' + [x];
      assert x in multiset(b);
      var k :| 0 <= k < |b| && b[k] == x;
      var b' := b[..k] + b[k + 1..];
      assert b == b[..k] + [x] + b[k + 1..];
      assert multiset(b') == multiset(b) - multiset{x};
      assert multiset(a') == multiset(a) - multiset{x};
      TallyPermutation(a', b');
      TallyAppend(a', [x]);
      TallyAppend(b[..k] + [x], b[k + 1..]);
      TallyAppend(b[..k], [x]);
      TallyAppend(b[..k], b[k + 1..]);
      assert Tally([x]) == Hits(x) by {
        assert [x][..0] == [];
      }
    }
  }

  /** The tally is zero exactly when no block contains any of the three keywords. */
  lemma {:induction false} TallyZeroIff(blocks: seq<string>)
    ensures Tally(blocks) == 0 <==> forall k :: 0 <= k < |blocks| ==> Hits(blocks[k]) == 0
  {
    if blocks != [] {
      var init := blocks[..|blocks| - 1];
      TallyZeroIff(init);
      assert forall k :: 0 <= k < |init| ==> init[k] == blocks[k];
    }
  }
}
