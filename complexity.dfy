/**
 * `calculate_complexity`: the number of lines of every block, summed.
 * A block's line count is `len(block.split('\n'))`, so a trailing line
 * without a line feed counts, and so does the empty line after a final one.
 */
module Complexity {
  import opened PyText

  /** `len(block.split('\n'))`: one more than the block's line feeds. */
  function LineCount(block: string): (n: nat)
    ensures n == multiset(block)['\n'] + 1
  {
    SplitOnLength(block, '\n');
    |SplitOn(block, '\n')|
  }

  /** `calculate_complexity`: zero for no blocks, and at least one line per block. */
  function CalculateComplexity(blocks: seq<string>): (total: nat)
    ensures total >= |blocks|
    ensures total == 0 <==> blocks == []
  {
    if blocks == [] then 0 else LineCount(blocks[0]) + CalculateComplexity(blocks[1..])
  }

  /** All the blocks, one after the other. */
  function Concat(blocks: seq<string>): string {
    if blocks == [] then [] else blocks[0] + Concat(blocks[1..])
  }

  /** The complexity is the number of blocks plus the number of line feeds in all of them. */
  lemma {:induction false} ComplexityCountsNewlines(blocks: seq<string>)
    ensures CalculateComplexity(blocks) == |blocks| + multiset(Concat(blocks))['\n']
  {
    if blocks != [] {
      ComplexityCountsNewlines(blocks[1..]);
      assert multiset(Concat(blocks)) == multiset(blocks[0]) + multiset(Concat(blocks[1..]));
    }
  }

  /** Complexity adds up over consecutive runs of blocks. */
  lemma {:induction false} ComplexityAppend(a: seq<string>, b: seq<string>)
    ensures CalculateComplexity(a + b) == CalculateComplexity(a) + CalculateComplexity(b)
  {
    if a == [] {
      assert a + b == b;
    } else {
      assert (a + b)[1..] == a[1..] + b;
      ComplexityAppend(a[1..], b);
    }
  }
}
