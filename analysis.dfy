/**
 * `assess_vulnerabilities` up to its floating-point steps: the block list,
 * the complexity, the log arguments of the fractal dimension and the keyword
 * tally, or the exception that ends it early, together with worked examples
 * of the splitter.
 */
module Analysis {
  import opened PyText
  import opened BlockSplitter
  import opened Complexity
  import opened BoxCounting
  import opened KeywordScore

  /**
   * How an assessment ends: the fractal dimension raises `ZeroDivisionError`
   * (so the scaling factor and the keyword score are never computed), or the
   * integer inputs of the vulnerability score are all there.
   */
  datatype Assessment =
    | RaisesZeroDivisionError
    | Scored(blocks: seq<string>, complexity: nat, terms: seq<LogArguments>, tally: nat)

  /**
   * `assess_vulnerabilities` up to its floating-point steps. Text that yields
   * no block (in particular empty or all-whitespace text) stops at the
   * fractal dimension; otherwise the blocks, their complexity, the
   * arguments of the four `log` terms and the keyword tally are returned.
   */
  method AssessInputs(code: string) returns (a: Assessment)
    ensures a.RaisesZeroDivisionError? <==> ParseCodeIntoBlocks(code) == []
    ensures AllSpace(code) ==> a.RaisesZeroDivisionError?
    ensures a.Scored? ==> a.blocks == ParseCodeIntoBlocks(code)
    ensures a.Scored? ==> a.complexity == CalculateComplexity(a.blocks) && a.complexity >= |a.blocks| > 0
    ensures a.Scored? ==> |a.terms| == |Scales| - 1 && forall k :: 0 <= k < |a.terms| ==>
      a.terms[k].countNum == a.terms[k].countDen > 0 && 2 * a.terms[k].scaleNum == a.terms[k].scaleDen
    ensures a.Scored? ==> a.tally == Tally(a.blocks) <= 3 * |a.blocks|
  {
    var blocks := ParseCodeIntoBlocks(code);
    var complexity := CalculateComplexity(blocks);
    var d := FractalDimensionTerms(blocks);
    if d.Terms? {
      var scores, tally := InterdisciplinaryScores(blocks);
      a := Scored(blocks, complexity, d.terms, tally);
    } else {
      a := RaisesZeroDivisionError;
    }
  }

  /**
   * The blank-line alternative is tried first, so a `def` after a blank line
   * stays in the next block.
   */
  lemma BlankLineBeforeDef(a: string, name: string)
    requires IsCleanBlock(a)
    requires name != [] && !IsSpace(name[|name| - 1]) && '\n' !in name
    ensures ParseCodeIntoBlocks(a + "\n\ndef " + name) == [a, "def " + name]
  {
    var b := "def " + name;
    assert '\n' !in b && b[|b| - 1] == name[|name| - 1];
    NoNewlineNoSeparator(b);
    assert JoinBlocks([a, b]) == a + "\n\ndef " + name by {
      assert [a, b][1..] == [b];
    }
    ParseJoinedBlocks([a, b]);
  }

  /** A line that starts with `def ` loses the keyword to the separator. */
  lemma DefAfterSingleNewline()
    ensures ParseCodeIntoBlocks("x\ndef f") == ["x", "f"]
  {
    var s := "x\ndef f";
    assert RunEnd(s, 2) == 2;
    assert s[2..6] == "def ";
    assert MatchAt(s, 1) == Some(6);
    NoMatchOnePiece(s, 6, 6);
    assert s[0..1] == "x" && s[6..] == "f";
    assert SplitFrom(s, 0, 0) == SplitFrom(s, 0, 1) == [s[0..1]] + SplitFrom(s, 6, 6);
    StripFixed("x");
    StripFixed("f");
  }

  /** Text need not be all whitespace to give no block: here the separator takes every other character. */
  lemma DefOnlyGivesNoBlock()
    ensures !AllSpace("\ndef ") && ParseCodeIntoBlocks("\ndef ") == []
  {
    var s := "\ndef ";
    assert !IsSpace(s[1]);
    assert RunEnd(s, 1) == 1;
    assert s[1..5] == "def ";
    assert MatchAt(s, 0) == Some(5);
    assert SplitFrom(s, 5, 5) == [s[5..]] && s[5..] == "";
    assert SplitFrom(s, 0, 0) == [s[0..0]] + SplitFrom(s, 5, 5) == ["", ""];
    assert Strip("") == "";
  }

  /** `def <name>():`, a line feed and an indented `pass`. */
  function FunctionBlock(name: char): string {
    "def " + [name] + "():" + "\n" + "    pass"
  }

  /** Such a block is trimmed and holds no separator: its one line feed is followed by `    pass`. */
  lemma FunctionBlockClean(name: char)
    requires !IsSpace(name) && name != '\n'
    ensures IsCleanBlock(FunctionBlock(name))
  {
    var x := FunctionBlock(name);
    assert |x| == 17 && x[8] == '\n' && x[16] == 's';
    assert forall q :: 0 <= q < 17 && q != 8 ==> x[q] != '\n';
    assert x[9..13] == "    " && x[13..17] == "pass";
    assert RunEnd(x, 13) == 13;
    assert RunEnd(x, 12) == 13;
    assert RunEnd(x, 11) == 13;
    assert RunEnd(x, 10) == 13;
    assert RunEnd(x, 9) == 13;
    assert MatchAt(x, 8).None?;
    SliceHasNoSeparator(x, 0, 17);
    assert x[0..17] == x;
  }

  /** Such a block has two lines. */
  lemma FunctionBlockLines(name: char)
    requires name != '\n'
    ensures LineCount(FunctionBlock(name)) == 2
  {
    var head, body := "def " + [name] + "():", "    pass";
    assert FunctionBlock(name) == head + "\n" + body;
    assert '\n' !in head && '\n' !in body;
    TwoLines(head, body);
  }

  /** Text with a single line feed has two lines. */
  lemma TwoLines(head: string, body: string)
    requires '\n' !in head && '\n' !in body
    ensures LineCount(head + "\n" + body) == 2
  {
    assert multiset(head + "\n" + body) == multiset(head) + multiset{'\n'} + multiset(body);
  }

  /**
   * Two functions separated by a blank line: the blank line is the separator,
   * so both blocks keep their `def` header.
   */
  lemma TwoFunctions(f: char, g: char)
    requires !IsSpace(f) && f != '\n' && !IsSpace(g) && g != '\n'
    ensures ParseCodeIntoBlocks(FunctionBlock(f) + "\n\n" + FunctionBlock(g))
            == [FunctionBlock(f), FunctionBlock(g)]
  {
    var a, b := FunctionBlock(f), FunctionBlock(g);
    FunctionBlockClean(f);
    FunctionBlockClean(g);
    assert JoinBlocks([a, b]) == a + "\n\n" + b by {
      assert [a, b][1..] == [b];
    }
    ParseJoinedBlocks([a, b]);
  }

  /** Their complexity is four: two lines each. */
  lemma TwoFunctionsComplexity(f: char, g: char)
    requires f != '\n' && g != '\n'
    ensures CalculateComplexity([FunctionBlock(f), FunctionBlock(g)]) == 4
  {
    FunctionBlockLines(f);
    FunctionBlockLines(g);
    ComplexityOfPair(FunctionBlock(f), FunctionBlock(g));
  }

  lemma ComplexityOfPair(a: string, b: string)
    ensures CalculateComplexity([a, b]) == LineCount(a) + LineCount(b)
  {
    assert [a, b][1..] == [b];
  }

  /** A block naming an ecosystem and then a market scores in two categories. */
  lemma TwoKeywordsOneBlock(block: string)
    requires block == Ecosystem + " " + Market
    ensures Hits(block) == 2
    ensures Tally([block]) == 2
  {
    assert Contains(block, Ecosystem) by {
      assert block[..9] == Ecosystem;
    }
    assert Contains(block, Market) by {
      ContainsIff(block, Market);
      assert block[10..16] == Market;
      assert OccursAt(block, Market, 10);
    }
    assert !Contains(block, Quantum) by {
      assert forall k :: 0 <= k < |block| ==> block[k] != 'q';
      MissingFirstChar(block, Quantum);
    }
    assert [block][..0] == [];
  }
}
