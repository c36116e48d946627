/**
 * The block splitter: `re.split(r'\n\s*\n|\n\s*def ', code)`, then every
 * piece stripped and the empty ones dropped.
 *
 * The separator pattern is modelled by hand. Python tries the two
 * alternatives in order at each position, leftmost position first, and
 * `\s*` is greedy: at a line feed it takes the whole whitespace run that
 * follows and backs off only as far as it must.
 */
module BlockSplitter {
  import opened PyText

  datatype Option<T> = None | Some(value: T)

  /** `t` is matched by the first alternative, `\n\s*\n`. */
  predicate IsBlankLineSeparator(t: string) {
    |t| >= 2 && t[0] == '\n' && t[|t| - 1] == '\n' && AllSpace(t[1..|t| - 1])
  }

  /** `t` is matched by the second alternative, `\n\s*def `. */
  predicate IsDefSeparator(t: string) {
    |t| >= 5 && t[0] == '\n' && t[|t| - 4..] == "def " && AllSpace(t[1..|t| - 4])
  }

  /** `t` is matched by the whole separator pattern. */
  predicate IsSeparator(t: string) {
    IsBlankLineSeparator(t) || IsDefSeparator(t)
  }

  /** Some substring of `s` is matched by the separator pattern. */
  predicate HasSeparator(s: string) {
    exists i, j :: 0 <= i < j <= |s| && IsSeparator(s[i..j])
  }

  /** The end of the maximal whitespace run of `s` that starts at `i`. */
  function RunEnd(s: string, i: nat): (e: nat)
    requires i <= |s|
    ensures i <= e <= |s|
    decreases |s| - i
  {
    if i == |s| || !IsSpace(s[i]) then i else RunEnd(s, i + 1)
  }

  /** The run is all whitespace and cannot be extended. */
  lemma {:induction false} RunEndMaximal(s: string, i: nat)
    requires i <= |s|
    ensures forall k :: i <= k < RunEnd(s, i) ==> IsSpace(s[k])
    ensures RunEnd(s, i) == |s| || !IsSpace(s[RunEnd(s, i)])
    decreases |s| - i
  {
    if i < |s| && IsSpace(s[i]) {
      RunEndMaximal(s, i + 1);
    }
  }

  /** The last line feed in `s[lo..hi]`: where greedy `\s*` backs off to. */
  function LastNewline(s: string, lo: nat, hi: nat): (k: Option<nat>)
    requires lo <= hi <= |s|
    ensures k.Some? ==> lo <= k.value < hi
    decreases hi - lo
  {
    if hi == lo then None
    else if s[hi - 1] == '\n' then Some(hi - 1)
    else LastNewline(s, lo, hi - 1)
  }

  /** The position found is a line feed with none after it in the range, and none means none at all. */
  lemma {:induction false} LastNewlineIsLast(s: string, lo: nat, hi: nat)
    requires lo <= hi <= |s|
    ensures LastNewline(s, lo, hi).Some? ==>
      s[LastNewline(s, lo, hi).value] == '\n' &&
      forall q :: LastNewline(s, lo, hi).value < q < hi ==> s[q] != '\n'
    ensures LastNewline(s, lo, hi).None? ==> forall q :: lo <= q < hi ==> s[q] != '\n'
    decreases hi - lo
  {
    if hi > lo && s[hi - 1] != '\n' {
      LastNewlineIsLast(s, lo, hi - 1);
    }
  }

  /** The end of the match of the separator pattern at position `p`, if any. */
  function MatchAt(s: string, p: nat): (m: Option<nat>)
    requires p <= |s|
    ensures m.Some? ==> p < m.value <= |s|
  {
    if p == |s| || s[p] != '\n' then None else MatchAfterRun(s, p + 1, RunEnd(s, p + 1))
  }

  /**
   * The rest of the match after a line feed, given the whitespace run `s[lo..r]`
   * that follows it: back off to the last line feed of the run, or else
   * require `def ` right after the run.
   */
  function MatchAfterRun(s: string, lo: nat, r: nat): (m: Option<nat>)
    requires lo <= r <= |s|
    ensures m.Some? ==> lo < m.value <= |s|
  {
    match LastNewline(s, lo, r)
    case Some(k) => Some(k + 1)
    case None => if r + 4 <= |s| && s[r..r + 4] == "def " then Some(r + 4) else None
  }

  /** Every match spans a separator. */
  lemma MatchAtSound(s: string, p: nat)
    requires p <= |s|
    ensures MatchAt(s, p).Some? ==> IsSeparator(s[p..MatchAt(s, p).value])
  {
    if p < |s| && s[p] == '\n' {
      var r := RunEnd(s, p + 1);
      RunEndMaximal(s, p + 1);
      LastNewlineIsLast(s, p + 1, r);
      match LastNewline(s, p + 1, r)
      case Some(k) =>
        BlankLineSpan(s, p, k);
      case None =>
        if r + 4 <= |s| && s[r..r + 4] == "def " {
          DefSpan(s, p, r);
        }
    }
  }

  /** A line feed, whitespace, and a line feed make a blank-line separator. */
  lemma BlankLineSpan(s: string, p: nat, k: nat)
    requires p < k < |s| && s[p] == '\n' && s[k] == '\n'
    requires forall q :: p + 1 <= q < k ==> IsSpace(s[q])
    ensures IsBlankLineSeparator(s[p..k + 1])
  {
    SliceOfSlice(s, p, k + 1, 1, k - p);
    AllSpaceSlice(s, p + 1, k);
    assert s[p..k + 1][0] == s[p] && s[p..k + 1][k - p] == s[k];
  }

  /** A line feed, whitespace, and `def ` make a `def` separator. */
  lemma DefSpan(s: string, p: nat, r: nat)
    requires p < r && r + 4 <= |s| && s[p] == '\n' && s[r..r + 4] == "def "
    requires forall q :: p + 1 <= q < r ==> IsSpace(s[q])
    ensures IsDefSeparator(s[p..r + 4])
  {
    SliceOfSlice(s, p, r + 4, 1, r - p);
    SliceOfSlice(s, p, r + 4, r - p, r + 4 - p);
    AllSpaceSlice(s, p + 1, r);
    assert s[p..r + 4][0] == s[p];
  }

  /** Wherever a separator starts, the pattern matches there. */
  lemma MatchAtComplete(s: string, p: nat, e: nat)
    requires p < e <= |s| && IsSeparator(s[p..e])
    ensures MatchAt(s, p).Some?
  {
    var r := RunEnd(s, p + 1);
    RunEndMaximal(s, p + 1);
    LastNewlineIsLast(s, p + 1, r);
    if IsBlankLineSeparator(s[p..e]) {
      BlankLineSpaces(s, p, e);
      assert r >= e;
    } else {
      DefSpaces(s, p, e);
      assert r == e - 4;
    }
  }

  /** The characters of a blank-line separator found in the text. */
  lemma BlankLineSpaces(s: string, p: nat, e: nat)
    requires p < e <= |s| && IsBlankLineSeparator(s[p..e])
    ensures s[p] == '\n' && s[e - 1] == '\n' && p + 2 <= e
    ensures forall q :: p + 1 <= q < e - 1 ==> IsSpace(s[q])
  {
    var t := s[p..e];
    assert s[p] == t[0] && s[e - 1] == t[|t| - 1];
    assert forall q :: p + 1 <= q < e - 1 ==> s[q] == t[1..|t| - 1][q - p - 1];
  }

  /** The characters of a `def` separator found in the text. */
  lemma DefSpaces(s: string, p: nat, e: nat)
    requires p < e <= |s| && IsDefSeparator(s[p..e])
    ensures s[p] == '\n' && p + 5 <= e && s[e - 4..e] == "def " && s[e - 4] == 'd'
    ensures forall q :: p + 1 <= q < e - 4 ==> IsSpace(s[q])
  {
    var t := s[p..e];
    assert s[p] == t[0] && s[e - 4..e] == t[|t| - 4..];
    assert s[e - 4] == s[e - 4..e][0];
    assert forall q :: p + 1 <= q < e - 4 ==> s[q] == t[1..|t| - 4][q - p - 1];
  }

  /**
   * The alternatives are tried in order and `\s*` is greedy: when a blank-line
   * separator starts at `p`, the match is a blank-line separator too, and the
   * longest one.
   */
  lemma MatchAtPrefersLongestBlankLine(s: string, p: nat, e: nat)
    requires p < e <= |s| && IsBlankLineSeparator(s[p..e])
    ensures MatchAt(s, p).Some?
    ensures IsBlankLineSeparator(s[p..MatchAt(s, p).value])
    ensures e <= MatchAt(s, p).value
  {
    var r := RunEnd(s, p + 1);
    RunEndMaximal(s, p + 1);
    BlankLineSpaces(s, p, e);
    assert r >= e;
    var k := LastNewline(s, p + 1, r);
    LastNewlineIsLast(s, p + 1, r);
    assert k.Some? && k.value >= e - 1;
    BlankLineSpan(s, p, k.value);
  }

  lemma SliceOfSlice(s: string, a: nat, b: nat, i: nat, j: nat)
    requires a <= b <= |s| && i <= j <= b - a
    ensures s[a..b][i..j] == s[a + i..a + j]
  {
    assert forall k :: 0 <= k < j - i ==> s[a..b][i..j][k] == s[a + i + k];
  }

  lemma AllSpaceSlice(s: string, a: nat, b: nat)
    requires a <= b <= |s|
    requires forall k :: a <= k < b ==> IsSpace(s[k])
    ensures AllSpace(s[a..b])
  {
    assert forall k :: 0 <= k < b - a ==> s[a..b][k] == s[a + k];
  }

  lemma SliceConcat(s: string, a: nat, b: nat, c: nat)
    requires a <= b <= c <= |s|
    ensures s[a..c] == s[a..b] + s[b..c]
  {
  }

  /** The pieces `re.split` produces, scanning from `p` with the current piece starting at `start`. */
  function SplitFrom(s: string, start: nat, p: nat): (pieces: seq<string>)
    requires start <= p <= |s|
    decreases |s| - p
  {
    if p == |s| then [s[start..]]
    else
      match MatchAt(s, p)
      case Some(e) => [s[start..p]] + SplitFrom(s, e, e)
      case None => SplitFrom(s, start, p + 1)
  }

  /** The separators the same scan consumes. */
  function SeparatorsFrom(s: string, p: nat): seq<string>
    requires p <= |s|
    decreases |s| - p
  {
    if p == |s| then []
    else
      match MatchAt(s, p)
      case Some(e) => [s[p..e]] + SeparatorsFrom(s, e)
      case None => SeparatorsFrom(s, p + 1)
  }

  /** One step of the scan that collects the separators. */
  lemma SeparatorsFromStep(s: string, p: nat)
    requires p < |s|
    ensures MatchAt(s, p).Some? ==>
      SeparatorsFrom(s, p) == [s[p..MatchAt(s, p).value]] + SeparatorsFrom(s, MatchAt(s, p).value)
    ensures MatchAt(s, p).None? ==> SeparatorsFrom(s, p) == SeparatorsFrom(s, p + 1)
  {
  }

  lemma {:induction false} SeparatorsFromMatch(s: string, p: nat)
    requires p <= |s|
    ensures forall k :: 0 <= k < |SeparatorsFrom(s, p)| ==> IsSeparator(SeparatorsFrom(s, p)[k])
    decreases |s| - p
  {
    if p < |s| {
      match MatchAt(s, p)
      case Some(e) =>
        MatchAtSound(s, p);
        SeparatorsFromMatch(s, e);
        assert forall k :: 1 <= k < |SeparatorsFrom(s, p)| ==> SeparatorsFrom(s, p)[k] == SeparatorsFrom(s, e)[k - 1];
      case None =>
        SeparatorsFromMatch(s, p + 1);
    }
  }

  /** `re.split(r'\n\s*\n|\n\s*def ', s)`. */
  function SplitCode(s: string): seq<string> {
    SplitFrom(s, 0, 0)
  }

  /** The pieces interleaved with the separators between them. */
  function Rejoin(pieces: seq<string>, seps: seq<string>): string
    requires |pieces| == |seps| + 1
  {
    if seps == [] then pieces[0] else pieces[0] + seps[0] + Rejoin(pieces[1..], seps[1..])
  }

  lemma RejoinCons(piece: string, sep: string, pieces: seq<string>, seps: seq<string>)
    requires |pieces| == |seps| + 1
    ensures Rejoin([piece] + pieces, [sep] + seps) == piece + sep + Rejoin(pieces, seps)
  {
    assert ([piece] + pieces)[1..] == pieces;
    assert ([sep] + seps)[1..] == seps;
  }

  lemma {:induction false} SplitFromRejoins(s: string, start: nat, p: nat)
    requires start <= p <= |s|
    ensures |SplitFrom(s, start, p)| == |SeparatorsFrom(s, p)| + 1
    ensures Rejoin(SplitFrom(s, start, p), SeparatorsFrom(s, p)) == s[start..]
    decreases |s| - p
  {
    if p < |s| {
      match MatchAt(s, p)
      case Some(e) =>
        SplitFromRejoins(s, e, e);
        RejoinsAtMatch(s, start, p, e);
      case None =>
        SplitFromRejoins(s, start, p + 1);
        SplitFromSkip(s, start, p);
        SeparatorsFromStep(s, p);
    }
  }

  /** The step of `SplitFromRejoins` at a match. */
  lemma RejoinsAtMatch(s: string, start: nat, p: nat, e: nat)
    requires start <= p < |s| && MatchAt(s, p) == Some(e)
    requires |SplitFrom(s, e, e)| == |SeparatorsFrom(s, e)| + 1
    requires Rejoin(SplitFrom(s, e, e), SeparatorsFrom(s, e)) == s[e..]
    ensures |SplitFrom(s, start, p)| == |SeparatorsFrom(s, p)| + 1
    ensures Rejoin(SplitFrom(s, start, p), SeparatorsFrom(s, p)) == s[start..]
  {
    SplitFromMatch(s, start, p, e);
    SeparatorsFromStep(s, p);
    RejoinCons(s[start..p], s[p..e], SplitFrom(s, e, e), SeparatorsFrom(s, e));
    SliceConcat(s, start, p, e);
    SliceConcat(s, start, e, |s|);
  }

  /**
   * Splitting loses nothing: the pieces with the separators put back between
   * them give the input again, and every separator is a match of the pattern.
   */
  lemma SplitCodeRejoins(s: string)
    ensures |SplitCode(s)| == |SeparatorsFrom(s, 0)| + 1
    ensures Rejoin(SplitCode(s), SeparatorsFrom(s, 0)) == s
    ensures forall k :: 0 <= k < |SeparatorsFrom(s, 0)| ==> IsSeparator(SeparatorsFrom(s, 0)[k])
  {
    SplitFromRejoins(s, 0, 0);
    SeparatorsFromMatch(s, 0);
  }

  /** A slice in which the pattern matches nowhere contains no separator. */
  lemma SliceHasNoSeparator(s: string, a: nat, b: nat)
    requires a <= b <= |s|
    requires forall q :: a <= q < b ==> MatchAt(s, q).None?
    ensures !HasSeparator(s[a..b])
  {
    if HasSeparator(s[a..b]) {
      var i, j :| 0 <= i < j <= b - a && IsSeparator(s[a..b][i..j]);
      SliceOfSlice(s, a, b, i, j);
      MatchAtComplete(s, a + i, a + j);
    }
  }

  /** Text without a line feed holds no separator: every separator starts with one. */
  lemma NoNewlineNoSeparator(s: string)
    requires '\n' !in s
    ensures !HasSeparator(s)
  {
    assert forall q :: 0 <= q < |s| ==> s[q] != '\n';
    SliceHasNoSeparator(s, 0, |s|);
    assert s[0..|s|] == s;
  }

  lemma {:induction false} SplitFromPiecesClean(s: string, start: nat, p: nat)
    requires start <= p <= |s|
    requires forall q :: start <= q < p ==> MatchAt(s, q).None?
    ensures forall k :: 0 <= k < |SplitFrom(s, start, p)| ==> !HasSeparator(SplitFrom(s, start, p)[k])
    decreases |s| - p
  {
    if p == |s| {
      SliceHasNoSeparator(s, start, p);
      assert s[start..p] == s[start..];
    } else {
      match MatchAt(s, p)
      case Some(e) =>
        SliceHasNoSeparator(s, start, p);
        SplitFromPiecesClean(s, e, e);
      case None =>
        SplitFromPiecesClean(s, start, p + 1);
    }
  }

  /** The split is leftmost and exhaustive: no piece still contains a separator. */
  lemma SplitCodePiecesClean(s: string)
    ensures forall k :: 0 <= k < |SplitCode(s)| ==> !HasSeparator(SplitCode(s)[k])
  {
    SplitFromPiecesClean(s, 0, 0);
  }

  /** Positions where the pattern does not match only extend the current piece. */
  lemma {:induction false} SkipNoMatch(s: string, start: nat, p: nat, q: nat)
    requires start <= p <= q <= |s|
    requires forall i :: p <= i < q ==> MatchAt(s, i).None?
    ensures SplitFrom(s, start, p) == SplitFrom(s, start, q)
    decreases q - p
  {
    if p < q {
      SkipNoMatch(s, start, p + 1, q);
    }
  }

  lemma NoMatchOnePiece(s: string, start: nat, p: nat)
    requires start <= p <= |s|
    requires forall q :: p <= q < |s| ==> MatchAt(s, q).None?
    ensures SplitFrom(s, start, p) == [s[start..]]
  {
    SkipNoMatch(s, start, p, |s|);
  }

  /** The text comes back whole from the split exactly when it holds no separator. */
  lemma SplitCodeOnePieceIff(s: string)
    ensures SplitCode(s) == [s] <==> !HasSeparator(s)
  {
    if !HasSeparator(s) {
      forall q | 0 <= q < |s| ensures MatchAt(s, q).None? {
        MatchAtSound(s, q);
      }
      NoMatchOnePiece(s, 0, 0);
      assert s[0..] == s;
    }
    if SplitCode(s) == [s] {
      SplitCodePiecesClean(s);
      assert SplitCode(s)[0] == s;
    }
  }

  lemma {:induction false} AllSpacePieces(s: string, start: nat, p: nat)
    requires start <= p <= |s|
    requires forall k :: start <= k < |s| ==> IsSpace(s[k])
    ensures forall k :: 0 <= k < |SplitFrom(s, start, p)| ==> AllSpace(SplitFrom(s, start, p)[k])
    decreases |s| - p
  {
    if p == |s| {
      assert forall k :: 0 <= k < |s| - start ==> s[start..][k] == s[start + k];
    } else {
      match MatchAt(s, p)
      case Some(e) =>
        assert forall k :: 0 <= k < p - start ==> s[start..p][k] == s[start + k];
        AllSpacePieces(s, e, e);
      case None =>
        AllSpacePieces(s, start, p + 1);
    }
  }

  /** Non-empty, and neither starting nor ending with whitespace. */
  predicate IsTrimmed(b: string) {
    b != [] && !IsSpace(b[0]) && !IsSpace(b[|b| - 1])
  }

  /**
   * `[piece.strip() for piece in pieces if piece.strip()]`: at most one block
   * per piece, and every block kept is non-empty with no whitespace at either end.
   */
  function KeepStripped(pieces: seq<string>): (blocks: seq<string>)
    ensures |blocks| <= |pieces|
    ensures forall k :: 0 <= k < |blocks| ==> IsTrimmed(blocks[k])
  {
    if pieces == [] then []
    else
      var b := Strip(pieces[0]);
      var rest := KeepStripped(pieces[1..]);
      if b == [] then rest
      else
        assert IsTrimmed(b);
        assert forall k :: 1 <= k < |rest| + 1 ==> ([b] + rest)[k] == rest[k - 1];
        [b] + rest
  }

  /** Nothing is kept from all-whitespace pieces. */
  lemma {:induction false} KeepStrippedAllSpace(pieces: seq<string>)
    requires forall k :: 0 <= k < |pieces| ==> AllSpace(pieces[k])
    ensures KeepStripped(pieces) == []
  {
    if pieces != [] {
      assert forall k :: 1 <= k < |pieces| ==> pieces[1..][k - 1] == pieces[k];
      KeepStrippedAllSpace(pieces[1..]);
    }
  }

  /**
   * `parse_code_into_blocks`: every block is non-empty and equal to its own
   * strip, and empty or all-whitespace text gives no block at all.
   */
  function ParseCodeIntoBlocks(code: string): (blocks: seq<string>)
    ensures forall k :: 0 <= k < |blocks| ==> blocks[k] != [] && Strip(blocks[k]) == blocks[k]
    ensures AllSpace(code) ==> blocks == []
  {
    var blocks := KeepStripped(SplitCode(code));
    assert AllSpace(code) ==> blocks == [] by {
      if AllSpace(code) {
        AllSpacePieces(code, 0, 0);
        KeepStrippedAllSpace(SplitCode(code));
      }
    }
    assert forall k :: 0 <= k < |blocks| ==> Strip(blocks[k]) == blocks[k] by {
      forall k | 0 <= k < |blocks| ensures Strip(blocks[k]) == blocks[k] {
        StripFixed(blocks[k]);
      }
    }
    blocks
  }

  /** Text without any separator gives its own strip as the only block, or nothing. */
  lemma ParseWithoutSeparator(code: string)
    requires !HasSeparator(code)
    ensures ParseCodeIntoBlocks(code) == if Strip(code) == [] then [] else [Strip(code)]
  {
    SplitCodeOnePieceIff(code);
    assert [code][1..] == [];
  }

  /** A position moved `d` to the right, if there is one. */
  function Shift(o: Option<nat>, d: nat): Option<nat> {
    match o
    case None => None
    case Some(k) => Some(k + d)
  }

  /** Whitespace runs do not look to the left of where they start. */
  lemma {:induction false} RunEndDrop(s: string, d: nat, i: nat)
    requires d + i <= |s|
    ensures RunEnd(s, d + i) == d + RunEnd(s[d..], i)
    decreases |s| - i
  {
    if d + i < |s| {
      assert s[d..][i] == s[d + i];
      RunEndDrop(s, d, i + 1);
    }
  }

  lemma {:induction false} LastNewlineDrop(s: string, d: nat, lo: nat, hi: nat)
    requires lo <= hi && d + hi <= |s|
    ensures LastNewline(s, d + lo, d + hi) == Shift(LastNewline(s[d..], lo, hi), d)
    decreases hi - lo
  {
    if lo < hi {
      assert s[d..][hi - 1] == s[d + hi - 1];
      LastNewlineDrop(s, d, lo, hi - 1);
    }
  }

  lemma DropSlice(s: string, d: nat, i: nat, j: nat)
    requires d + i <= d + j <= |s|
    ensures s[d..][i..j] == s[d + i..d + j]
  {
    var v := s[d..][i..j];
    assert forall k :: 0 <= k < j - i ==> v[k] == s[d + i + k];
  }

  lemma MatchAfterRunDrop(s: string, d: nat, lo: nat, r: nat)
    requires lo <= r && d + r <= |s|
    ensures MatchAfterRun(s, d + lo, d + r) == Shift(MatchAfterRun(s[d..], lo, r), d)
  {
    LastNewlineDrop(s, d, lo, r);
    if r + 4 <= |s| - d {
      DropSlice(s, d, r, r + 4);
    }
  }

  /** At a line feed, the match is decided by the whitespace run after it. */
  lemma MatchAtNewline(s: string, p: nat)
    requires p < |s| && s[p] == '\n'
    ensures MatchAt(s, p) == MatchAfterRun(s, p + 1, RunEnd(s, p + 1))
  {
  }

  /** The match at a position depends only on the text from that position on. */
  lemma MatchAtDrop(s: string, d: nat, q: nat)
    requires d + q <= |s|
    ensures MatchAt(s, d + q) == Shift(MatchAt(s[d..], q), d)
  {
    if d + q < |s| {
      assert s[d..][q] == s[d + q];
      if s[d + q] == '\n' {
        MatchAtDropNewline(s, d, q);
      }
    }
  }

  lemma MatchAtDropNewline(s: string, d: nat, q: nat)
    requires d + q < |s| && s[d + q] == '\n' && s[d..][q] == '\n'
    ensures MatchAt(s, d + q) == Shift(MatchAt(s[d..], q), d)
  {
    MatchAtNewline(s, d + q);
    MatchAtNewline(s[d..], q);
    RunEndDrop(s, d, q + 1);
    MatchAfterRunDrop(s, d, q + 1, RunEnd(s[d..], q + 1));
  }

  /** Scanning the tail of `s` from `d` on gives the pieces of scanning `s[d..]` alone. */
  lemma {:induction false} SplitFromDrop(s: string, d: nat, a: nat, p: nat)
    requires a <= p && d + p <= |s|
    ensures SplitFrom(s, d + a, d + p) == SplitFrom(s[d..], a, p)
    decreases |s| - p
  {
    if d + p == |s| {
      assert s[d..][a..] == s[d + a..];
    } else {
      MatchAtDrop(s, d, p);
      match MatchAt(s[d..], p)
      case Some(e) =>
        SplitFromDropMatch(s, d, a, p, e);
        SplitFromDrop(s, d, e, e);
      case None =>
        SplitFromDropSkip(s, d, a, p);
        SplitFromDrop(s, d, a, p + 1);
    }
  }

  /** One step of the scan at a position where the pattern matches. */
  lemma SplitFromMatch(s: string, start: nat, p: nat, e: nat)
    requires start <= p < |s| && MatchAt(s, p) == Some(e)
    ensures SplitFrom(s, start, p) == [s[start..p]] + SplitFrom(s, e, e)
  {
  }

  /** One step of the scan at a position where the pattern does not match. */
  lemma SplitFromSkip(s: string, start: nat, p: nat)
    requires start <= p < |s| && MatchAt(s, p).None?
    ensures SplitFrom(s, start, p) == SplitFrom(s, start, p + 1)
  {
  }

  lemma SplitFromDropMatch(s: string, d: nat, a: nat, p: nat, e: nat)
    requires a <= p && d + p < |s|
    requires MatchAt(s[d..], p) == Some(e) && MatchAt(s, d + p) == Some(d + e)
    ensures SplitFrom(s, d + a, d + p) == [s[d..][a..p]] + SplitFrom(s, d + e, d + e)
    ensures SplitFrom(s[d..], a, p) == [s[d..][a..p]] + SplitFrom(s[d..], e, e)
  {
    DropSlice(s, d, a, p);
    SplitFromMatch(s, d + a, d + p, d + e);
    SplitFromMatch(s[d..], a, p, e);
  }

  lemma SplitFromDropSkip(s: string, d: nat, a: nat, p: nat)
    requires a <= p && d + p < |s|
    requires MatchAt(s[d..], p).None? && MatchAt(s, d + p).None?
    ensures SplitFrom(s, d + a, d + p) == SplitFrom(s, d + a, d + p + 1)
    ensures SplitFrom(s[d..], a, p) == SplitFrom(s[d..], a, p + 1)
  {
    SplitFromSkip(s, d + a, d + p);
    SplitFromSkip(s[d..], a, p);
  }

  lemma {:induction false} RunEndTake(s: string, n: nat, i: nat)
    requires i < n <= |s| && !IsSpace(s[n - 1])
    ensures RunEnd(s, i) == RunEnd(s[..n], i) < n
    decreases n - i
  {
    assert s[..n][i] == s[i];
    if IsSpace(s[i]) {
      RunEndTake(s, n, i + 1);
    }
  }

  lemma {:induction false} LastNewlineTake(s: string, n: nat, lo: nat, hi: nat)
    requires lo <= hi <= n <= |s|
    ensures LastNewline(s, lo, hi) == LastNewline(s[..n], lo, hi)
    decreases hi - lo
  {
    if lo < hi {
      assert s[..n][hi - 1] == s[hi - 1];
      LastNewlineTake(s, n, lo, hi - 1);
    }
  }

  /**
   * Before a line feed that follows a non-space character, the matches are
   * those of the text up to that line feed.
   */
  lemma MatchAtTake(s: string, n: nat, q: nat)
    requires q < n < |s| && !IsSpace(s[n - 1]) && s[n] == '\n'
    ensures MatchAt(s, q) == MatchAt(s[..n], q)
  {
    assert s[..n][q] == s[q];
    if s[q] == '\n' {
      RunEndTake(s, n, q + 1);
      MatchAfterRunTake(s, n, q + 1, RunEnd(s, q + 1));
    }
  }

  lemma MatchAfterRunTake(s: string, n: nat, lo: nat, r: nat)
    requires lo <= r < n < |s| && s[n] == '\n'
    ensures MatchAfterRun(s, lo, r) == MatchAfterRun(s[..n], lo, r)
  {
    LastNewlineTake(s, n, lo, r);
    if r + 4 <= n {
      assert s[r..r + 4] == s[..n][r..r + 4];
    } else if r + 4 <= |s| {
      assert s[r..r + 4][n - r] == s[n];
    }
  }

  /**
   * A trimmed block without a separator, a blank line and then text starting
   * with a non-space character: the block is the first piece, and the rest
   * splits as it does alone.
   */
  lemma SplitAfterBlankLine(x: string, y: string)
    requires IsTrimmed(x) && !HasSeparator(x)
    requires y == [] || !IsSpace(y[0])
    ensures SplitCode(x + "\n\n" + y) == [x] + SplitCode(y)
  {
    var s := x + "\n\n" + y;
    var n := |x|;
    assert s[..n] == x && s[n + 2..] == y;
    assert s[n - 1] == x[n - 1] && s[n] == '\n' && s[n + 1] == '\n';
    forall q | 0 <= q < n ensures MatchAt(s, q).None? {
      MatchAtTake(s, n, q);
      MatchAtSound(x, q);
    }
    SkipNoMatch(s, 0, 0, n);
    assert n + 2 < |s| ==> s[n + 2] == y[0];
    BlankLineMatch(s, n);
    SplitFromDrop(s, n + 2, 0, 0);
    assert s[0..n] == x;
  }

  /** A line feed, another one, then the end or a non-space character: a two-character match. */
  lemma BlankLineMatch(s: string, n: nat)
    requires n + 2 <= |s| && s[n] == '\n' && s[n + 1] == '\n'
    requires n + 2 == |s| || !IsSpace(s[n + 2])
    ensures MatchAt(s, n) == Some(n + 2)
  {
    assert RunEnd(s, n + 2) == n + 2;
    assert RunEnd(s, n + 1) == n + 2;
    assert LastNewline(s, n + 1, n + 2) == Some(n + 1);
  }

  /** The blocks one after the other, with a blank line between neighbours. */
  function JoinBlocks(blocks: seq<string>): string {
    if blocks == [] then []
    else if |blocks| == 1 then blocks[0]
    else blocks[0] + "\n\n" + JoinBlocks(blocks[1..])
  }

  /** A block as `parse_code_into_blocks` produces it: trimmed and free of separators. */
  predicate IsCleanBlock(b: string) {
    IsTrimmed(b) && !HasSeparator(b)
  }

  /** Clean blocks joined by blank lines split back into exactly those blocks. */
  lemma {:induction false} SplitJoinedBlocks(blocks: seq<string>)
    requires blocks != []
    requires forall k :: 0 <= k < |blocks| ==> IsCleanBlock(blocks[k])
    ensures SplitCode(JoinBlocks(blocks)) == blocks
  {
    if |blocks| == 1 {
      SplitCodeOnePieceIff(blocks[0]);
    } else {
      var rest := blocks[1..];
      assert IsCleanBlock(blocks[0]) && IsCleanBlock(rest[0]);
      SplitJoinedBlocks(rest);
      assert JoinBlocks(rest)[0] == rest[0][0];
      SplitAfterBlankLine(blocks[0], JoinBlocks(rest));
    }
  }

  /** Trimmed blocks are kept as they are. */
  lemma {:induction false} KeepStrippedTrimmed(blocks: seq<string>)
    requires forall k :: 0 <= k < |blocks| ==> IsTrimmed(blocks[k])
    ensures KeepStripped(blocks) == blocks
  {
    if blocks != [] {
      StripFixed(blocks[0]);
      assert forall k :: 1 <= k < |blocks| ==> blocks[1..][k - 1] == blocks[k];
      KeepStrippedTrimmed(blocks[1..]);
    }
  }

  /** Parsing clean blocks joined by blank lines gives back the blocks. */
  lemma ParseJoinedBlocks(blocks: seq<string>)
    requires forall k :: 0 <= k < |blocks| ==> IsCleanBlock(blocks[k])
    ensures ParseCodeIntoBlocks(JoinBlocks(blocks)) == blocks
  {
    if blocks != [] {
      SplitJoinedBlocks(blocks);
      KeepStrippedTrimmed(blocks);
    }
  }

  /** A substring of text without a separator has none either. */
  lemma NoSeparatorInSlice(s: string, a: nat, b: nat)
    requires a <= b <= |s| && !HasSeparator(s)
    ensures !HasSeparator(s[a..b])
  {
    forall i, j | 0 <= i < j <= b - a ensures !IsSeparator(s[a..b][i..j]) {
      SliceOfSlice(s, a, b, i, j);
    }
  }

  /** Stripping a piece without a separator leaves a block without one. */
  lemma StripKeepsNoSeparator(piece: string)
    requires !HasSeparator(piece)
    ensures !HasSeparator(Strip(piece))
  {
    var r := Strip(piece);
    var a: nat :| PaddedAt(piece, a, r);
    NoSeparatorInSlice(piece, a, a + |r|);
  }

  /** Stripping pieces without a separator keeps only clean blocks. */
  lemma {:induction false} KeepStrippedClean(pieces: seq<string>)
    requires forall p :: p in pieces ==> !HasSeparator(p)
    ensures forall b :: b in KeepStripped(pieces) ==> IsCleanBlock(b)
  {
    if pieces != [] {
      KeepStrippedClean(pieces[1..]);
      StripKeepsNoSeparator(pieces[0]);
    }
  }

  /** Every block of `parse_code_into_blocks` is clean. */
  lemma ParseGivesCleanBlocks(code: string)
    ensures forall k :: 0 <= k < |ParseCodeIntoBlocks(code)| ==> IsCleanBlock(ParseCodeIntoBlocks(code)[k])
  {
    var pieces := SplitCode(code);
    SplitCodePiecesClean(code);
    assert forall p :: p in pieces ==> !HasSeparator(p);
    KeepStrippedClean(pieces);
  }

  /**
   * Writing the blocks back out with a blank line between neighbours and
   * parsing again gives the same blocks.
   */
  lemma ParseJoinParse(code: string)
    ensures ParseCodeIntoBlocks(JoinBlocks(ParseCodeIntoBlocks(code))) == ParseCodeIntoBlocks(code)
  {
    ParseGivesCleanBlocks(code);
    ParseJoinedBlocks(ParseCodeIntoBlocks(code));
  }
}
