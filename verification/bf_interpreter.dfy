/**
 * The interpreter draft: the bracket validator `valid_line` and the string
 * length helper `get_line_length` (bf-interpreter/bf.c). A C string is given
 * to `valid_line` as the characters before its terminator.
 */
module BfInterpreter {
  import opened Commands

  /** The `[` at `p` is never closed: every later prefix stays deeper than before it. */
  predicate Unmatched(line: seq<char>, p: nat)
    requires p <= |line|
  {
    forall k :: p < k <= |line| ==> Depth(line[..k]) > Depth(line[..p])
  }

  /** `p` is the last `[` among the first `index` characters, or -1 when there is none. */
  predicate LastOpenBefore(line: seq<char>, index: nat, p: int)
    requires index <= |line|
  {
    if p == -1 then forall j :: 0 <= j < index ==> line[j] != '['
    else 0 <= p < index && line[p] == '[' && forall j :: p < j < index ==> line[j] != '['
  }

  // ---------------------------------------------------------------------------
  // valid_line, as written
  // ---------------------------------------------------------------------------

  /** The `for` loop of `valid_line`: `count` is the running depth, `errorPoint` the last `[` seen. */
  function ValidScan(line: seq<char>, index: nat, count: int, errorPoint: int): int
    requires index <= |line|
    decreases |line| - index
  {
    if index < |line| then
      var errorPoint' := if line[index] == '[' then index else errorPoint;
      var count' :=
        if line[index] == '[' then count + 1
        else if line[index] == ']' then count - 1
        else count;
      if count' < 0 then index
      else ValidScan(line, index + 1, count', errorPoint')
    else if count != 0 then errorPoint
    else -1
  }

  /** The line's first unmatched `]` is at `r`: the depth first drops below zero there. */
  predicate FirstUnderflow(line: seq<char>, r: int)
  {
    0 <= r < |line| && line[r] == ']' && NeverBelow(line[..r], 0) && Depth(line[..r + 1]) < 0
  }

  /** What `valid_line` returns, stated over the whole line. */
  predicate AsWrittenVerdict(line: seq<char>, r: int)
  {
    && (r == -1 <==> Balanced(line))
    && (!NeverBelow(line, 0) ==> FirstUnderflow(line, r))
    && (NeverBelow(line, 0) && Depth(line) != 0 ==>
          0 <= r < |line| && line[r] == '[' && forall j :: r < j < |line| ==> line[j] != '[')
  }

  /**
   * `valid_line`: -1 when the brackets balance; otherwise the index of the
   * first `]` that closes nothing or, failing that, of the LAST `[` in the
   * line (which may itself be matched).
   */
  function ValidLine(line: seq<char>): (r: int)
    requires NUL !in line
    ensures r == -1 <==> Balanced(line)
    ensures r != -1 ==> 0 <= r < |line| && line[r] in Brackets
    ensures !NeverBelow(line, 0) ==>
      0 <= r < |line| && line[r] == ']' && NeverBelow(line[..r], 0) && Depth(line[..r + 1]) < 0
    ensures NeverBelow(line, 0) && Depth(line) != 0 ==>
      0 <= r < |line| && line[r] == '[' && forall j :: r < j < |line| ==> line[j] != '['
  {
    ScanStart(line);
    ValidScanSpec(line, 0, 0, -1);
    ValidScan(line, 0, 0, -1)
  }

  /** Before the loop: depth 0, nothing checked, no `[` seen. */
  lemma ScanStart(line: seq<char>)
    ensures Depth(line[..0]) == 0 && NeverBelow(line[..0], 0)
  {
    assert line[..0] == [];
  }

  /** With no `[` at all the depth cannot be positive. */
  lemma NoOpenNoDepth(line: seq<char>)
    requires forall j :: 0 <= j < |line| ==> line[j] != '['
    ensures Depth(line) <= 0
  {
    assert '[' !in line;
    assert '[' !in multiset(line);
  }

  /** One loop iteration: the new count is the depth one character further on. */
  lemma ScanStep(line: seq<char>, index: nat, count: int)
    requires index < |line|
    requires count == Depth(line[..index]) && NeverBelow(line[..index], 0)
    ensures var c := line[index];
      var count' := if c == '[' then count + 1 else if c == ']' then count - 1 else count;
      && count' == Depth(line[..index + 1])
      && (count' < 0 ==> FirstUnderflow(line, index) && !NeverBelow(line, 0))
      && (count' >= 0 ==> NeverBelow(line[..index + 1], 0))
  {
    DepthStep(line, index);
    NeverBelowSnoc(line, index, 0);
    assert line[..index][..index] == line[..index];
    assert count >= 0;
    var c := line[index];
    var count' := if c == '[' then count + 1 else if c == ']' then count - 1 else count;
    if count' < 0 {
      assert line[..index + 1] == line[..index + 1][..index + 1];
    }
  }

  /** An underflow at `index` is the first one, whatever follows. */
  lemma UnderflowVerdict(line: seq<char>, index: nat)
    requires FirstUnderflow(line, index) && !NeverBelow(line, 0)
    ensures AsWrittenVerdict(line, index)
  {
  }

  /** After the loop: the remaining cases are balanced, or unmatched `[`s. */
  lemma EndVerdict(line: seq<char>, count: int, errorPoint: int)
    requires count == Depth(line[..|line|]) && NeverBelow(line[..|line|], 0)
    requires LastOpenBefore(line, |line|, errorPoint)
    ensures AsWrittenVerdict(line, if count != 0 then errorPoint else -1)
  {
    assert line[..|line|] == line;
    if count != 0 && errorPoint == -1 {
      NoOpenNoDepth(line);
    }
  }

  lemma {:induction false} ValidScanSpec(line: seq<char>, index: nat, count: int, errorPoint: int)
    requires index <= |line|
    requires count == Depth(line[..index]) && NeverBelow(line[..index], 0)
    requires LastOpenBefore(line, index, errorPoint)
    ensures AsWrittenVerdict(line, ValidScan(line, index, count, errorPoint))
    decreases |line| - index
  {
    if index < |line| {
      var c := line[index];
      var errorPoint' := if c == '[' then index else errorPoint;
      var count' := if c == '[' then count + 1 else if c == ']' then count - 1 else count;
      ScanStep(line, index, count);
      if count' < 0 {
        UnderflowVerdict(line, index);
      } else {
        ValidScanSpec(line, index + 1, count', errorPoint');
        assert ValidScan(line, index, count, errorPoint) == ValidScan(line, index + 1, count', errorPoint');
      }
    } else {
      EndVerdict(line, count, errorPoint);
    }
  }

  /** Non-bracket characters never decide whether the line is accepted. */
  lemma OnlyBracketsMatter(line: seq<char>)
    requires NUL !in line
    ensures NUL !in Keep(line, Brackets)
    ensures ValidLine(line) == -1 <==> ValidLine(Keep(line, Brackets)) == -1
  {
    var k := Keep(line, Brackets);
    BalancedBracketsOnly(line);
  }

  // ---------------------------------------------------------------------------
  // get_line_length
  // ---------------------------------------------------------------------------

  /** The `for` loop of `get_line_length`, at position `i`. */
  function LengthScan(line: seq<char>, i: nat): (r: int)
    requires i <= |line| && NUL in line[i..]
    ensures i < r <= |line| && line[r - 1] == NUL
    ensures forall j :: i <= j < r - 1 ==> line[j] != NUL
    decreases |line| - i
  {
    assert line[i..] == [line[i]] + line[i + 1..];
    if line[i] == NUL then i + 1 else LengthScan(line, i + 1)
  }

  /** `get_line_length`: the index of the first NUL, plus one for the terminator. */
  function GetLineLength(line: seq<char>): (r: int)
    requires NUL in line
    ensures 1 <= r <= |line| && line[r - 1] == NUL && NUL !in line[..r - 1]
  {
    assert line[0..] == line;
    LengthScan(line, 0)
  }

  /** A string followed by its terminator measures one more than the string. */
  lemma GetLineLengthOfString(s: seq<char>, rest: seq<char>)
    requires NUL !in s
    ensures NUL in s + [NUL] + rest
    ensures GetLineLength(s + [NUL] + rest) == |s| + 1
  {
    var line := s + [NUL] + rest;
    assert line[|s|] == NUL;
    var r := GetLineLength(line);
  }

  // ---------------------------------------------------------------------------
  // valid_line, reporting the outermost unmatched `[`
  // ---------------------------------------------------------------------------

  /** The validator's loop with `error_point` recorded only for a `[` opened at depth 0. */
  function OutermostScan(line: seq<char>, index: nat, count: int, errorPoint: int): int
    requires index <= |line|
    decreases |line| - index
  {
    if index < |line| then
      var errorPoint' := if line[index] == '[' && count == 0 then index else errorPoint;
      var count' :=
        if line[index] == '[' then count + 1
        else if line[index] == ']' then count - 1
        else count;
      if count' < 0 then index
      else OutermostScan(line, index + 1, count', errorPoint')
    else if count != 0 then errorPoint
    else -1
  }

  /**
   * The validator as its comment describes it: -1 for a balanced line, else
   * the first bracket that is really in error. An unmatched `]` is reported
   * as before; for unmatched `[`s the result is the first `[` that is never
   * closed, and every `[` before it is closed.
   */
  function ValidLineOutermost(line: seq<char>): (r: int)
    requires NUL !in line
    ensures r == -1 <==> Balanced(line)
    ensures !NeverBelow(line, 0) ==>
      0 <= r < |line| && line[r] == ']' && NeverBelow(line[..r], 0) && Depth(line[..r + 1]) < 0
    ensures NeverBelow(line, 0) && Depth(line) != 0 ==>
      && 0 <= r < |line| && line[r] == '[' && Unmatched(line, r)
      && forall p :: 0 <= p < r && line[p] == '[' ==> !Unmatched(line, p)
  {
    assert line[..0] == [];
    assert OutermostInvariant(line, 0, 0, -1);
    OutermostScanSpec(line, 0, 0, -1);
    OutermostScan(line, 0, 0, -1)
  }

  /** What the corrected scan knows after reading `line[..index]`. */
  predicate OutermostInvariant(line: seq<char>, index: nat, count: int, errorPoint: int)
    requires index <= |line|
  {
    && count == Depth(line[..index]) && NeverBelow(line[..index], 0)
    && (count > 0 ==>
          && 0 <= errorPoint < index && line[errorPoint] == '[' && Depth(line[..errorPoint]) == 0
          && forall k :: errorPoint < k <= index ==> Depth(line[..k]) >= 1)
  }

  /** The promise of `ValidLineOutermost` about a result `r`. */
  predicate OutermostVerdict(line: seq<char>, r: int)
  {
    && (r == -1 <==> Balanced(line))
    && (!NeverBelow(line, 0) ==>
          0 <= r < |line| && line[r] == ']' && NeverBelow(line[..r], 0) && Depth(line[..r + 1]) < 0)
    && (NeverBelow(line, 0) && Depth(line) != 0 ==>
          && 0 <= r < |line| && line[r] == '[' && Unmatched(line, r)
          && forall p :: 0 <= p < r && line[p] == '[' ==> !Unmatched(line, p))
  }

  lemma {:induction false} OutermostScanSpec(line: seq<char>, index: nat, count: int, errorPoint: int)
    requires index <= |line|
    requires OutermostInvariant(line, index, count, errorPoint)
    ensures OutermostVerdict(line, OutermostScan(line, index, count, errorPoint))
    decreases |line| - index
  {
    if index < |line| {
      var c := line[index];
      var errorPoint' := if c == '[' && count == 0 then index else errorPoint;
      var count' := if c == '[' then count + 1 else if c == ']' then count - 1 else count;
      if count' < 0 {
        OutermostUnderflow(line, index, count);
      } else {
        OutermostStep(line, index, count, errorPoint);
        OutermostScanSpec(line, index + 1, count', errorPoint');
      }
    } else {
      OutermostEnd(line, count, errorPoint);
    }
  }

  /** A `]` that takes the depth below zero is reported at its own index. */
  lemma OutermostUnderflow(line: seq<char>, index: nat, count: int)
    requires index < |line| && OutermostInvariant(line, index, count, -1)
    requires (if line[index] == '[' then count + 1 else if line[index] == ']' then count - 1 else count) < 0
    ensures OutermostVerdict(line, index)
  {
    DepthStep(line, index);
    assert line[..index][..index] == line[..index];
    assert Depth(line[..index + 1]) < 0;
    assert !NeverBelow(line, 0);
  }

  /** Reading one more character keeps the invariant while the depth stays non-negative. */
  lemma OutermostStep(line: seq<char>, index: nat, count: int, errorPoint: int)
    requires index < |line| && OutermostInvariant(line, index, count, errorPoint)
    requires (if line[index] == '[' then count + 1 else if line[index] == ']' then count - 1 else count) >= 0
    ensures OutermostInvariant(line, index + 1,
      if line[index] == '[' then count + 1 else if line[index] == ']' then count - 1 else count,
      if line[index] == '[' && count == 0 then index else errorPoint)
  {
    DepthStep(line, index);
    NeverBelowSnoc(line, index, 0);
    var errorPoint' := if line[index] == '[' && count == 0 then index else errorPoint;
    if Depth(line[..index + 1]) > 0 {
      forall k | errorPoint' < k <= index + 1 ensures Depth(line[..k]) >= 1 {
      }
    }
  }

  /** At the end, a non-zero depth blames the `[` that opened the last return to depth zero. */
  lemma OutermostEnd(line: seq<char>, count: int, errorPoint: int)
    requires OutermostInvariant(line, |line|, count, errorPoint)
    ensures OutermostVerdict(line, if count != 0 then errorPoint else -1)
  {
    assert line[..|line|] == line;
    if count != 0 {
      var r := errorPoint;
      forall p | 0 <= p < r && line[p] == '[' ensures !Unmatched(line, p) {
        assert Depth(line[..p]) >= 0;
        assert Depth(line[..r]) <= Depth(line[..p]);
      }
    }
  }

  /**
   * `[[]` shows the difference: as written the validator blames the inner
   * `[` at index 1, which the `]` closes; the unclosed bracket is at 0.
   */
  lemma LastOpenIsNotTheUnmatchedOne()
    ensures ValidLine("[[]") == 1
    ensures !Unmatched("[[]", 1) && Unmatched("[[]", 0)
    ensures ValidLineOutermost("[[]") == 0
  {
    var s := "[[]";
    assert s[..0] == [] && s[..1] == "[" && s[..2] == "[[" && s[..3] == s;
    assert Depth(s[..1]) == 1 && Depth(s[..2]) == 2 && Depth(s) == 1;
    assert NeverBelow(s, 0);
  }
}
