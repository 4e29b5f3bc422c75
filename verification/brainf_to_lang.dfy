/**
 * The earlier translator draft (brainf-to-lang/bf-to-c.c): `parse_file`
 * reads a known number of bytes and keeps the eight commands, and
 * `optimizer` appends run-length nodes after a caller-supplied head node.
 */
module BrainfToLang {
  import opened Commands
  import opened RunLength
  import opened Sequences
  import BfToLang

  /**
   * `parse_file`: reads exactly `length` bytes, keeps the commands among
   * them and writes a NUL after the last one, then returns `length`
   * itself, not the number of commands kept. The buffer holds `length`
   * bytes, so the NUL only fits when at least one byte was dropped.
   */
  function ParseFile(file: seq<char>, length: nat): (r: Parsed)
    requires length <= |file|
    requires |Keep(file[..length], Alphabet)| < length
    ensures r.input == Keep(file[..length], Alphabet) + [NUL]
    ensures |r.input| <= r.length == length
  {
    var kept := FilterLoop(file, Alphabet, 0, length, []);
    Parsed(kept + [NUL], length)
  }

  /**
   * Both drafts keep the same commands from a whole file; the later one
   * returns the filtered length, the earlier one the file length.
   */
  lemma SameFilterAsLaterDraft(file: seq<char>, length: nat)
    requires EOF_BYTE !in file && length == |file|
    requires |Keep(file[..length], Alphabet)| < length
    ensures ParseFile(file, length).input == BfToLang.ParseFile(file).input
    ensures BfToLang.ParseFile(file).length <= ParseFile(file, length).length
  {
    assert file[..|file|] == file;
  }

  /** The value `prev_ins` starts with, which becomes the first node's `ins`. */
  const PLACEHOLDER: char := '_'

  /** The loop state of `optimizer`: appended nodes, `prev_ins`, `prev_count`. */
  datatype Scan = Scan(nodes: seq<Node>, prevIns: char, prevCount: nat)

  /**
   * The `for` loop of `optimizer` at index `i`: a change of command appends
   * the pending run `(prev_ins, prev_count)`, then the run restarts or grows.
   */
  function OptimizerLoop(input: seq<char>, length: nat, i: nat, st: Scan): Scan
    requires i <= length <= |input|
    decreases length - i
  {
    if i < length then
      var changed := st.prevIns != input[i];
      var nodes' := if changed then AddNode(st.nodes, st.prevIns, st.prevCount) else st.nodes;
      var count' := (if changed then 0 else st.prevCount) + 1;
      OptimizerLoop(input, length, i + 1, Scan(nodes', input[i], count'))
    else st
  }

  /**
   * What the first iteration appends: the placeholder node `('_', 0)`,
   * unless the first command is itself `_`.
   */
  function Leading(s: seq<char>): seq<Node>
  {
    if s != [] && s[0] != PLACEHOLDER then [Node(PLACEHOLDER, 0)] else []
  }

  /** The encoding without its last run. */
  function AllButLast(runs: seq<Node>): seq<Node>
  {
    if runs == [] then [] else runs[..|runs| - 1]
  }

  /**
   * `optimizer`, as written: the nodes appended after `head`. The loop never
   * appends the run still pending when it ends, so the last maximal run of
   * the input is lost.
   */
  function Optimizer(input: seq<char>, length: nat): (r: seq<Node>)
    requires length <= |input|
    ensures r == Leading(input[..length]) + AllButLast(Runs(input[..length]))
  {
    OptimizerSpec(input, length);
    OptimizerLoop(input, length, 0, Scan([], PLACEHOLDER, 0)).nodes
  }

  /** `optimizer` with the pending run appended after the loop, when there is one. */
  function OptimizerFlushed(input: seq<char>, length: nat): (r: seq<Node>)
    requires length <= |input|
    ensures r == Leading(input[..length]) + Runs(input[..length])
    ensures Expand(r) == input[..length]
    ensures MaximalRuns(r[|Leading(input[..length])|..])
  {
    var st := OptimizerLoop(input, length, 0, Scan([], PLACEHOLDER, 0));
    FlushedRuns(input, length);
    FlushedSpec(input[..length], Leading(input[..length]));
    if length == 0 then st.nodes else AddNode(st.nodes, st.prevIns, st.prevCount)
  }

  /** Appending the pending run after the loop gives the placeholder and every run. */
  lemma FlushedRuns(input: seq<char>, length: nat)
    requires length <= |input|
    ensures var st := OptimizerLoop(input, length, 0, Scan([], PLACEHOLDER, 0));
      (if length == 0 then st.nodes else AddNode(st.nodes, st.prevIns, st.prevCount))
        == Leading(input[..length]) + Runs(input[..length])
  {
    var st := OptimizerLoop(input, length, 0, Scan([], PLACEHOLDER, 0));
    OptimizerSpec(input, length);
    if length == 0 {
      assert input[..0] == [];
    } else {
      var lead, runs := Leading(input[..length]), Runs(input[..length]);
      var last := Node(st.prevIns, st.prevCount);
      AppendAssoc(lead, AllButLast(runs), [last]);
    }
  }

  /**
   * The loop invariant from index 1 on: the nodes are the placeholder and
   * the maximal runs before the pending run `input[i - prevCount..i]` of
   * `prev_ins`.
   */
  predicate Scanning(input: seq<char>, i: nat, st: Scan)
    requires 1 <= i <= |input|
  {
    var lead := Leading(input);
    && st.prevIns == input[i - 1]
    && PendingRunAt(input, i, st.prevCount)
    && |lead| <= |st.nodes| && st.nodes[..|lead|] == lead
    && EncodesAfter(st.nodes, |lead|, input, i - st.prevCount)
  }

  /** The state after the loop body at index `i`. */
  function Next(input: seq<char>, i: nat, st: Scan): Scan
    requires i < |input|
  {
    var changed := st.prevIns != input[i];
    Scan(if changed then AddNode(st.nodes, st.prevIns, st.prevCount) else st.nodes,
         input[i], (if changed then 0 else st.prevCount) + 1)
  }

  /** A new command closes the pending run, which becomes the encoding's next node. */
  lemma ScanningClose(input: seq<char>, i: nat, st: Scan)
    requires 1 <= i < |input| && Scanning(input, i, st) && st.prevIns != input[i]
    ensures Scanning(input, i + 1, Next(input, i, st))
  {
    var lead := Leading(input);
    CloseRun(input, i, st.prevCount, st.nodes, |lead|);
    var nodes' := AddNode(st.nodes, st.prevIns, st.prevCount);
    assert nodes'[..|lead|] == st.nodes[..|lead|];
  }

  /** A repeated command extends the pending run. */
  lemma ScanningExtend(input: seq<char>, i: nat, st: Scan)
    requires 1 <= i < |input| && Scanning(input, i, st) && st.prevIns == input[i]
    ensures Scanning(input, i + 1, Next(input, i, st))
  {
  }

  /** The first iteration appends the placeholder and starts the first run. */
  lemma ScanningStart(input: seq<char>)
    requires 1 <= |input|
    ensures Scanning(input, 1, Next(input, 0, Scan([], PLACEHOLDER, 0)))
  {
    var st := Next(input, 0, Scan([], PLACEHOLDER, 0));
    var lead := Leading(input);
    assert st.nodes == lead;
    assert st.nodes[|lead|..] == [];
    assert input[..0] == [];
  }

  /**
   * When the loop ends, the nodes are the placeholder and every run but the
   * last, and the pending run is the last one.
   */
  lemma ScanningEnd(input: seq<char>, length: nat, st: Scan)
    requires 1 <= length <= |input| && Scanning(input, length, st)
    ensures Runs(input[..length]) == AllButLast(Runs(input[..length])) + [Node(st.prevIns, st.prevCount)]
    ensures st.nodes == Leading(input[..length]) + AllButLast(Runs(input[..length]))
  {
    var lead := Leading(input);
    var body := st.nodes[|lead|..];
    ClosedRuns(input, length, st.nodes, |lead|, st.prevCount);
    SplitLast(body, Node(st.prevIns, st.prevCount));
    assert st.nodes == lead + body;
    LeadingOfPrefix(input, length);
  }

  /** Closing the pending run at the end completes the encoding. */
  lemma ClosedRuns(input: seq<char>, length: nat, nodes: seq<Node>, lead: nat, count: nat)
    requires length <= |input| && PendingRunAt(input, length, count)
    requires EncodesAfter(nodes, lead, input, length - count)
    ensures nodes[lead..] + [Node(input[length - 1], count)] == Runs(input[..length])
  {
    var closed := AddNode(nodes, input[length - 1], count);
    CloseRun(input, length, count, nodes, lead);
    EncodesAfterRuns(closed, lead, input, length);
    assert closed[lead..] == nodes[lead..] + [Node(input[length - 1], count)];
  }

  lemma SplitLast(body: seq<Node>, last: Node)
    ensures AllButLast(body + [last]) == body
  {
    assert (body + [last])[..|body|] == body;
  }

  /** The loop from index `i` on keeps the invariant to the end. */
  lemma {:induction false} ScanningLoop(input: seq<char>, length: nat, i: nat, st: Scan)
    requires 1 <= i <= length <= |input| && Scanning(input, i, st)
    ensures Scanning(input, length, OptimizerLoop(input, length, i, st))
    decreases length - i
  {
    if i < length {
      if st.prevIns != input[i] {
        ScanningClose(input, i, st);
      } else {
        ScanningExtend(input, i, st);
      }
      assert OptimizerLoop(input, length, i, st) == OptimizerLoop(input, length, i + 1, Next(input, i, st));
      ScanningLoop(input, length, i + 1, Next(input, i, st));
    }
  }

  /**
   * The loop's outcome: nothing for an empty input; otherwise the
   * placeholder and every run but the last, with the last one pending.
   */
  lemma OptimizerSpec(input: seq<char>, length: nat)
    requires length <= |input|
    ensures var st := OptimizerLoop(input, length, 0, Scan([], PLACEHOLDER, 0));
            && (length == 0 ==> st.nodes == [])
            && (length > 0 ==> st.nodes == Leading(input[..length]) + AllButLast(Runs(input[..length])))
            && (length > 0 ==> Runs(input[..length]) == AllButLast(Runs(input[..length])) + [Node(st.prevIns, st.prevCount)])
  {
    if length > 0 {
      var st1 := Next(input, 0, Scan([], PLACEHOLDER, 0));
      assert OptimizerLoop(input, length, 0, Scan([], PLACEHOLDER, 0))
          == OptimizerLoop(input, length, 1, st1);
      ScanningStart(input);
      ScanningLoop(input, length, 1, st1);
      ScanningEnd(input, length, OptimizerLoop(input, length, 1, st1));
    } else {
      assert input[..0] == [];
    }
  }

  /** The placeholder decision only looks at the first character. */
  lemma LeadingOfPrefix(input: seq<char>, length: nat)
    requires 1 <= length <= |input|
    ensures Leading(input[..length]) == Leading(input)
  {
  }

  /** Appending the last run back gives the placeholder and the full encoding. */
  lemma FlushedSpec(s: seq<char>, lead: seq<Node>)
    requires lead == Leading(s)
    ensures Expand(lead + Runs(s)) == s
    ensures MaximalRuns((lead + Runs(s))[|lead|..])
  {
    RunsEncode(s);
    ExpandAppend(lead, Runs(s));
    ExpandLeading(s);
    assert (lead + Runs(s))[|lead|..] == Runs(s);
  }

  /** Length of the run of equal characters that ends `s`. */
  function FinalRun(s: seq<char>): (n: nat)
    requires s != []
    ensures 1 <= n <= |s| && PendingRunAt(s, |s|, n)
    decreases |s|
  {
    if |s| == 1 || s[|s| - 2] != s[|s| - 1] then 1
    else
      var m := FinalRun(s[..|s| - 1]);
      assert forall j :: |s| - 1 - m <= j < |s| - 1 ==> s[j] == s[..|s| - 1][j];
      m + 1
  }

  /** Only one length of trailing characters forms the final run. */
  lemma PendingRunUnique(s: seq<char>, a: nat, b: nat)
    requires PendingRunAt(s, |s|, a) && PendingRunAt(s, |s|, b)
    ensures a == b
  {
  }

  /** The whole loop keeps the invariant, from index 1 to the end. */
  lemma OptimizerScans(input: seq<char>, length: nat)
    requires 1 <= length <= |input|
    ensures Scanning(input, length, OptimizerLoop(input, length, 0, Scan([], PLACEHOLDER, 0)))
  {
    var st1 := Next(input, 0, Scan([], PLACEHOLDER, 0));
    assert OptimizerLoop(input, length, 0, Scan([], PLACEHOLDER, 0))
        == OptimizerLoop(input, length, 1, st1);
    ScanningStart(input);
    ScanningLoop(input, length, 1, st1);
  }

  /** A pending run at `length` is one of the prefix that ends there. */
  lemma PendingRunOfPrefix(input: seq<char>, length: nat, count: nat)
    requires length <= |input| && PendingRunAt(input, length, count)
    ensures PendingRunAt(input[..length], length, count)
  {
    var s := input[..length];
    forall j | length - count <= j < length ensures s[j] == s[length - 1] {
      assert input[j] == input[length - 1];
    }
  }

  /** The placeholder stands for no command. */
  lemma ExpandLeading(s: seq<char>)
    ensures Expand(Leading(s)) == []
  {
    if Leading(s) != [] {
      assert Expand(Leading(s)) == Repeat(PLACEHOLDER, 0) + Expand([]);
    }
  }

  /** The loop's nodes expand to the input before its pending, final run. */
  lemma LoopLosesLastRun(input: seq<char>, length: nat)
    requires 1 <= length <= |input|
    ensures var nodes := OptimizerLoop(input, length, 0, Scan([], PLACEHOLDER, 0)).nodes;
            && |Leading(input[..length])| <= |nodes|
            && MaximalRuns(nodes[|Leading(input[..length])|..])
            && Expand(nodes) == input[..length - FinalRun(input[..length])]
  {
    var st := OptimizerLoop(input, length, 0, Scan([], PLACEHOLDER, 0));
    var lead := Leading(input);
    OptimizerScans(input, length);
    LeadingOfPrefix(input, length);
    PendingRunOfPrefix(input, length, st.prevCount);
    PendingRunUnique(input[..length], st.prevCount, FinalRun(input[..length]));
    assert st.nodes == lead + st.nodes[|lead|..];
    ExpandAppend(lead, st.nodes[|lead|..]);
    ExpandLeading(input);
  }

  /**
   * As written the list expands to the input with its final maximal run
   * removed, and the nodes after the placeholder are maximal runs.
   */
  lemma OptimizerLosesLastRun(input: seq<char>, length: nat)
    requires 1 <= length <= |input|
    ensures |Leading(input[..length])| <= |Optimizer(input, length)|
    ensures MaximalRuns(Optimizer(input, length)[|Leading(input[..length])|..])
    ensures Expand(Optimizer(input, length)) == input[..length - FinalRun(input[..length])]
  {
    LoopLosesLastRun(input, length);
  }

  /** `++` comes out as the placeholder alone: its only run is dropped. */
  lemma DoublePlusLosesItsRun()
    ensures Optimizer("++", 2) == [Node(PLACEHOLDER, 0)]
    ensures OptimizerFlushed("++", 2) == [Node(PLACEHOLDER, 0), Node('+', 2)]
  {
    var s := "++";
    assert s[..2] == s;
    assert LeadRun(s) == 2;
    assert Runs(s[2..]) == [];
    assert Runs(s) == [Node('+', 2)];
  }

  /**
   * With the final run flushed, this draft's nodes after the placeholder are
   * exactly the nodes the later draft's corrected `optimize` puts after its
   * sentinel, for the same command string.
   */
  lemma FlushedMatchesLaterDraft(input: seq<char>, length: nat)
    requires BfToLang.Terminated(input, length) && Balanced(input[..length - 1])
    ensures var r := BfToLang.OptimizeChecked(input, length);
            var lead := Leading(input[..length - 1]);
            && r.Some? && |lead| <= |OptimizerFlushed(input, length - 1)|
            && r.value[1..] == OptimizerFlushed(input, length - 1)[|lead|..]
  {
    var runs := Runs(input[..length - 1]);
    var lead := Leading(input[..length - 1]);
    assert ([BfToLang.SENTINEL] + runs)[1..] == runs;
    assert (lead + runs)[|lead|..] == runs;
  }
}
