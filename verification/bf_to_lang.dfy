/**
 * The translator's front end (bf-to-lang/bf-to-c.c): `parse_file` filters
 * the source to a NUL-terminated command string and `optimize` turns that
 * string into a node list that starts with a sentinel, checking brackets
 * on the way.
 */
module BfToLang {
  import opened Wrappers
  import opened Commands
  import opened RunLength

  /** The node `optimize` puts at the head of every list. */
  const SENTINEL: Node := Node('x', 0)

  /**
   * `parse_file`: the command characters of the file, in order, then a
   * NUL; the returned length counts the NUL. A 0xFF byte would read back as
   * EOF and end the read early, so the file is required not to hold one.
   */
  function ParseFile(file: seq<char>): (r: Parsed)
    requires EOF_BYTE !in file
    ensures r.input == Keep(file, Alphabet) + [NUL]
    ensures r.length == |r.input| == |Keep(file, Alphabet)| + 1
    ensures 1 <= r.length <= |r.input| && NUL !in r.input[..r.length - 1]
  {
    assert file[0..|file|] == file;
    var kept := FilterLoop(file, Alphabet, 0, |file|, []);
    assert NUL !in Alphabet;
    assert (kept + [NUL])[..|kept|] == kept;
    Parsed(kept + [NUL], |kept| + 1)
  }

  /** The buffer `optimize` receives: `length` characters, the last one the only NUL. */
  predicate Terminated(input: seq<char>, length: nat)
  {
    1 <= length <= |input| && input[length - 1] == NUL && NUL !in input[..length - 1]
  }

  /** How the bracket `switch` of `optimize` moves `cur_layer`. */
  function LayerChange(c: char): int
  {
    if c == '[' then 1 else if c == ']' then -1 else 0
  }

  /**
   * Which character the `switch` inside the loop inspects: the source reads
   * `input[0]` on every iteration; the corrected optimizer reads `input[i]`.
   */
  datatype Probe = FirstCommand | CurrentCommand

  function Probed(input: seq<char>, i: nat, probe: Probe): char
    requires i < |input|
  {
    match probe
    case FirstCommand => input[0]
    case CurrentCommand => input[i]
  }

  /**
   * The `for` loop of `optimize` at index `i`: first the layer check, then
   * the layer update, then a node for the run that ends at `i - 1` whenever
   * the command changes. After the loop a non-zero layer is an error.
   */
  function OptimizeLoop(input: seq<char>, length: nat, probe: Probe,
                        i: nat, layer: int, prevCount: nat, nodes: seq<Node>): Option<seq<Node>>
    requires 1 <= i <= length <= |input|
    decreases length - i
  {
    if i < length then
      if layer < 0 then None
      else
        var layer' := layer + LayerChange(Probed(input, i, probe));
        if input[i - 1] != input[i] then
          OptimizeLoop(input, length, probe, i + 1, layer', 1, AddNode(nodes, input[i - 1], prevCount))
        else
          OptimizeLoop(input, length, probe, i + 1, layer', prevCount + 1, nodes)
    else if layer != 0 then None
    else Some(nodes)
  }

  /**
   * `optimize`, as written. The list is the sentinel followed by the
   * maximal runs of the command string; the trailing NUL ends the last run,
   * so nothing is lost. The bracket check only ever looks at the first
   * command: it fails exactly when that command is a bracket.
   */
  function Optimize(input: seq<char>, length: nat): (r: Option<seq<Node>>)
    requires Terminated(input, length)
    ensures r.None? <==> input[0] in Brackets
    ensures r.Some? ==> r.value == [SENTINEL] + Runs(input[..length - 1])
    ensures r.Some? ==> MaximalRuns(r.value[1..]) && Expand(r.value[1..]) == input[..length - 1]
    ensures r.Some? ==> TotalCount(r.value[1..]) == length - 1
  {
    var r := OptimizeLoop(input, length, FirstCommand, 1, LayerChange(input[0]), 1, [SENTINEL]);
    assert Pending(input, 1, 1, [SENTINEL]);
    CoalesceSpec(input, length, FirstCommand, 1, LayerChange(input[0]), 1, [SENTINEL]);
    EncodesAll(input, length, if r.Some? then r.value else []);
    FirstCommandVerdict(input, length);
    ExpandLength(Runs(input[..length - 1]));
    r
  }

  /**
   * `optimize` with the loop's `switch` reading `input[i]`: it fails
   * exactly when the command string's brackets do not balance, and
   * otherwise builds the same list.
   */
  function OptimizeChecked(input: seq<char>, length: nat): (r: Option<seq<Node>>)
    requires Terminated(input, length)
    ensures r.None? <==> !Balanced(input[..length - 1])
    ensures r.Some? ==> r.value == [SENTINEL] + Runs(input[..length - 1])
    ensures r.Some? ==> MaximalRuns(r.value[1..]) && Expand(r.value[1..]) == input[..length - 1]
  {
    var r := OptimizeLoop(input, length, CurrentCommand, 1, LayerChange(input[0]), 1, [SENTINEL]);
    assert Pending(input, 1, 1, [SENTINEL]);
    CoalesceSpec(input, length, CurrentCommand, 1, LayerChange(input[0]), 1, [SENTINEL]);
    EncodesAll(input, length, if r.Some? then r.value else []);
    CheckedStart(input, length);
    CurrentCommandVerdict(input, length, 1, LayerChange(input[0]), 1, [SENTINEL]);
    r
  }

  /**
   * What the list holds before the pending run `input[start..i]`: the
   * sentinel, then maximal runs that expand to `input[..start]` and end
   * with the character just before the pending run.
   */
  predicate Encodes(nodes: seq<Node>, input: seq<char>, start: nat)
    requires start <= |input|
  {
    |nodes| >= 1 && nodes[0] == SENTINEL && EncodesAfter(nodes, 1, input, start)
  }

  /** Once the NUL has closed the last run, the list is the reference encoding. */
  lemma EncodesAll(input: seq<char>, length: nat, nodes: seq<Node>)
    requires Terminated(input, length)
    ensures Encodes(nodes, input, length - 1) ==> nodes == [SENTINEL] + Runs(input[..length - 1])
  {
    if Encodes(nodes, input, length - 1) {
      EncodesAfterRuns(nodes, 1, input, length - 1);
      assert nodes == [nodes[0]] + nodes[1..];
    }
  }

  /** A loop outcome that, when it is a list, encodes the whole command string. */
  predicate EncodesCommands(r: Option<seq<Node>>, input: seq<char>, length: nat)
    requires 1 <= length <= |input|
  {
    r.Some? ==> Encodes(r.value, input, length - 1)
  }

  /**
   * Run-length invariant of the loop at index `i`: `nodes` encodes
   * everything before the pending run `input[i - prevCount..i]`, whose
   * characters are all equal and which is maximal on its left.
   */
  predicate Pending(input: seq<char>, i: nat, prevCount: nat, nodes: seq<Node>)
    requires i <= |input|
  {
    PendingRunAt(input, i, prevCount) && Encodes(nodes, input, i - prevCount)
  }

  /** The list and the run counter after the loop body at index `i`. */
  function NextNodes(input: seq<char>, i: nat, prevCount: nat, nodes: seq<Node>): seq<Node>
    requires 1 <= i < |input|
  {
    if input[i - 1] != input[i] then AddNode(nodes, input[i - 1], prevCount) else nodes
  }

  function NextCount(input: seq<char>, i: nat, prevCount: nat): nat
    requires 1 <= i < |input|
  {
    if input[i - 1] != input[i] then 1 else prevCount + 1
  }

  /** One iteration of the loop keeps the run-length invariant. */
  lemma PendingStep(input: seq<char>, i: nat, prevCount: nat, nodes: seq<Node>)
    requires 1 <= i < |input|
    requires Pending(input, i, prevCount, nodes)
    ensures Pending(input, i + 1, NextCount(input, i, prevCount), NextNodes(input, i, prevCount, nodes))
  {
    if input[i - 1] != input[i] {
      CloseRun(input, i, prevCount, nodes, 1);
      assert AddNode(nodes, input[i - 1], prevCount)[0] == SENTINEL;
    }
  }

  /** The loop at index `i < length`, once the layer check has passed, is the loop at `i + 1`. */
  lemma LoopUnfold(input: seq<char>, length: nat, probe: Probe,
                   i: nat, layer: int, prevCount: nat, nodes: seq<Node>)
    requires 1 <= i < length <= |input| && layer >= 0
    ensures OptimizeLoop(input, length, probe, i, layer, prevCount, nodes)
         == OptimizeLoop(input, length, probe, i + 1, layer + LayerChange(Probed(input, i, probe)),
                         NextCount(input, i, prevCount), NextNodes(input, i, prevCount, nodes))
  {
  }

  /**
   * Whatever the bracket check decides, a list that comes out of the loop
   * encodes the whole command string.
   */
  lemma {:induction false} CoalesceSpec(input: seq<char>, length: nat, probe: Probe,
                                        i: nat, layer: int, prevCount: nat, nodes: seq<Node>)
    requires Terminated(input, length) && 1 <= i <= length
    requires Pending(input, i, prevCount, nodes)
    ensures EncodesCommands(OptimizeLoop(input, length, probe, i, layer, prevCount, nodes), input, length)
    decreases length - i
  {
    if i < length && layer >= 0 {
      PendingStep(input, i, prevCount, nodes);
      LoopUnfold(input, length, probe, i, layer, prevCount, nodes);
      CoalesceSpec(input, length, probe, i + 1, layer + LayerChange(Probed(input, i, probe)),
                   NextCount(input, i, prevCount), NextNodes(input, i, prevCount, nodes));
    } else if i == length {
      CoalesceEnd(input, length, prevCount, nodes);
    }
  }

  /** At the end of the loop the pending run is the NUL alone, so `nodes` covers every command. */
  lemma CoalesceEnd(input: seq<char>, length: nat, prevCount: nat, nodes: seq<Node>)
    requires Terminated(input, length)
    requires Pending(input, length, prevCount, nodes)
    ensures Encodes(nodes, input, length - 1)
  {
    forall j | 0 <= j < length - 1 ensures input[j] != NUL {
      assert input[..length - 1][j] == input[j];
    }
    assert input[length - prevCount] == NUL;
  }

  /** As written, the layer only ever grows after a leading `[`, so the final check fails. */
  lemma {:induction false} OpenFirstFails(input: seq<char>, length: nat,
                                          i: nat, layer: int, prevCount: nat, nodes: seq<Node>)
    requires 1 <= i <= length <= |input| && input[0] == '[' && layer >= 1
    ensures OptimizeLoop(input, length, FirstCommand, i, layer, prevCount, nodes).None?
    decreases length - i
  {
    if i < length {
      var nodes' := if input[i - 1] != input[i] then AddNode(nodes, input[i - 1], prevCount) else nodes;
      var count' := if input[i - 1] != input[i] then 1 else prevCount + 1;
      OpenFirstFails(input, length, i + 1, layer + 1, count', nodes');
    }
  }

  /** As written, the layer stays 0 after a leading non-bracket, so no check fails. */
  lemma {:induction false} PlainFirstPasses(input: seq<char>, length: nat,
                                            i: nat, prevCount: nat, nodes: seq<Node>)
    requires 1 <= i <= length <= |input| && input[0] !in Brackets
    ensures OptimizeLoop(input, length, FirstCommand, i, 0, prevCount, nodes).Some?
    decreases length - i
  {
    if i < length {
      var nodes' := if input[i - 1] != input[i] then AddNode(nodes, input[i - 1], prevCount) else nodes;
      var count' := if input[i - 1] != input[i] then 1 else prevCount + 1;
      PlainFirstPasses(input, length, i + 1, count', nodes');
    }
  }

  /** The as-written verdict is decided by the first command alone. */
  lemma FirstCommandVerdict(input: seq<char>, length: nat)
    requires Terminated(input, length)
    ensures OptimizeLoop(input, length, FirstCommand, 1, LayerChange(input[0]), 1, [SENTINEL]).None?
        <==> input[0] in Brackets
  {
    if input[0] == '[' {
      OpenFirstFails(input, length, 1, 1, 1, [SENTINEL]);
    } else if input[0] == ']' {
    } else {
      PlainFirstPasses(input, length, 1, 1, [SENTINEL]);
    }
  }

  /** Before the loop the layer is the depth of the first command and nothing has been checked. */
  lemma CheckedStart(input: seq<char>, length: nat)
    requires Terminated(input, length)
    ensures LayerChange(input[0]) == Depth(input[..1]) && NeverBelow(input[..0], 0)
  {
    assert input[..0] == [];
    DepthStep(input, 0);
  }

  /**
   * With the loop reading `input[i]`, the layer at the top of iteration `i`
   * is the depth of `input[..i]`, and every earlier check has passed.
   */
  lemma {:induction false} CurrentCommandVerdict(input: seq<char>, length: nat,
                                                 i: nat, layer: int, prevCount: nat, nodes: seq<Node>)
    requires Terminated(input, length) && 1 <= i <= length
    requires layer == Depth(input[..i]) && NeverBelow(input[..i - 1], 0)
    ensures OptimizeLoop(input, length, CurrentCommand, i, layer, prevCount, nodes).None?
        <==> !Balanced(input[..length - 1])
    decreases length - i
  {
    var cmds := input[..length - 1];
    if i < length {
      if layer < 0 {
        assert cmds[..i] == input[..i];
      } else {
        NeverBelowSnoc(input, i - 1, 0);
        DepthStep(input, i);
        var nodes' := if input[i - 1] != input[i] then AddNode(nodes, input[i - 1], prevCount) else nodes;
        var count' := if input[i - 1] != input[i] then 1 else prevCount + 1;
        CurrentCommandVerdict(input, length, i + 1, layer + LayerChange(input[i]), count', nodes');
      }
    } else {
      DepthStep(input, length - 1);
    }
  }

  /** `+]` gets through although its `]` closes nothing. */
  lemma StrayCloseAccepted()
    ensures Terminated("+]\0", 3)
    ensures !Balanced("+]")
    ensures Optimize("+]\0", 3).Some?
  {
    var s := "+]";
    assert s[..2] == s;
    assert Depth(s[..2]) == -1;
    assert "+]\0"[..2] == s;
  }

  /** `[]` is rejected although it balances. */
  lemma BalancedLoopRejected()
    ensures Terminated("[]\0", 3)
    ensures Balanced("[]")
    ensures Optimize("[]\0", 3).None?
  {
    var s := "[]";
    assert s[..0] == [] && s[..1] == "[" && s[..2] == s;
    assert "[]\0"[..2] == s;
  }
}
