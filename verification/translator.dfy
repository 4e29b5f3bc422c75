/**
 * The whole bf-to-lang translator (bf-to-lang/bf-to-c.c, `main`): filter
 * the file, coalesce runs, check the brackets, and generate the C program.
 * Reading and writing files are left to the caller; the file name and the
 * file's bytes are parameters.
 */
module Translator {
  import opened Wrappers
  import opened Commands
  import opened RunLength
  import opened BfToLang
  import opened CodeGen
  import BfInterpreter

  /** Why no C program is produced. */
  datatype Failure = EmptyFile | BracketSyntax

  /**
   * `main` of the translator, with the bracket check of `optimize`
   * corrected to test the current command. An empty file and an
   * unbalanced file are refused; otherwise the generated program spells
   * out exactly the commands of the file, and every statement sits at
   * least one tab inside `main`.
   */
  function Translate(name: seq<char>, file: seq<char>): (r: Result<Generated, Failure>)
    requires |name| >= 2 && EOF_BYTE !in file
    ensures r == Err(EmptyFile) <==> |file| == 0
    ensures r == Err(BracketSyntax) <==> |file| > 0 && !Balanced(Keep(file, Alphabet))
    ensures r.Ok? ==> r.value.fileName == OutputName(name)
    ensures r.Ok? ==> Decode(r.value.lines) == Keep(file, Alphabet)
    ensures r.Ok? ==> Indented(r.value.lines, 0)
    ensures r.Ok? ==> forall j :: 0 <= j < |r.value.lines| ==> r.value.lines[j].tabs >= 1
  {
    if |file| == 0 then Err(EmptyFile)
    else
      var p := ParseFile(file);
      assert p.input[..p.length - 1] == Keep(file, Alphabet);
      match OptimizeChecked(p.input, p.length)
      case None => Err(BracketSyntax)
      case Some(head) =>
        CommandsOnly(head, Keep(file, Alphabet));
        var g := WriteFile(name, head);
        NestedIndentation(g.lines, 0);
        Ok(g)
  }

  /** The coalesced list of a filtered file names only commands. */
  lemma CommandsOnly(head: seq<Node>, kept: seq<char>)
    requires forall i :: 0 <= i < |kept| ==> kept[i] in Alphabet
    requires head == [SENTINEL] + Runs(kept)
    requires MaximalRuns(head[1..]) && Expand(head[1..]) == kept
    ensures CommandNodes(head) && Expand(head) == kept
  {
    ExpandCons(SENTINEL, head[1..]);
    assert [SENTINEL] + head[1..] == head;
    forall k | 1 <= k < |head|
      ensures head[k].ins in Alphabet
    {
      NodeInExpansion(head[1..], k - 1);
    }
  }

  /**
   * What the as-written bracket check lets through: `+]]` passes `optimize`,
   * and `write_file` then writes the second `}` one level below zero, where
   * the `unsigned int` depth wraps to nearly `UINT_RANGE` spaces.
   */
  lemma StrayCloseWrapsIndentation()
    ensures Terminated("+]]\0", 4) && !Balanced("+]]")
    ensures Optimize("+]]\0", 4) == Some([SENTINEL, Node('+', 1), Node(']', 2)])
    ensures EmitLoop([SENTINEL, Node('+', 1), Node(']', 2)], 0).lines
         == [Line(1, Arithmetic('+', 1)), Line(0, BlockClose), Line(-1, BlockClose)]
    ensures |Spaces(-1)| == UINT_RANGE - TAB_SIZE
  {
    var s := "+]]";
    assert "+]]\0"[..3] == s;
    assert Depth(s) == -2;
    var nodes := [Node('+', 1), Node(']', 2)];
    assert Expand(nodes) == s by {
      assert Expand(nodes[1..]) == "]]" + [];
    }
    assert MaximalRuns(nodes);
    RunsUnique(nodes, s);
    assert [SENTINEL] + nodes == [SENTINEL, Node('+', 1), Node(']', 2)];
    var close := FixedLoop(BlockClose, -1, 2, 0, 0, 0, []);
    assert close.lines == [Line(0, BlockClose), Line(-1, BlockClose)] by {
      assert FixedLoop(BlockClose, -1, 2, 1, -1, -1, [Line(0, BlockClose)])
          == Emitted([Line(0, BlockClose), Line(-1, BlockClose)], -2);
    }
    var list := [SENTINEL, Node('+', 1), Node(']', 2)];
    assert EmitNode(SENTINEL, 0) == Emitted([], 0);
    assert EmitNode(Node('+', 1), 0).lines == [Line(1, Arithmetic('+', 1))];
    assert EmitNode(Node(']', 2), 0) == close;
    assert list[1..][1..] == [Node(']', 2)];
    assert EmitLoop(list[1..][1..], 0).lines == close.lines + [];
    SpacesCount(-1);
  }

  /**
   * The interpreter's `valid_line`, as written or corrected, and the
   * translator's bracket check agree: a non-empty file is refused for its
   * brackets exactly when the validator reports a position for its commands.
   */
  lemma CheckersAgree(name: seq<char>, file: seq<char>)
    requires |name| >= 2 && EOF_BYTE !in file
    ensures NUL !in Keep(file, Alphabet)
    ensures Translate(name, file) == Err(BracketSyntax) <==>
      |file| > 0 && BfInterpreter.ValidLine(Keep(file, Alphabet)) != -1
    ensures Translate(name, file) == Err(BracketSyntax) <==>
      |file| > 0 && BfInterpreter.ValidLineOutermost(Keep(file, Alphabet)) != -1
  {
    KeptHasNoNul(file);
    var r := Translate(name, file);
    assert r == Err(BracketSyntax) <==> |file| > 0 && !Balanced(Keep(file, Alphabet));
  }

  lemma KeptHasNoNul(file: seq<char>)
    ensures NUL !in Keep(file, Alphabet)
  {
    assert NUL !in Alphabet;
  }

  /**
   * The length `parse_file` returns is the length `get_line_length` measures
   * on its buffer: the kept commands plus the NUL.
   */
  lemma ParsedLengthIsLineLength(file: seq<char>)
    requires EOF_BYTE !in file
    ensures NUL in ParseFile(file).input
    ensures BfInterpreter.GetLineLength(ParseFile(file).input) == ParseFile(file).length
  {
    var kept := Keep(file, Alphabet);
    assert NUL !in Alphabet;
    BfInterpreter.GetLineLengthOfString(kept, []);
    assert kept + [NUL] + [] == ParseFile(file).input;
  }
}
