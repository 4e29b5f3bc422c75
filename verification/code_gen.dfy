/**
 * The C back end of the translator (`write_file` in bf-to-lang/bf-to-c.c):
 * the output file name, and one C statement line per command or run of
 * commands, indented by the loop nesting depth. A line is modelled as its
 * tab count and an abstract statement; `Text` gives the statement's C text.
 */
module CodeGen {
  import opened Commands
  import opened RunLength
  import opened Sequences

  /** What a statement updates: the current cell or the cell index. */
  datatype Target = Cell | Index

  /** The statements `write_file` can emit. */
  datatype Stmt =
    | Increment(target: Target)              // `x++;`
    | Decrement(target: Target)              // `x--;`
    | AddTo(target: Target, amount: nat)     // `x += amount;`
    | SubtractFrom(target: Target, amount: nat)  // `x -= amount;`
    | PutChar                                // `putchar(tape[index]);`
    | GetChar                                // `tape[index] = getchar();`
    | WhileOpen                              // `while(tape[index]) {`
    | BlockClose                             // `}`

  /** One output line: `tabs` levels of indentation, then the statement. */
  datatype Line = Line(tabs: int, stmt: Stmt)

  /** The lines written so far and the value of `layer` after them. */
  datatype Emitted = Emitted(lines: seq<Line>, layer: int)

  /** What `write_file` produces: the file it opens and the statement lines of `main`. */
  datatype Generated = Generated(fileName: seq<char>, lines: seq<Line>)

  // ---------------------------------------------------------------------------
  // Output file name
  // ---------------------------------------------------------------------------

  /**
   * The source name with its last two characters replaced by `c`: the first
   * `strlen - 2` characters are copied, then `"c"` and its NUL. The copy
   * length would be negative for a name shorter than two characters.
   */
  function OutputName(oldName: seq<char>): (r: seq<char>)
    requires |oldName| >= 2
    ensures |r| == |oldName| - 1
    ensures r[..|r| - 1] == oldName[..|oldName| - 2] && r[|r| - 1] == 'c'
  {
    oldName[..|oldName| - 2] + "c"
  }

  /** `prog.bf` is written to `prog.c`. */
  lemma OutputNameOfBf(base: seq<char>)
    ensures OutputName(base + ".bf") == base + ".c"
  {
    var name := base + ".bf";
    assert name[..|name| - 2] == base + ".";
  }

  // ---------------------------------------------------------------------------
  // Node to statements
  // ---------------------------------------------------------------------------

  /** The commands whose node becomes a single arithmetic line. */
  const ArithmeticCommands: set<char> := {'+', '-', '>', '<'}

  /** The commands whose node repeats a fixed line `count` times. */
  const FixedCommands: set<char> := {'.', ',', '[', ']'}

  /**
   * The `+ - > <` cases of the `switch`: `+` and `-` act on the cell, `>`
   * and `<` on the index with `>` as `+` and `<` as `-`; a count of one
   * becomes `++`/`--`, any other count a compound assignment.
   */
  function Arithmetic(ins: char, count: nat): Stmt
    requires ins in ArithmeticCommands
  {
    var target := if ins == '+' || ins == '-' then Cell else Index;
    var up := ins == '+' || ins == '>';
    if count == 1 then (if up then Increment(target) else Decrement(target))
    else if up then AddTo(target, count) else SubtractFrom(target, count)
  }

  /** An arithmetic line carries out its node's whole run, whichever form it takes. */
  lemma ArithmeticSource(ins: char, count: nat)
    requires ins in ArithmeticCommands
    ensures Source(Arithmetic(ins, count)) == Repeat(ins, count)
  {
    if count == 1 {
      assert Repeat(ins, 1) == [ins];
    }
  }

  /**
   * The arithmetic line as the two `printf` formats spell it: the operator
   * doubled for a count of one, otherwise a compound assignment with the
   * count in decimal.
   */
  lemma ArithmeticText(ins: char, count: nat)
    requires ins in ArithmeticCommands
    ensures var op := if ins == '+' || ins == '>' then '+' else '-';
            var lhs := if ins == '+' || ins == '-' then "tape[index]" else "index";
            Body(Arithmetic(ins, count))
              == if count == 1 then lhs + [op, op] + ";"
                 else lhs + " " + [op] + "= " + Decimal(count) + ";"
  {
  }

  /** The pre-written `text` entry of `. , [ ]`. */
  function FixedText(ins: char): Stmt
    requires ins in FixedCommands
  {
    match ins
    case '.' => PutChar
    case ',' => GetChar
    case '[' => WhileOpen
    case ']' => BlockClose
  }

  /** `layer_off` of `. , [ ]`. */
  function LayerOff(ins: char): int
    requires ins in FixedCommands
  {
    if ins == '[' then 1 else if ins == ']' then -1 else 0
  }

  /** The tabs `write_tabs` adds on top of `layer` inside the repeat loop. */
  function Bump(off: int): int
  {
    if off >= 0 then 1 else 0
  }

  /**
   * The inner `for` loop at iteration `i`: write the line at the pending
   * indentation `tabs`, move `layer`, and compute the next line's
   * indentation from the moved layer.
   */
  function FixedLoop(stmt: Stmt, off: int, count: nat, i: nat, layer: int, tabs: int,
                     lines: seq<Line>): Emitted
    requires i <= count
    decreases count - i
  {
    if i < count then
      var layer' := layer + off;
      FixedLoop(stmt, off, count, i + 1, layer', layer' + Bump(off), lines + [Line(tabs, stmt)])
    else Emitted(lines, layer)
  }

  /**
   * The loop body for one node: the first line of a `]` node is indented at
   * `layer`, every other first line at `layer + 1`. A node whose `ins` is no
   * command (the head sentinel) writes no statement.
   */
  function EmitNode(n: Node, layer: int): Emitted
  {
    var tabs := if n.ins == ']' then layer else layer + 1;
    if n.ins in ArithmeticCommands then
      Emitted([Line(tabs, Arithmetic(n.ins, n.count))], layer)
    else if n.ins in FixedCommands then
      FixedLoop(FixedText(n.ins), LayerOff(n.ins), n.count, 0, layer, tabs, [])
    else
      Emitted([], layer)
  }

  /** `for_each_node_ref` over the list, threading `layer` through. */
  function EmitLoop(nodes: seq<Node>, layer: int): Emitted
    decreases |nodes|
  {
    if nodes == [] then Emitted([], layer)
    else
      var e := EmitNode(nodes[0], layer);
      var rest := EmitLoop(nodes[1..], e.layer);
      Emitted(e.lines + rest.lines, rest.layer)
  }

  /**
   * `write_file`: the output name and the statement lines, starting at
   * `layer` 0. Every line sits at the depth of the commands before it, one
   * deeper unless it closes a block; the decoded lines are the commands
   * the list stands for.
   */
  function WriteFile(oldName: seq<char>, head: seq<Node>): (r: Generated)
    requires |oldName| >= 2
    ensures r.fileName == OutputName(oldName)
    ensures Indented(r.lines, 0)
    ensures CommandNodes(head) ==> Decode(r.lines) == Expand(head)
  {
    EmitLoopIndented(head, 0);
    EmitLoopDecode(head, 0);
    Generated(OutputName(oldName), EmitLoop(head, 0).lines)
  }

  // ---------------------------------------------------------------------------
  // C text
  // ---------------------------------------------------------------------------

  /** Spaces per level of indentation. */
  const TAB_SIZE: nat := 4

  /** The character of a decimal digit. */
  function Digit(d: nat): char
    requires d < 10
  {
    "0123456789"[d]
  }

  /** `%lld` of a non-negative count. */
  function Decimal(n: nat): (r: seq<char>)
    ensures r != [] && forall i :: 0 <= i < |r| ==> '0' <= r[i] <= '9'
    decreases n
  {
    if n < 10 then [Digit(n)] else Decimal(n / 10) + [Digit(n % 10)]
  }

  /** Reads a string of decimal digits back as a number. */
  function ParseDecimal(s: seq<char>): nat
    requires forall i :: 0 <= i < |s| ==> '0' <= s[i] <= '9'
    decreases |s|
  {
    if s == [] then 0
    else ParseDecimal(s[..|s| - 1]) * 10 + ((s[|s| - 1] as int) - ('0' as int))
  }

  /** A printed count reads back as the same count, with no leading zero. */
  lemma {:induction false} DecimalRoundTrip(n: nat)
    ensures ParseDecimal(Decimal(n)) == n
    ensures Decimal(n)[0] == '0' ==> n == 0
    decreases n
  {
    if n >= 10 {
      DecimalRoundTrip(n / 10);
      var r := Decimal(n);
      assert r[..|r| - 1] == Decimal(n / 10);
    }
  }

  /** The text `write_file` prints for a statement: its body, then a newline. */
  function Text(s: Stmt): seq<char>
  {
    Body(s) + "\n"
  }

  /** The statement text before its newline. */
  function Body(s: Stmt): seq<char>
  {
    match s
    case Increment(Cell) => "tape[index]++;"
    case Decrement(Cell) => "tape[index]--;"
    case AddTo(Cell, n) => "tape[index] += " + Decimal(n) + ";"
    case SubtractFrom(Cell, n) => "tape[index] -= " + Decimal(n) + ";"
    case Increment(Index) => "index++;"
    case Decrement(Index) => "index--;"
    case AddTo(Index, n) => "index += " + Decimal(n) + ";"
    case SubtractFrom(Index, n) => "index -= " + Decimal(n) + ";"
    case PutChar => "putchar(tape[index]);"
    case GetChar => "tape[index] = getchar();"
    case WhileOpen => "while(tape[index]) {"
    case BlockClose => "}"
  }

  /** The number of values of a 32-bit `unsigned int`. */
  const UINT_RANGE: nat := 0x1_0000_0000

  /**
   * `TAB_SIZE` spaces per level, as `write_tabs` writes them. `layer` is an
   * `unsigned int`, so a tab count below zero wraps around, and so does the
   * product with `TAB_SIZE`.
   */
  function Spaces(tabs: int): seq<char>
  {
    seq(TAB_SIZE * (tabs % UINT_RANGE) % UINT_RANGE, _ => ' ')
  }

  /**
   * A level count in range gives `TAB_SIZE` spaces per level; a negative one
   * wraps to nearly `UINT_RANGE` spaces, one level short per step below zero.
   */
  lemma SpacesCount(tabs: int)
    requires -(UINT_RANGE / TAB_SIZE) <= tabs < UINT_RANGE / TAB_SIZE
    ensures tabs >= 0 ==> |Spaces(tabs)| == TAB_SIZE * tabs
    ensures tabs < 0 ==> |Spaces(tabs)| == UINT_RANGE + TAB_SIZE * tabs
  {
  }

  /** The lines as printed, one after another. */
  function Render(lines: seq<Line>): seq<char>
    decreases |lines|
  {
    if lines == [] then [] else Spaces(lines[0].tabs) + Text(lines[0].stmt) + Render(lines[1..])
  }

  /** No statement body holds a newline. */
  lemma BodyIsOneLine(s: Stmt)
    ensures '\n' !in Body(s)
  {
    match s
    case AddTo(t, n) =>
      CountIsOneLine(if t == Cell then "tape[index] += " else "index += ", n);
    case SubtractFrom(t, n) =>
      CountIsOneLine(if t == Cell then "tape[index] -= " else "index -= ", n);
    case _ =>
  }

  /** A compound assignment has no newline when its left part has none. */
  lemma CountIsOneLine(prefix: seq<char>, n: nat)
    requires '\n' !in prefix
    ensures '\n' !in prefix + Decimal(n) + ";"
  {
    var d := Decimal(n);
    assert '\n' !in d;
    InAppend('\n', prefix, d);
    InAppend('\n', prefix + d, ";");
  }

  /** Every statement's text is one line: it holds exactly one newline, at its end. */
  lemma TextIsOneLine(s: Stmt)
    ensures Text(s)[|Text(s)| - 1] == '\n'
    ensures multiset(Text(s))['\n'] == 1
  {
    BodyIsOneLine(s);
    CountOfSnoc(Body(s), '\n');
  }

  /** The printed text has exactly one newline per statement line. */
  lemma {:induction false} RenderLineCount(lines: seq<Line>)
    ensures multiset(Render(lines))['\n'] == |lines|
    decreases |lines|
  {
    if lines != [] {
      var l := lines[0];
      TextIsOneLine(l.stmt);
      RenderLineCount(lines[1..]);
      assert '\n' !in Spaces(l.tabs);
      assert multiset(Render(lines))
          == multiset(Spaces(l.tabs)) + multiset(Text(l.stmt)) + multiset(Render(lines[1..]));
    }
  }

  // ---------------------------------------------------------------------------
  // Reading the program back
  // ---------------------------------------------------------------------------

  /** The commands a statement carries out. */
  function Source(s: Stmt): seq<char>
  {
    match s
    case Increment(Cell) => "+"
    case Increment(Index) => ">"
    case Decrement(Cell) => "-"
    case Decrement(Index) => "<"
    case AddTo(Cell, n) => Repeat('+', n)
    case AddTo(Index, n) => Repeat('>', n)
    case SubtractFrom(Cell, n) => Repeat('-', n)
    case SubtractFrom(Index, n) => Repeat('<', n)
    case PutChar => "."
    case GetChar => ","
    case WhileOpen => "["
    case BlockClose => "]"
  }

  /** The commands a sequence of lines carries out, in order. */
  function Decode(lines: seq<Line>): seq<char>
    decreases |lines|
  {
    if lines == [] then [] else Source(lines[0].stmt) + Decode(lines[1..])
  }

  /** The indentation of a statement at nesting depth `depth`. */
  function Indentation(s: Stmt, depth: int): int
  {
    if s == BlockClose then depth else depth + 1
  }

  /**
   * Starting at depth `layer`, each line is indented for the current depth
   * and its commands move the depth for the lines after it.
   */
  predicate Indented(lines: seq<Line>, layer: int)
    decreases |lines|
  {
    lines != [] ==>
      && lines[0].tabs == Indentation(lines[0].stmt, layer)
      && Indented(lines[1..], layer + StmtDepth(lines[0].stmt))
  }

  /** How a statement moves the nesting depth. */
  function StmtDepth(s: Stmt): int
  {
    match s
    case WhileOpen => 1
    case BlockClose => -1
    case _ => 0
  }

  /** How a sequence of lines moves the nesting depth. */
  function LinesDepth(lines: seq<Line>): int
    decreases |lines|
  {
    if lines == [] then 0 else StmtDepth(lines[0].stmt) + LinesDepth(lines[1..])
  }

  /**
   * Line `j` is indented by the depth of all the commands before it,
   * starting at depth `layer`: a `}` at its pre-close depth, anything else
   * one deeper.
   */
  predicate LineIndented(lines: seq<Line>, layer: int, j: nat)
    requires j < |lines|
  {
    lines[j].tabs == Indentation(lines[j].stmt, layer + Depth(Decode(lines[..j])))
  }

  /** Every node is a command, or stands for nothing. */
  predicate CommandNodes(nodes: seq<Node>)
  {
    forall k :: 0 <= k < |nodes| ==> nodes[k].ins in Alphabet || nodes[k].count == 0
  }

  // ---------------------------------------------------------------------------
  // Lemmas
  // ---------------------------------------------------------------------------

  lemma {:induction false} DecodeAppend(a: seq<Line>, b: seq<Line>)
    ensures Decode(a + b) == Decode(a) + Decode(b)
    decreases |a|
  {
    if a == [] {
      AppendEmpty(a, b);
    } else {
      HeadTailOfAppend(a, b);
      DecodeAppend(a[1..], b);
    }
  }

  /** `count` copies of a fixed line, each indented by the depth of the copies before it. */
  function FixedLines(ins: char, count: nat, layer: int): seq<Line>
    requires ins in FixedCommands
    decreases count
  {
    if count == 0 then []
    else [Line(Indentation(FixedText(ins), layer), FixedText(ins))]
         + FixedLines(ins, count - 1, layer + LayerOff(ins))
  }

  /** A fixed line moves the depth by its `layer_off`. */
  lemma FixedDepth(ins: char)
    requires ins in FixedCommands
    ensures Source(FixedText(ins)) == [ins]
    ensures Depth([ins]) == LayerOff(ins) == StmtDepth(FixedText(ins))
  {
  }

  /** A run of a command other than a bracket leaves the depth alone. */
  lemma DepthRepeatPlain(c: char, n: nat)
    requires c !in Brackets
    ensures Depth(Repeat(c, n)) == 0
  {
    assert multiset(Repeat(c, n))['['] == 0;
    assert multiset(Repeat(c, n))[']'] == 0;
  }

  /** One more copy of a command in front moves the depth by its `layer_off`. */
  lemma DepthRepeatCons(ins: char, count: nat)
    requires ins in FixedCommands && count >= 1
    ensures Depth(Repeat(ins, count)) == LayerOff(ins) + Depth(Repeat(ins, count - 1))
  {
    assert Repeat(ins, count) == [ins] + Repeat(ins, count - 1);
    DepthAppend([ins], Repeat(ins, count - 1));
    FixedDepth(ins);
  }

  /**
   * The repeat loop writes its fixed line exactly `count - i` more times,
   * each indented by the depth of the copies before it, and `layer` ends
   * moved by the depth of those commands.
   */
  lemma {:induction false} FixedLoopSpec(ins: char, count: nat, i: nat, layer: int, lines: seq<Line>)
    requires ins in FixedCommands && i <= count
    ensures FixedLoop(FixedText(ins), LayerOff(ins), count, i, layer,
                      Indentation(FixedText(ins), layer), lines)
         == Emitted(lines + FixedLines(ins, count - i, layer), layer + Depth(Repeat(ins, count - i)))
    decreases count - i
  {
    var stmt, off := FixedText(ins), LayerOff(ins);
    if i < count {
      var line := Line(Indentation(stmt, layer), stmt);
      assert Indentation(stmt, layer + off) == layer + off + Bump(off);
      FixedLoopSpec(ins, count, i + 1, layer + off, lines + [line]);
      SnocAssoc(lines, line, FixedLines(ins, count - i - 1, layer + off));
      DepthRepeatCons(ins, count - i);
    } else {
      assert lines + [] == lines;
      assert Repeat(ins, 0) == [];
    }
  }

  /** Copies of one fixed line decode to copies of its command. */
  lemma {:induction false} DecodeFixed(ins: char, count: nat, layer: int)
    requires ins in FixedCommands
    ensures Decode(FixedLines(ins, count, layer)) == Repeat(ins, count)
    decreases count
  {
    if count > 0 {
      var lines := FixedLines(ins, count, layer);
      FixedDepth(ins);
      DecodeFixed(ins, count - 1, layer + LayerOff(ins));
      assert lines[1..] == FixedLines(ins, count - 1, layer + LayerOff(ins));
      assert Repeat(ins, count) == [ins] + Repeat(ins, count - 1);
    }
  }

  /** The fixed lines of a node are indented by the depth before each of them. */
  lemma {:induction false} FixedIndented(ins: char, count: nat, layer: int)
    requires ins in FixedCommands
    ensures Indented(FixedLines(ins, count, layer), layer)
    decreases count
  {
    if count > 0 {
      var lines := FixedLines(ins, count, layer);
      FixedIndented(ins, count - 1, layer + LayerOff(ins));
      FixedDepth(ins);
      assert lines[1..] == FixedLines(ins, count - 1, layer + LayerOff(ins));
    }
  }

  /**
   * One node: its lines are indented for the depth they start at, and the
   * layer moves by the depth of the node's commands, which is also how
   * far its lines move it.
   */
  lemma EmitNodeSpec(n: Node, layer: int)
    ensures Indented(EmitNode(n, layer).lines, layer)
    ensures EmitNode(n, layer).layer == layer + Depth(Repeat(n.ins, n.count))
    ensures EmitNode(n, layer).layer == layer + LinesDepth(EmitNode(n, layer).lines)
  {
    var e := EmitNode(n, layer);
    if n.ins in ArithmeticCommands {
      assert e.lines == [Line(layer + 1, Arithmetic(n.ins, n.count))];
      assert LinesDepth(e.lines) == StmtDepth(Arithmetic(n.ins, n.count)) + LinesDepth([]);
      DepthRepeatPlain(n.ins, n.count);
    } else if n.ins in FixedCommands {
      FixedLoopSpec(n.ins, n.count, 0, layer, []);
      assert e.lines == FixedLines(n.ins, n.count, layer);
      FixedIndented(n.ins, n.count, layer);
      DecodeFixed(n.ins, n.count, layer);
      LinesDepthIsDepth(e.lines);
    } else {
      DepthRepeatPlain(n.ins, n.count);
    }
  }

  /** The lines of a command node carry out exactly its run of commands. */
  lemma EmitNodeDecode(n: Node, layer: int)
    requires n.ins in Alphabet || n.count == 0
    ensures Decode(EmitNode(n, layer).lines) == Repeat(n.ins, n.count)
  {
    var e := EmitNode(n, layer);
    if n.ins in ArithmeticCommands {
      assert e.lines == [Line(layer + 1, Arithmetic(n.ins, n.count))];
      ArithmeticSource(n.ins, n.count);
      assert Decode(e.lines) == Repeat(n.ins, n.count) + [];
    } else if n.ins in FixedCommands {
      FixedLoopSpec(n.ins, n.count, 0, layer, []);
      assert e.lines == FixedLines(n.ins, n.count, layer);
      DecodeFixed(n.ins, n.count, layer);
    } else {
      assert Repeat(n.ins, n.count) == [];
    }
  }

  /** A statement moves the depth as its commands do. */
  lemma StmtDepthIsDepth(s: Stmt)
    ensures StmtDepth(s) == Depth(Source(s))
  {
    match s
    case AddTo(_, n) =>
      assert multiset(Source(s))['['] == 0 && multiset(Source(s))[']'] == 0;
    case SubtractFrom(_, n) =>
      assert multiset(Source(s))['['] == 0 && multiset(Source(s))[']'] == 0;
    case _ =>
  }

  /** Lines move the depth as the commands they decode to do. */
  lemma {:induction false} LinesDepthIsDepth(lines: seq<Line>)
    ensures LinesDepth(lines) == Depth(Decode(lines))
    decreases |lines|
  {
    if lines != [] {
      StmtDepthIsDepth(lines[0].stmt);
      LinesDepthIsDepth(lines[1..]);
      DepthAppend(Source(lines[0].stmt), Decode(lines[1..]));
    }
  }

  /** Indentation carries over a concatenation of lines. */
  lemma {:induction false} IndentedAppend(a: seq<Line>, b: seq<Line>, layer: int)
    requires Indented(a, layer) && Indented(b, layer + LinesDepth(a))
    ensures Indented(a + b, layer)
    decreases |a|
  {
    if a == [] {
      AppendEmpty(a, b);
    } else {
      HeadTailOfAppend(a, b);
      IndentedAppend(a[1..], b, layer + StmtDepth(a[0].stmt));
    }
  }

  /** The loop over the list, one node unfolded. */
  lemma EmitLoopCons(nodes: seq<Node>, layer: int)
    requires nodes != []
    ensures EmitLoop(nodes, layer)
         == Emitted(EmitNode(nodes[0], layer).lines + EmitLoop(nodes[1..], EmitNode(nodes[0], layer).layer).lines,
                    EmitLoop(nodes[1..], EmitNode(nodes[0], layer).layer).layer)
  {
  }

  /** Every line of the whole list is indented for the depth it starts at. */
  lemma {:induction false} EmitLoopIndented(nodes: seq<Node>, layer: int)
    ensures Indented(EmitLoop(nodes, layer).lines, layer)
    decreases |nodes|
  {
    if nodes != [] {
      var e := EmitNode(nodes[0], layer);
      EmitLoopCons(nodes, layer);
      EmitNodeSpec(nodes[0], layer);
      EmitLoopIndented(nodes[1..], e.layer);
      IndentedAppend(e.lines, EmitLoop(nodes[1..], e.layer).lines, layer);
    }
  }

  /** `layer` ends moved by the depth of the list's commands. */
  lemma {:induction false} EmitLoopLayer(nodes: seq<Node>, layer: int)
    ensures EmitLoop(nodes, layer).layer == layer + Depth(Expand(nodes))
    decreases |nodes|
  {
    if nodes == [] {
      assert Expand(nodes) == [];
    } else {
      var e := EmitNode(nodes[0], layer);
      EmitLoopCons(nodes, layer);
      EmitNodeSpec(nodes[0], layer);
      EmitLoopLayer(nodes[1..], e.layer);
      assert Expand(nodes) == Repeat(nodes[0].ins, nodes[0].count) + Expand(nodes[1..]);
      DepthAppend(Repeat(nodes[0].ins, nodes[0].count), Expand(nodes[1..]));
    }
  }

  /** A list whose commands balance leaves `layer` back at zero. */
  lemma BalancedEndsAtTop(head: seq<Node>)
    requires Balanced(Expand(head))
    ensures EmitLoop(head, 0).layer == 0
  {
    EmitLoopLayer(head, 0);
  }

  /** The lines of a list of commands carry out exactly its commands. */
  lemma {:induction false} EmitLoopDecode(nodes: seq<Node>, layer: int)
    ensures CommandNodes(nodes) ==> Decode(EmitLoop(nodes, layer).lines) == Expand(nodes)
    decreases |nodes|
  {
    if nodes == [] {
      assert Decode([]) == [];
    } else if CommandNodes(nodes) {
      var e := EmitNode(nodes[0], layer);
      EmitLoopCons(nodes, layer);
      assert nodes[0].ins in Alphabet || nodes[0].count == 0;
      EmitNodeDecode(nodes[0], layer);
      assert CommandNodes(nodes[1..]) by {
        forall k | 0 <= k < |nodes| - 1
          ensures nodes[1..][k].ins in Alphabet || nodes[1..][k].count == 0
        {
          assert nodes[1..][k] == nodes[k + 1];
        }
      }
      EmitLoopDecode(nodes[1..], e.layer);
      DecodeAppend(e.lines, EmitLoop(nodes[1..], e.layer).lines);
    }
  }

  /** Line `j` sits at `layer` moved by the lines before it. */
  lemma {:induction false} IndentedAtDepth(lines: seq<Line>, layer: int, j: nat)
    requires Indented(lines, layer) && j < |lines|
    ensures lines[j].tabs == Indentation(lines[j].stmt, layer + LinesDepth(lines[..j]))
    decreases j
  {
    if j == 0 {
      assert lines[..0] == [];
    } else {
      IndentedAtDepth(lines[1..], layer + StmtDepth(lines[0].stmt), j - 1);
      PrefixOfTail(lines, j);
      assert lines[j] == lines[1..][j - 1];
    }
  }

  /**
   * The recursive reading of indentation is the direct one: each line sits
   * at the depth of all the commands before it.
   */
  lemma IndentedAt(lines: seq<Line>, layer: int, j: nat)
    requires Indented(lines, layer) && j < |lines|
    ensures LineIndented(lines, layer, j)
  {
    IndentedAtDepth(lines, layer, j);
    LinesDepthIsDepth(lines[..j]);
  }

  /**
   * When the commands never close more blocks than are open, every
   * statement is indented at least once, so it lands inside `main`'s body.
   */
  lemma {:induction false} NestedIndentation(lines: seq<Line>, layer: int)
    requires Indented(lines, layer) && NeverBelow(Decode(lines), layer)
    ensures forall j :: 0 <= j < |lines| ==> lines[j].tabs >= 1
    decreases |lines|
  {
    if lines != [] {
      var src := Source(lines[0].stmt);
      assert Decode(lines) == src + Decode(lines[1..]);
      NeverBelowAppend(src, Decode(lines[1..]), layer);
      StmtDepthIsDepth(lines[0].stmt);
      NestedIndentation(lines[1..], layer + Depth(src));
      assert src[..0] == [] && src[..|src|] == src;
      forall j | 0 < j < |lines| ensures lines[j].tabs >= 1 {
        assert lines[j] == lines[1..][j - 1];
      }
    }
  }
}
