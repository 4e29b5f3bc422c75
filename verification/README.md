# brainf: command filters, bracket validation, run-length coalescing and C generation

A Dafny model of the text-processing core of the `brainf` drafts:

- **bf-to-lang** is a Brainfuck-to-C translator. `parse_file` keeps the eight command characters of a source file and adds a NUL. `optimize` coalesces equal neighbouring commands into `(ins, count)` nodes behind a sentinel node, and checks the brackets on the way. `write_file` turns the node list into C statement lines, indented by loop depth, in a file named after the source.
- **bf-interpreter** contributes the bracket validator `valid_line` and the string-length helper `get_line_length`.
- **brainf-to-lang** holds two earlier drafts:
  - an eight-symbol `parse_file` that returns the unfiltered length, and an `optimizer` that starts with a placeholder node;
  - a six-symbol `parse_file` with no loop support.

Every loop of the C code is a recursive Dafny function whose parameters are the loop's variables. The linked node list is an immutable `seq<Node>`, and a `THROW_IF` exit is a `None` or `Err` result. Each operation is tied to an independent reference definition by a lemma:

- `Keep` is the reference filter;
- `Runs` is the reference run-length encoding, and `Expand` its inverse;
- `Depth`, `NeverBelow` and `Balanced` define nesting depth and bracket balance;
- `Decode` reads the commands back from generated lines, and `Indented` states where each line sits.

Files:

- `commands.dfy`: the alphabets, the filter, and depth and balance.
- `run_length.dfy`: nodes, `add_node`, and the reference encoding.
- `bf_interpreter.dfy`: `valid_line`, its corrected form, and `get_line_length`.
- `bf_to_lang.dfy`: the translator's `parse_file` and `optimize`.
- `code_gen.dfy`: `write_file`.
- `brainf_to_lang.dfy`: the second draft.
- `brainf_to_c.dfy`: the first draft.
- `translator.dfy`: the translator's `main` pipeline.
- `sequences.dfy` and `wrappers.dfy`: generic helpers.

The doc comment of `valid_line` (bf-interpreter/bf.c:113) says the validator reports the first invalid bracket, which for unmatched opens is the outermost unmatched `[`. The code reports the last `[` of the line. `BfInterpreter.ValidLine` follows the code. `BfInterpreter.ValidLineOutermost` is the documented behaviour; see Findings.

## Model

| member | source | states |
|---|---|---|
| Commands.Keep | bf-to-lang/bf-to-c.c:97-111 | The filtered string is no longer than the file, and every character it holds is a command. |
| Commands.FilterLoop | bf-to-lang/bf-to-c.c:97-111 | The `switch` loop appends exactly the commands of the bytes it reads to what it has kept so far. |
| Commands.KeepIsSubsequence | bf-to-lang/bf-to-c.c:97-111 | The filter preserves order: its result is obtained from the file by deleting characters. |
| Commands.KeepCounts | bf-to-lang/bf-to-c.c:100-110 | Every occurrence of every command character is kept. |
| Commands.KeepUnique | bf-to-lang/bf-to-c.c:97-111 | Any order-preserving selection of commands that keeps all of them is the filter's result, so order and counts determine it. |
| Commands.KeepIdentity | bf-to-lang/bf-to-c.c:100-110 | Filtering leaves a string unchanged exactly when the string holds only commands. |
| Commands.KeepAppend | bf-to-lang/bf-to-c.c:97-111 | The filter works character by character: filtering a concatenation concatenates the filtered parts. |
| Commands.KeepNested | brainf-to-lang/brainf-to-c.c:80-89 | Filtering by one alphabet and then another equals filtering by their intersection. |
| Commands.DepthStep | bf-interpreter/bf.c:120-125 | Reading one character moves the depth by +1 for `[`, -1 for `]` and 0 otherwise. |
| Commands.NeverBelowBracketsOnly | bf-interpreter/bf.c:120-125 | Removing every non-bracket character keeps the depth, and keeps whether any prefix goes below zero. |
| Commands.BalancedBracketsOnly | bf-interpreter/bf.c:120-125 | A line is balanced exactly when its bracket skeleton is. |
| RunLength.LeadRun | bf-to-lang/bf-to-c.c:154-159 | The first run is non-empty, made of one character, and followed by a different character or the end. |
| RunLength.RunsEncode | bf-to-lang/bf-to-c.c:154-159 | The reference encoding has maximal runs and expands back to its input. |
| RunLength.RunsUnique | bf-to-lang/bf-to-c.c:141-160 | Any list of maximal runs that expands to a string is that string's reference encoding. |
| RunLength.ExpandLength | bf-to-lang/bf-to-c.c:141-160 | A list expands to as many commands as its counts add up to. |
| RunLength.AddNode | bf-to-lang/bf-to-c.c:309-328 | `add_node` appends exactly one node `(ins, count)` and leaves the earlier nodes untouched. |
| RunLength.AddNodeExpand | brainf-to-lang/bf-to-c.c:146-159 | The appended node adds its run to the end of the list's command string. |
| RunLength.CloseRun | bf-to-lang/bf-to-c.c:154-158 | Closing a pending run with `add_node` extends a maximal encoding of the commands before the run to one of the commands up to its end. |
| BfToLang.ParseFile | bf-to-lang/bf-to-c.c:92-116 | The buffer is the file's commands in order, then a NUL. The returned length is the kept count plus one, and no NUL comes before the terminator. |
| BfToLang.Optimize | bf-to-lang/bf-to-c.c:118-165 | As written: fails exactly when the first command is a bracket. Otherwise the list is the sentinel `('x', 0)` and then the reference encoding. Those runs are maximal, expand to the command string, and their counts add up to `length - 1`. |
| BfToLang.CoalesceSpec | bf-to-lang/bf-to-c.c:141-160 | From any loop state that encodes the commands so far, the loop's list is the sentinel then the reference encoding of the whole command string. The NUL flushes the last run. |
| BfToLang.FirstCommandVerdict | bf-to-lang/bf-to-c.c:131-152 | The as-written loop fails exactly when `input[0]` is `[` or `]`, whatever follows. |
| BfToLang.CurrentCommandVerdict | bf-to-lang/bf-to-c.c:141-162 | With the `switch` reading `input[i]`, the loop fails exactly when the command string is unbalanced. |
| BfToLang.OptimizeChecked | bf-to-lang/bf-to-c.c:118-165 | Corrected `optimize`: fails exactly when the brackets do not balance; otherwise builds the same list as `Optimize`. |
| BfToLang.StrayCloseAccepted | bf-to-lang/bf-to-c.c:143-152 | `+]` is unbalanced, yet the as-written `optimize` accepts it. |
| BfToLang.BalancedLoopRejected | bf-to-lang/bf-to-c.c:131-139 | `[]` is balanced, yet the as-written `optimize` rejects it. |
| BfInterpreter.ValidLine | bf-interpreter/bf.c:114-132 | Returns -1 exactly for balanced lines, and otherwise the index of a bracket. If some prefix goes below depth 0, the result is the first `]` where that happens. Otherwise the result is the last `[` of the line. |
| BfInterpreter.ValidScanSpec | bf-interpreter/bf.c:118-131 | From any position, with `count` the depth so far and `error_point` the last `[` so far, the loop returns the verdict above. |
| BfInterpreter.OnlyBracketsMatter | bf-interpreter/bf.c:120-125 | Non-bracket characters never decide whether the result is -1. |
| BfInterpreter.LengthScan | bf-interpreter/bf.c:136-139 | The scan stops one past the first NUL at or after its start. |
| BfInterpreter.GetLineLength | bf-interpreter/bf.c:134-142 | Returns the index of the first NUL plus one. |
| BfInterpreter.GetLineLengthOfString | bf-interpreter/bf.c:136-139 | A string followed by its terminator measures one more than the string, whatever comes after. |
| BfInterpreter.ValidLineOutermost | bf-interpreter/bf.c:113-132 | Corrected validator: same -1 verdict and same `]` report. For unmatched `[`s it returns a `[` that is never closed, and every earlier `[` is closed. |
| BfInterpreter.OutermostScanSpec | bf-interpreter/bf.c:118-131 | The corrected loop, recording `error_point` only at depth 0, yields the corrected verdict from any consistent state. |
| BfInterpreter.LastOpenIsNotTheUnmatchedOne | bf-interpreter/bf.c:120-123 | On `[[]`, `valid_line` returns 1, a `[` that is matched. The unmatched `[` is at 0, which the corrected validator returns. |
| CodeGen.OutputName | bf-to-lang/bf-to-c.c:178-185 | The output name is the source name minus its last two characters, then `c`. |
| CodeGen.OutputNameOfBf | bf-to-lang/bf-to-c.c:178-185 | `prog.bf` becomes `prog.c` for every base name. |
| CodeGen.ArithmeticSource | bf-to-lang/bf-to-c.c:237-252 | An arithmetic line carries out its node's whole run, in both the `++` and the `+=` forms. |
| CodeGen.ArithmeticText | bf-to-lang/bf-to-c.c:237-252 | An arithmetic line reads as its `printf` format prints it. `+`/`-` act on `tape[index]`, `>`/`<` act on `index` as `+`/`-`, and a count other than one is printed in decimal. |
| CodeGen.SpacesCount | bf-to-lang/bf-to-c.c:18-20 | `write_tabs` writes `TAB_SIZE` spaces per level for a level count in range. Because `layer` is unsigned, a level count below zero wraps to nearly 2^32 spaces. |
| CodeGen.DecimalRoundTrip | bf-to-lang/bf-to-c.c:242 | A printed count reads back as the same number and has no leading zero. |
| CodeGen.TextIsOneLine | bf-to-lang/bf-to-c.c:195-200 | Every statement's text holds exactly one newline, at its end. |
| CodeGen.RenderLineCount | bf-to-lang/bf-to-c.c:231-279 | The printed statements hold one newline per statement line. |
| CodeGen.FixedDepth | bf-to-lang/bf-to-c.c:253-268 | Each fixed line carries out its command, and `layer_off` is that command's depth change. |
| CodeGen.FixedLoopSpec | bf-to-lang/bf-to-c.c:271-279 | The repeat loop writes its fixed line once per remaining count, each at the depth of the copies before it. `layer` ends moved by the depth of those commands. |
| CodeGen.DecodeFixed | bf-to-lang/bf-to-c.c:271-279 | The `count` copies of a fixed line carry out `count` copies of its command. |
| CodeGen.EmitNodeSpec | bf-to-lang/bf-to-c.c:225-279 | A node's lines are indented for the depth they start at. `layer` moves by the depth of the node's commands. |
| CodeGen.EmitNodeDecode | bf-to-lang/bf-to-c.c:235-279 | The lines of a command node carry out exactly its run; the sentinel writes none. |
| CodeGen.EmitLoopIndented | bf-to-lang/bf-to-c.c:223-280 | Every line is indented for the depth before it: a `}` at that depth, anything else one deeper. |
| CodeGen.EmitLoopLayer | bf-to-lang/bf-to-c.c:223-280 | `layer` ends moved by the depth of the list's commands. |
| CodeGen.BalancedEndsAtTop | bf-to-lang/bf-to-c.c:192-280 | A list whose commands balance brings `layer` back to 0. |
| CodeGen.EmitLoopDecode | bf-to-lang/bf-to-c.c:223-280 | For a list of command nodes, the generated lines carry out exactly the commands the list stands for. |
| CodeGen.IndentedAt | bf-to-lang/bf-to-c.c:231-233 | Line `j` is indented by the depth of all commands on the lines before it. |
| CodeGen.NestedIndentation | bf-to-lang/bf-to-c.c:231-233 | If the commands never go below depth 0, every statement sits at least one level inside `main`. |
| CodeGen.WriteFile | bf-to-lang/bf-to-c.c:167-294 | The output name is derived from the source name and every line's tab count is its depth. For command nodes, the lines carry out exactly the list's commands. |
| BrainfToLang.ParseFile | brainf-to-lang/bf-to-c.c:80-105 | The buffer is the commands among the first `length` bytes, in order, then a NUL. The function returns `length` itself, not the kept count. |
| BrainfToLang.SameFilterAsLaterDraft | brainf-to-lang/bf-to-c.c:80-105 | On a whole file this draft keeps the same commands as the later `parse_file`; only the returned length differs. |
| BrainfToLang.Optimizer | brainf-to-lang/bf-to-c.c:107-126 | As written: the appended nodes are the placeholder `('_', 0)` when the input starts with another character, then every maximal run except the last. |
| BrainfToLang.ScanningLoop | brainf-to-lang/bf-to-c.c:114-125 | From index 1 on, the loop keeps the placeholder and maximal runs before the pending run, with `prev_ins` and `prev_count` describing that pending run. |
| BrainfToLang.OptimizerLosesLastRun | brainf-to-lang/bf-to-c.c:114-126 | As written, the list expands to the input with its final maximal run removed. The nodes after the placeholder are maximal runs. |
| BrainfToLang.DoublePlusLosesItsRun | brainf-to-lang/bf-to-c.c:114-126 | `++` yields only the placeholder; flushing after the loop yields `('+', 2)` too. |
| BrainfToLang.OptimizerFlushed | brainf-to-lang/bf-to-c.c:107-126 | Corrected `optimizer`: the placeholder, then the full reference encoding. It expands back to the input, and its runs after the placeholder are maximal. |
| BrainfToLang.FlushedMatchesLaterDraft | brainf-to-lang/bf-to-c.c:107-126 | Once flushed, this draft's nodes after the placeholder equal the later draft's nodes after its sentinel. |
| BrainfToC.ParseFile | brainf-to-lang/brainf-to-c.c:69-94 | The buffer is the six non-bracket commands among the first `len` bytes, in order, then a NUL. The function returns `len`. No kept character is a bracket or a NUL. |
| BrainfToC.BracketsOnlyDifference | brainf-to-lang/brainf-to-c.c:80-89 | The six-symbol filter keeps what the eight-symbol filter keeps, minus `[` and `]`. |
| Translator.Translate | bf-to-lang/bf-to-c.c:46-83 | `main`, with the corrected bracket check of `optimize`: an empty file or an unbalanced file is refused with the matching error. Otherwise the output file is named from the source. Its lines carry out exactly the file's commands, each with the tab count of its depth and at least one level inside `main`. |
| Translator.StrayCloseWrapsIndentation | bf-to-lang/bf-to-c.c:143-152 | The as-written bracket check accepts the unbalanced `+]]`. `write_file` (lines 232 and 272-277) then writes its second `}` at level -1, which prints 2^32 - 4 spaces. |
| Translator.CheckersAgree | bf-interpreter/bf.c:114-132 | The translator refuses a non-empty file for its brackets exactly when `valid_line`, as written or corrected, reports a position. |
| Translator.ParsedLengthIsLineLength | bf-interpreter/bf.c:134-142 | The length `parse_file` returns is what `get_line_length` measures on its buffer. |

## Left out

- `main` of every draft, argument checks, `file_exists`/`valid_file`, and all file I/O (`fopen`, `fseek`, `ftell`, `fgetc`, `fread`, `fprintf`, `fclose`). The file contents and the source name are parameters instead.
- The interpreter's `run_prompt`, `run_file`, `show_error` and the debug `printf`s are user-facing plumbing. `run_line` and the second draft's `write_file` have empty bodies. The first draft's `optimizer` loop has an empty body.
- `malloc`, `free` and `free_list`: the node list is an immutable sequence.
- The fixed header and footer `write_file` prints around the statements (bf-to-lang/bf-to-c.c:209-221, 282-286). The model covers the statement lines only.
- CodeGen.WriteFile: the head sentinel is not `]`, so `write_file` prints one level of spaces for it (bf-to-lang/bf-to-c.c:233) and then no statement. Those spaces follow the `// START` line, which already ends in its newline (line 221). In the real file the first statement therefore sits one level deeper than its `tabs` (8 spaces at depth 0). When the list holds no statement, the `// END` line gets the extra level instead. The model gives each line its `tabs` and does not model those sentinel spaces.
- CodeGen.Spaces: the model writes the full wrapped count of spaces. In C, the loop counter of `write_tabs` is a signed `int` (bf-to-lang/bf-to-c.c:20), which overflows (undefined behaviour) before it reaches a wrapped count above 2^31. Depth is kept as an `int` and wrapped only when spaces are printed. Only the corrected `Translator.Translate` guarantees balanced input. The as-written `optimize` passes a stray `]` to `write_file` (`Translator.StrayCloseWrapsIndentation`), so this overflow is reachable through the as-written translator.
- BfToLang.ParseFile: a 0xFF byte reads back as `EOF` through the signed `char` at bf-to-lang/bf-to-c.c:97 and stops the read early. The model requires the file not to hold one.
- BrainfToLang.ParseFile: writing the NUL overruns the `length`-byte buffer when every byte is a command (brainf-to-lang/bf-to-c.c:51, 103). The model requires at least one byte to be dropped.
- BrainfToC.ParseFile: the same overrun (brainf-to-lang/brainf-to-c.c:71, 91) is excluded the same way. A short `fread` that leaves the previous byte in `tmp` is not modelled; the file is taken to hold `len` bytes.
- BrainfToLang.Optimizer: its `main` passes the unfiltered length, so the optimizer reads past the NUL into uninitialised memory, and the list head is left uninitialised (brainf-to-lang/bf-to-c.c:57, 59). The model takes the buffer and the length as parameters and covers only the nodes appended after the head.
- BfInterpreter.GetLineLength: the fallback return after a signed overflow (bf-interpreter/bf.c:141) is not modelled; the line is required to hold a NUL.
- Counts and indices are unbounded integers. The `long long` counters of the drafts and the `int` loop index of the second draft's `optimizer` cannot overflow in the model.

## Findings

| source | as written | input that shows it | evidently intended | confidence | as-written member | corrected member |
|---|---|---|---|---|---|---|
| bf-to-lang/bf-to-c.c:144 | The bracket `switch` inside the loop reads `input[0]` on every iteration, so `optimize` fails exactly when the first command is a bracket. | `+]` is accepted; `[]` is rejected. `+]]` is accepted, and `write_file` then prints 2^32 - 4 spaces before its second `}`. | Switch on `input[i]`, so that only unbalanced programs are refused. | not executed | BfToLang.Optimize, BfToLang.StrayCloseAccepted, BfToLang.BalancedLoopRejected, Translator.StrayCloseWrapsIndentation | BfToLang.OptimizeChecked |
| bf-interpreter/bf.c:122 | `error_point` is overwritten at every `[`, so for unmatched opens the result is the last `[`, which may be matched. | `[[]` (also `[[.]`) returns 1; the `[` at 1 is closed, the one at 0 is not. | The first invalid bracket, as the comment at line 113 says: the outermost unmatched `[`. | not executed | BfInterpreter.ValidLine, BfInterpreter.LastOpenIsNotTheUnmatchedOne | BfInterpreter.ValidLineOutermost |
| brainf-to-lang/bf-to-c.c:114-126 | No node is appended for the run still pending when the loop ends. | `++` with length 2 yields only the placeholder node. | Append `(prev_ins, prev_count)` after the loop, as the later draft does by way of the NUL. | not executed | BrainfToLang.Optimizer, BrainfToLang.OptimizerLosesLastRun, BrainfToLang.DoublePlusLosesItsRun | BrainfToLang.OptimizerFlushed |
