# budivelnyk compiler core in Dafny

This project models the compiler core of budivelnyk, a compiler for BF (the
eight-symbol tape language). The core has four parts.

- **The intermediate representation (IR) and its parser.** BF text becomes a tree of `Add`, `Move`, `Output`, `Input` and
  `Loop` nodes. An unmatched `]` and an unterminated `[` are the two parse errors.
- **The merge optimization.** Every maximal run of nodes of one exact type is replaced by one node carrying the run's sum. A
  run of loops keeps only its first loop, whose body is optimized in turn.
- **The machine-code backend.** It selects x86-64 instructions straight to bytes. It encodes a loop's body first, and the
  body's length K sets the two short-jump displacements `K+2` and `0x100-K-7`.
- **Three text-assembly backends.** These are x86-64 Intel syntax, x86-64 AT&T syntax and 32-bit x86 AT&T syntax. Each one
  emits a prologue, the lowered body and an epilogue. Every loop gets the label `parent_label + "_" + index`, where the
  index counts the loops among its siblings.

The machine-code backend and the 32-bit backend take a second node set (`Ast`). It has `Add`, `Subtract`, `Forward`,
`Back`, `Output`, `Input` and `Loop`, and matches the `case` patterns of those two files. The first node set (`Intermediate`)
has signed `Add` and `Move` and is used by the parser, the optimizer and the two x86-64 text backends. The two node sets are
not related to each other.

Files and modules:

- `wrappers.dfy`: `Option` and `Result`.
- `seq_util.dfy`: flattening, counting, replication and distinctness of sequences.
- `decimal.dfy`: Python's `str` of an integer, with its inverse.
- `intermediate.dfy`:
  - the first node set;
  - the parser, as a function over the unread text and as a method with an index cursor;
  - the optimizer, as a function over maximal runs and as a method looping over the runs;
  - `bf_to_intermediate`.
- `intermediate_parsing.dfy`: what the parser promises, namely the unit mapping, bracket nesting, exactly when each error
  occurs, and the round trips with printing.
- `intermediate_merging.dfy`: what the optimizer promises, namely its shape, idempotence and the runs it merges.
- `ast.dfy`: the second node set. `effects.dfy`: what an arithmetic instruction does.
- `hex.dfy`: the byte helper `b`: opcode bytes followed by the operand in little-endian form.
- `jit_x86_64.dfy`, `jit_x86_64_laws.dfy` and `jit_x86_64_jumps.dfy`: the machine-code backend, its layout and
  instruction-selection laws, and where its loop jumps land.
- `lowering.dfy`: what the text backends share. This is the hierarchical label scheme, the lines of a loop, and how to read
  a line's label definition, jump target and operand.
- `x86_64_intel.dfy`, `x86_64_att.dfy` and `x86_32_att.dfy`: the three text backends.

Each text backend has two parts.

- **The generator.** `GenerateBody` is a method with the source's running `loop_id` counter. It is proved equal to the
  recursive function `BodyLines`.
- **The label theorem.** `LabelsUnique` proves that every label of the listing is defined once and that every `je`/`jmp`
  target is one of those labels. The proof maps loops to their paths in the loop tree (`Lowering.PathLabel`), and decimal
  numerals are injective.

## Model

| member | source | states |
|---|---|---|
| Intermediate.ParseSequence | src/budivelnyk/intermediate.py:88-108 | The cursor-based parser fails exactly when the function over the unread text fails, with the same error. On success it returns the same nodes and stops at the same place. |
| IntermediateParsing.ParseSingleCharacter | src/budivelnyk/intermediate.py:89-96 | `+ - > < . ,` parse to `Add(1)`, `Add(-1)`, `Move(1)`, `Move(-1)`, `Output(1)`, `Input(1)`, and every other non-bracket character parses to nothing. |
| IntermediateParsing.CommentsIgnored | src/budivelnyk/intermediate.py:89-108 | Removing the comment characters from a program does not change its parse: a program that parses gives the same IR, and one that fails gives the same error. |
| IntermediateParsing.ParseBracketed | src/budivelnyk/intermediate.py:97-102 | `[` + s + `]` parses to exactly one `Loop` whose body is the parse of s. |
| IntermediateParsing.ParseConcat | src/budivelnyk/intermediate.py:88-99 | Two programs that parse, put one after the other, parse to the concatenation of their IRs. |
| IntermediateParsing.ParseFailsExactly | src/budivelnyk/intermediate.py:100-108 | A program parses exactly when its brackets balance. It fails with "unexpected closing bracket" exactly when some prefix has more `]` than `[`. It fails with "closing bracket expected" exactly when no prefix does but a `[` stays open. |
| IntermediateParsing.ParseRestIsSuffix | src/budivelnyk/intermediate.py:97-102 | A nested parse only consumes text: what it leaves unread is a suffix of its input. |
| IntermediateParsing.ParsePrintRoundTrip | src/budivelnyk/intermediate.py:89-102 | Printing unit-form IR as BF text and parsing it back gives the IR. |
| IntermediateParsing.PrintParseRoundTrip | src/budivelnyk/intermediate.py:89-108 | The IR a program parses to, printed back, is the program with its comments removed. |
| IntermediateParsing.PlusMinus | src/budivelnyk/intermediate.py:91-92 | `+-` parses to `[Add(1), Add(-1)]`. |
| IntermediateParsing.TwoEmptyLoops | src/budivelnyk/intermediate.py:97-102 | `[][]` parses to two empty loops. |
| IntermediateParsing.LoneClosingBracket | src/budivelnyk/intermediate.py:100-104 | `]` alone fails with "unexpected closing bracket". |
| IntermediateParsing.UnterminatedLoop | src/budivelnyk/intermediate.py:106-108 | `[+` fails with "closing bracket expected". |
| Intermediate.RunLengthIsRun | src/budivelnyk/intermediate.py:60-61 | The run `groupby` takes is nonempty and uniform in type, and it is maximal: it ends at the end of the input or at a node of another type. |
| Intermediate.SameCommandSequenceOptimization | src/budivelnyk/intermediate.py:58-73 | The loop over runs that appends one node per run computes `MergeRuns` of its input. |
| IntermediateMerging.UniformAdditiveRun | src/budivelnyk/intermediate.py:62-66 | A run of additive nodes of one type becomes a single node of that type carrying the sum of the run's arguments. |
| IntermediateMerging.UniformLoopRun | src/budivelnyk/intermediate.py:67-70 | A run of loops becomes only its first loop, with its body optimized. |
| IntermediateMerging.MergeRunsSplit | src/budivelnyk/intermediate.py:58-73 | Optimizing two sequences whose boundary separates different types is optimizing each one and concatenating the results. |
| IntermediateMerging.MergeRunsShape | src/budivelnyk/intermediate.py:58-73 | The output is empty exactly when the input is, is never longer than the input, starts with a node of the input's first type, and has no two adjacent nodes of one type at any depth. |
| IntermediateMerging.MergedIsFixpoint | src/budivelnyk/intermediate.py:58-73 | IR with no two adjacent nodes of one type at any depth is left as it is. |
| IntermediateMerging.MergeRunsIdempotent | src/budivelnyk/intermediate.py:58-73 | Optimizing twice is optimizing once. |
| IntermediateMerging.CancellingAddsKeepZero | src/budivelnyk/intermediate.py:63-66 | `+-` merges to `Add(0)`: a zero sum is kept. |
| IntermediateMerging.ThreeUpTwoDown | src/budivelnyk/intermediate.py:63-66 | `+++--` merges to `Add(1)`. |
| IntermediateMerging.SecondLoopDropped | src/budivelnyk/intermediate.py:67-70 | `[][]` merges to a single `Loop([])`. |
| IntermediateMerging.AddAndMoveDoNotMix | src/budivelnyk/intermediate.py:60 | `+>+` keeps its three nodes: runs are split by exact type. |
| Intermediate.BfToIntermediate | src/budivelnyk/intermediate.py:75-85 | The result fails exactly when the parse does, with its error. Otherwise it is the parse with the passes applied in list order, where both no list and an empty list mean the default merge pass. |
| Hex.B | src/budivelnyk/targets/jit/x86_64.py:9 | The helper `b` returns the opcode bytes followed by the operand in `width` bytes whose little-endian value is the operand. |
| Hex.LittleEndianOfValue | src/budivelnyk/targets/jit/x86_64.py:9 | Reading bytes as a little-endian value and writing that value back gives the same bytes. |
| Hex.Signed | src/budivelnyk/targets/jit/x86_64.py:64 | A byte read as a signed displacement is in -128..127, agrees with the byte modulo 256, and equals it exactly when the byte is below 128. |
| JitX86_64.Encode | src/budivelnyk/targets/jit/x86_64.py:25-76 | The encoding of a node sequence is as long as the instruction table says, which is the length the loop displacements are computed from. |
| JitX86_64.OutputLength | src/budivelnyk/targets/jit/x86_64.py:44-52 | `Output(n)` encodes to 6 + 3(2n-1) bytes for n >= 1, and to 6 bytes otherwise. |
| JitX86_64.InputLength | src/budivelnyk/targets/jit/x86_64.py:53-62 | `Input(n)` encodes to 11 + 3n bytes for n >= 1, and to 11 bytes otherwise. |
| JitX86_64.LoopLength | src/budivelnyk/targets/jit/x86_64.py:65-76 | A loop is K + 7 bytes, where K is the length of its body. |
| JitX86_64Laws.EncodeConcat | src/budivelnyk/targets/jit/x86_64.py:25-26 | The body encoding of a sequence is the in-order concatenation of the encodings of its parts. |
| JitX86_64Laws.GenerateLayout | src/budivelnyk/targets/jit/x86_64.py:12-15 | The program is the prologue bytes, then the body bytes, then `41 5D 41 5C C3`. |
| JitX86_64Laws.PrologueLayout | src/budivelnyk/targets/jit/x86_64.py:18-22 | The prologue is 24 bytes: `push r12`, `push r13`, then `49 BC` and `49 BD`, each followed by an 8-byte little-endian callback address. |
| JitX86_64Laws.CellArithmeticMeaning | src/budivelnyk/targets/jit/x86_64.py:28-35 | The bytes for `Add(n)`/`Subtract(n)`, read as x86-64 does, add n / subtract n to the cell, for every operand `b` accepts. |
| JitX86_64Laws.PointerArithmeticMeaning | src/budivelnyk/targets/jit/x86_64.py:36-43 | The bytes for `Forward(n)`/`Back(n)` move the pointer by exactly +n / -n if and only if n < 128, because the 8-bit immediate is sign-extended. |
| JitX86_64Laws.OutputShape | src/budivelnyk/targets/jit/x86_64.py:44-52 | For n >= 1, `Output(n)` is push, load, then n `call r12` alternating with n-1 `mov rdi, rax`, then pop: 2n + 2 chunks. |
| JitX86_64Laws.OutputNothing | src/budivelnyk/targets/jit/x86_64.py:47-51 | For n < 1, `Output(n)` is push, load and pop, with no call. |
| JitX86_64Laws.InputShape | src/budivelnyk/targets/jit/x86_64.py:53-62 | `Input(n)` is push, then max(n, 0) `call r13`, then pop, `xor edx, edx`, `test eax, eax`, `cmovs eax, edx` and the store. |
| JitX86_64Laws.InputStoresClamped | src/budivelnyk/targets/jit/x86_64.py:58-62 | Run on a 32-bit read result v, the tail of `Input(n)` stores 0 when v is negative and v mod 256 otherwise. |
| JitX86_64Jumps.LoopBytes | src/budivelnyk/targets/jit/x86_64.py:65-76 | A loop with a K-byte body is `80 3F 00`, `74 (K+2)`, the body, `EB (0x100-K-7)`. |
| JitX86_64Jumps.OneLoopLands | src/budivelnyk/targets/jit/x86_64.py:67-71 | Wherever a loop with a body of at most 121 bytes is placed, `je` lands just past its `jmp` and `jmp` lands on its `cmp`. |
| JitX86_64Jumps.LoopsLand | src/budivelnyk/targets/jit/x86_64.py:63-76 | In any code that contains the encoding of a sequence, every loop at every depth has both jumps landing right, provided every loop body is at most 121 bytes. |
| JitX86_64Jumps.GeneratedLoopsLand | src/budivelnyk/targets/jit/x86_64.py:63-76 | In the whole generated program, with its body at offset 24, every loop's jumps land right. |
| JitX86_64Jumps.ShortJumpRange | src/budivelnyk/targets/jit/x86_64.py:64-71 | The bound is tight: both jumps of a loop land right if and only if its body is at most 121 bytes. |
| Decimal.NatToString | src/budivelnyk/x86_64_intel.py:58 | A loop index is written as a nonempty run of digits whose value is the index. |
| Decimal.IntToStringRoundTrip | src/budivelnyk/targets/x86_32_att.py:29 | The decimal text of an integer operand reads back as that integer. |
| Decimal.NatToStringInjective | src/budivelnyk/x86_64_intel.py:58 | Different loop indices get different decimal text. |
| Lowering.PathLabelSnoc | src/budivelnyk/x86_64_intel.py:58 | The label of a loop is its parent's label, `_`, and its sibling index. |
| Lowering.PathLabelInjective | src/budivelnyk/x86_64_intel.py:58 | Different loop paths give different labels. |
| Lowering.DefNameInjective | src/budivelnyk/x86_64_intel.py:58-64 | `start<L>` and `end<L>` names of different loops, or of different kinds, are different. |
| Lowering.DefsDistinct | src/budivelnyk/x86_64_intel.py:20-65 | No loop of the tree is defined twice when each loop's index counts only its earlier siblings. |
| Lowering.JumpsAreDefs | src/budivelnyk/x86_64_intel.py:57-64 | Every jump of the tree targets one of the tree's own label definitions. |
| Lowering.LabelScheme | src/budivelnyk/x86_64_intel.py:20-65 | With an entry label that starts with neither `s` nor `e`, every label is defined once and every jump target is defined exactly once. |
| Lowering.LoopLinesThen | src/budivelnyk/x86_64_intel.py:57-64 | The lines of a loop define `start<L>`, the body's labels and `end<L>`, in that order, and jump to `end<L>`, the body's targets and `start<L>`, in that order. |
| Lowering.ListingLabels | src/budivelnyk/x86_64_intel.py:6-9 | A listing whose prologue defines only `run`, whose epilogue defines nothing, and whose body follows the label scheme defines each label once and every jump target exactly once. |
| Lowering.SignedOperandOf | src/budivelnyk/targets/x86_32_att.py:29 | An instruction written with a decimal operand reads back with that operand. |
| X86_64Intel.GenerateBody | src/budivelnyk/x86_64_intel.py:20-65 | The generator loop, with its running `loop_id`, produces `BodyLines` of its input under the parent label. |
| X86_64Intel.GenerateX86_64Intel | src/budivelnyk/x86_64_intel.py:6-71 | The listing is the prologue ending in `run:`, the body lines, and the epilogue starting with `ret`. |
| X86_64Intel.AddLineMeaning | src/budivelnyk/x86_64_intel.py:24-32 | The one line for `Add(n)` adds exactly n to the cell, for every n, including n = 0 as `sub ..., 0`. |
| X86_64Intel.MoveLineMeaning | src/budivelnyk/x86_64_intel.py:34-42 | The one line for `Move(n)` moves the pointer by exactly n, for every n. |
| X86_64Intel.OutputShape | src/budivelnyk/x86_64_intel.py:44-49 | For n >= 1, `Output(n)` is push, movzx, n `call putchar` alternating with n-1 `mov rdi, rax`, then pop: 2n + 2 lines. For n < 1 it is push, movzx and pop. |
| X86_64Intel.InputShape | src/budivelnyk/x86_64_intel.py:51-55 | `Input(n)` is push, max(n, 0) `call getchar`, pop, then the store of `al`, with no clamping. |
| X86_64Intel.NodeLinesAreInstructions | src/budivelnyk/x86_64_intel.py:24-55 | Every line a non-loop node yields is an indented instruction that is neither a label nor a jump. |
| X86_64Intel.BodyLabels | src/budivelnyk/x86_64_intel.py:20-65 | The body's label definitions and jump targets are exactly those of the loop tree's label scheme, in order. |
| X86_64Intel.LabelsUnique | src/budivelnyk/x86_64_intel.py:6-65 | In the whole listing every label is defined once and every `je`/`jmp` target is defined exactly once. |
| X86_64Att.GenerateBody | src/budivelnyk/x86_64_att.py:19-64 | The generator loop, with its running `loop_id`, produces `BodyLines` of its input under the parent label. |
| X86_64Att.GenerateX86_64Att | src/budivelnyk/x86_64_att.py:6-70 | The listing is the prologue ending in `run:`, the body lines, and the epilogue starting with `ret`. |
| X86_64Att.AddLineMeaning | src/budivelnyk/x86_64_att.py:23-31 | The one line for `Add(n)` adds exactly n to the cell, for every n, including n = 0 as `subb $0`. |
| X86_64Att.MoveLineMeaning | src/budivelnyk/x86_64_att.py:33-41 | The one line for `Move(n)` moves the pointer by exactly n, for every n. |
| X86_64Att.OutputShape | src/budivelnyk/x86_64_att.py:43-48 | For n >= 1, `Output(n)` is `pushq`, `movzbq`, n `call putchar` alternating with n-1 `mov %rax, %rdi`, then `popq`: 2n + 2 lines. |
| X86_64Att.InputShape | src/budivelnyk/x86_64_att.py:50-54 | `Input(n)` is `pushq`, max(n, 0) `call getchar`, `popq`, then `movb %al, (%rdi)`. |
| X86_64Att.NodeLinesAreInstructions | src/budivelnyk/x86_64_att.py:23-54 | Every line a non-loop node yields is an indented instruction that is neither a label nor a jump. |
| X86_64Att.BodyLabels | src/budivelnyk/x86_64_att.py:19-64 | The body's label definitions and jump targets are exactly those of the loop tree's label scheme, in order. |
| X86_64Att.LabelsUnique | src/budivelnyk/x86_64_att.py:6-64 | In the whole listing every label is defined once and every jump target is defined exactly once. |
| X86_32Att.GenerateBody | src/budivelnyk/targets/x86_32_att.py:22-54 | The generator loop, with its running `loop_id`, produces `BodyLines` of its input, including the failure at the first `Output` or `Input`. |
| X86_32Att.GenerateX86_32Att | src/budivelnyk/targets/x86_32_att.py:9-58 | Generation fails exactly when the tree contains an `Output` or `Input` at some depth. Otherwise the listing is the prologue ending in `movl 4(%esp), %eax`, the body and `ret`. |
| X86_32Att.IoFails | src/budivelnyk/targets/x86_32_att.py:42-51 | The body fails if and only if the tree contains an `Output` or `Input`, at any nesting depth. |
| X86_32Att.NodeLineMeaning | src/budivelnyk/targets/x86_32_att.py:26-41 | The one line for `Add`/`Subtract`/`Forward`/`Back(n)` adds n to or subtracts n from the cell or the pointer, for every n. |
| X86_32Att.NodeLineIsInstruction | src/budivelnyk/targets/x86_32_att.py:26-41 | Every arithmetic node's line is an indented instruction that is neither a label nor a jump. |
| X86_32Att.BodyLabels | src/budivelnyk/targets/x86_32_att.py:22-54 | When the body generates, its label definitions and jump targets are exactly those of the loop tree's label scheme. |
| X86_32Att.LabelsUnique | src/budivelnyk/targets/x86_32_att.py:9-54 | When generation succeeds, every label of the listing is defined once and every jump target is defined exactly once. |

## Left out

- Executing the generated code is not modelled: the tape, `putchar`/`getchar`, the runtime harness and the assembler and linker. The single exception is `JitX86_64Laws.InputStoresClamped`, which runs the five-instruction store tail on a register model.
- `hex.py` and `io.py` are not part of this model. `b` is the function `Hex.B` with the contract "opcode, then the operand in little-endian bytes". The callback addresses `encoded_write_char` and `encoded_read_char` are parameters below 2^64.
- Python generators and the shared character iterator are modelled as returned sequences and an explicit index cursor. Laziness is not modelled. For the 32-bit backend this means the lines yielded before `NotImplementedError` are not part of the result: a failed generation is an `Err` with no lines.
- Exception messages are modelled as error variants: `UnexpectedClosingBracket`, `ClosingBracketExpected` and `NotImplemented`.
- `platform.system` is imported by `targets/x86_32_att.py` but never used, so it is not modelled.
- The machine-code backend has no range check. Operands outside what `b` accepts are stated as the precondition `Encodable`, which allows loop bodies of at most 249 bytes and operands of 0..255. Jump landing is proved under `ShortJumpsFit`, which allows loop bodies of at most 121 bytes, and `JitX86_64Jumps.ShortJumpRange` shows that this bound is exact. No failure result is produced, because the code produces none.
- JitX86_64Laws.PointerArithmeticMeaning: pointer moves are faithful only for n < 128. This is the sign-extended imm8 limitation the code marks with a TODO at lines 39 and 43, and it is proved as an if-and-only-if rather than claimed for all n.
- The operand ranges that the text backends' assembler accepts are not modelled. The text backends emit any integer, as the code does.
- The two node sets are not related. No property connects the parser's output to the machine-code or 32-bit backends.
- A node whose merged count is 0 is emitted rather than dropped: `sub ..., 0` in the x86-64 text backends, and `addb $0` or `80 07 00` in the others.
- An overflowing jump displacement or operand is not reported as an error: it is a precondition of the lemmas instead.
