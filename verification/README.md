# bf-jit core, modelled in Dafny

This project models the execution engine of bf-jit, an interpreter and AArch64 JIT for the
eight-symbol tape language `+ - > < . , [ ]`. It covers five parts:

- **Instruction set** (`instruction.dfy`, module `Instruction`): the seven instructions
  (`Ptr(n)`, `Alu(n)`, `Input`, `Output`, `LoopStart`, `LoopEnd`, `Nop`), the pairwise merge
  rule `Combine` and the total character decoder.
- **Bracket theory** (`brackets.dfy`, module `Brackets`): prefix depth, matching pairs, the
  stack of pending opens and the exact bracket index. Both parsers of the repository share
  it.
- **Live interpreter** (`prog.dfy`, module `Prog`): the parser, the in-place peephole
  optimizer, `step` and `interpret`. The class `Prog.Interpreter` has the fields of the
  Rust struct. Each method is proved against a function of the state: `Peephole` for
  the folding loop, `Next` for one step, `Run` for a run.
- **AArch64 code generator** (`arm64.dfy`, module `Arm64`): `assemble` emits a sequence of
  abstract operations (one per machine instruction, data item or label definition). It
  keeps the label stack as a sequence of `(forward, backward)` pairs.
- **Older interpreter** (`bf.dfy`, module `Bf`): `BFTerp`, with its own unit-step
  instructions, `u8` cells and `Bracket{start, end}` map entries. Its parser accepts an
  unclosed `[`.

`errors.dfy` holds `BFError` (`Instruction(c) | Unmatched | IO`) and the `Result`/`Option`
wrappers.

Modelling choices:

- `usize` cells and the data pointer are integers in `[0, 2^64)`. Adding a signed delta
  reduces modulo 2^64, as `wrapping_add_signed` does.
- `isize` deltas are unbounded integers.
- The input stream is a byte sequence that reads consume. A read from exhausted input
  fails with `IO`.
- The output stream is a byte sequence that writes extend, plus a number of bytes of room
  left. A write with no room fails with `IO`.
- A Rust panic is a precondition of `step`: the data pointer is off the tape, the
  instruction pointer is past the end, or the `expect` on a missing bracket entry fires.
  In a run the same conditions end the run with status `Aborted`.
- A run cannot be written without `decreases *`, so it takes a step budget (`fuel`).
  Running out of budget is the status `OutOfFuel`.

The optimizer is **not idempotent** (`+[]+` folds to `[Alu(1), Alu(1)]`, and only a second
pass gives `[Alu(2)]`). The model follows the code and proves the counterexample
(`Prog.PeepholeNotIdempotent`). No equivalence between
running a program before and after `optimize` is claimed.

## Model

| member | source | states |
|---|---|---|
| `Instruction.Combine` | src/instruction.rs:13-21 | Merges exactly the pairs Ptr+Ptr, Alu+Alu, LoopStart+LoopEnd and Nop+anything; two moves give the move by the summed delta and two cell changes the change by the summed delta (`Ptr(0)`/`Alu(0)` when they cancel, never `Nop`); `Nop` yields its right neighbour, an empty loop yields `Nop`; a merge keeps pointer movement, cell change, stream operations and bracket depth |
| `Instruction.Decode` | src/instruction.rs:24-37 | Total decoder: it is `Nop` exactly for characters outside the eight symbols, and each symbol decodes to the unit instruction it spells |
| `Instruction.DecodeSymbol` | src/instruction.rs:26-34 | Decoding the character of a unit instruction gives that instruction back |
| `Instruction.TotalsAppend` | src/instruction.rs:13-21 | Pointer total, cell total and stream trace distribute over concatenation |
| `Brackets.MatchUnique` | src/prog.rs:44-53 | An open has at most one partner close and a close at most one partner open |
| `Brackets.MatchesNest` | src/prog.rs:44-53 | Matched pairs do not cross |
| `Brackets.CloseOf` | src/prog.rs:44-57 | In a balanced sequence every open has a partner |
| `Brackets.OpenOf` | src/prog.rs:46-52 | With no stray close, every close has a partner |
| `Brackets.PendingStep` | src/prog.rs:44-53 | Pushing an open, popping at a close (which yields the close's partner) and ignoring other instructions keeps the pending-open stack exact; a close on an empty stack is a stray close |
| `Brackets.IndexInvolution` | src/prog.rs:47-49 | An exact bracket index is an involution without fixed points: `m[m[q]] == q` |
| `Brackets.PartialComplete` | src/prog.rs:55-59 | A matcher that read everything with no open pending holds an exact index of a balanced sequence |
| `Brackets.PartialUnclosed` | src/prog.rs:55-57 | A matcher that read everything with an open pending has read an unbalanced sequence |
| `Brackets.Track` | src/prog.rs:44-53 | One element of the matcher: push, pop-and-record under both positions, or fail exactly on a close with nothing pending |
| `Prog.DecrementWraps` | src/prog.rs:85 | `Alu(-1)` on a zero cell gives `usize::MAX`, and `Alu(1)` on `usize::MAX` gives 0 |
| `Prog.Peephole` | src/prog.rs:62-77 | The fold is never longer than the program and is empty only for the empty program |
| `Prog.PeepholeKeepsTotals` | src/prog.rs:69-72 | Folding keeps the total pointer movement, the total cell change and the exact order of `Input`/`Output` |
| `Prog.MergeKeepsTotals` | src/prog.rs:69-72 | Replacing the first two instructions by their merge keeps the total pointer movement, the total cell change and the stream operations |
| `Prog.PeepholeKeepsDepths` | src/prog.rs:69-72 | Folding never takes a prefix depth below the floor of the original, and keeps the final depth |
| `Prog.PeepholeBalanced` | src/prog.rs:62-77 | Folding a balanced program gives a balanced program |
| `Prog.PeepholeNotIdempotent` | src/prog.rs:62-77 | `+[]+` folds to `[Alu(1), Alu(1)]`, which a second pass folds to `[Alu(2)]` |
| `Prog.DecodeEmptyLoop` | src/prog.rs:41-43 | `+[]+` decodes to `[Alu(1), LoopStart, LoopEnd, Alu(1)]` |
| `Prog.EmptyLoopFolds` | src/prog.rs:62-77 | One pass over `+[]+` drops the empty loop and leaves the two `Alu(1)` apart |
| `Prog.CancelledMoveStays` | src/prog.rs:62-77 | `><+` folds to `[Ptr(0), Alu(1)]`: cancelled moves stay a `Ptr(0)` that the `+` does not merge into |
| `Prog.PeepholeCons` | src/prog.rs:69-75 | At the front of a sequence, a merge replaces the pair by its result and a refusal keeps the first instruction |
| `Prog.PeepholeAt` | src/prog.rs:69-75 | One round of the folding loop: a merge replaces the pair, a refusal keeps the instruction |
| `Prog.PeepholeSkip` | src/prog.rs:69-75 | When the instruction at `index` does not merge with the next one, the fold from `index` keeps it in front of the fold of the rest |
| `Prog.Next` | src/prog.rs:78-117 | One step: finished exactly at the end; an `IO` failure exactly on a read from empty input or a write with no room |
| `Prog.NextEffect` | src/prog.rs:82-115 | A step that continues: instr advances by one, or to one past the partner on a taken jump (open on zero, close on nonzero); only the current cell changes, by the delta mod 2^64 or to the byte read; the pointer moves mod 2^64; a write appends the cell's low byte and uses one byte of room |
| `Prog.NextKeeps` | src/prog.rs:78-117 | A step keeps the tape size, only extends the output (using room for it) and only consumes input from the front |
| `Prog.NextInside` | src/prog.rs:87-104 | With map targets inside the program, a step from inside the program stays inside it |
| `Prog.Run` | src/prog.rs:119-127 | A run halts only at the end of the program, errs only with `IO` at a stream instruction, aborts only where a step panics; output only grows and input is consumed from the front; with map targets inside the program it never passes the end |
| `Prog.IndexedRunStaysInProgram` | src/prog.rs:87-104 | With an exact bracket map the instruction pointer never passes the end, and a run can panic only with the data pointer off the tape |
| `Prog.RunWritesTwo` | src/prog.rs:78-127 | `++.` writes the single byte 2 and halts |
| `Prog.RunReadsByte` | src/prog.rs:105-108 | `,` with input `0x41` leaves 0x41 in the current cell |
| `Prog.FoldClearLoop` | src/prog.rs:62-77 | `++[-]` folds to `[Alu(2), LoopStart, Alu(-1), LoopEnd]` |
| `Prog.FoldLoopBody` | src/prog.rs:62-77 | No neighbours of `[Alu(2), LoopStart, Alu(-1), LoopEnd]` merge |
| `Prog.OptimizeStalesIndex` | src/prog.rs:62-77 | After `optimize`, the bracket map of `++[-]` has no entry for the moved `LoopStart`, so a step there panics |
| `Prog.NoEntryForPlain` | src/prog.rs:44-53 | The parser's map has no entry for a position without a bracket |
| `Prog.ClearLoopPanics` | src/prog.rs:87-91 | Without an entry for position 1, the folded `++[-]` panics on its second step |
| `Prog.DecodedPrefix` | src/prog.rs:41-43 | The program built so far grows by the decoded character |
| `Prog.Interpreter.New` | src/prog.rs:18-34 | Construction succeeds exactly on balanced text, else `Unmatched`; it starts at instruction 0 and cell 0 of a zeroed tape, with the decoded program and an exact map |
| `Prog.Interpreter.Parse` | src/prog.rs:36-60 | `Ok` exactly when the decoded text is balanced, with `program[i] == Decode(text[i])` and an exact bracket map; otherwise `Err(Unmatched)` |
| `Prog.Interpreter.Optimize` | src/prog.rs:62-77 | The program becomes its fold and stays balanced; instr, pointer, streams and the bracket map are unchanged; the empty program is excluded |
| `Prog.Interpreter.Fold` | src/prog.rs:64-76 | The in-place folding loop computes `Peephole` of its input |
| `Prog.Interpreter.Reindex` | src/prog.rs:36-60 | Rebuilding the map with the parser's stack algorithm succeeds exactly on balanced input and gives an exact map |
| `Prog.Interpreter.OptimizeAndReindex` | src/prog.rs:62-77 | Optimizing and then rebuilding the map leaves a balanced, folded program whose map is exact |
| `Prog.Interpreter.Step` | src/prog.rs:78-117 | `step` on the fields: `Ok(true)` and no change at the end; `Err(IO)` and no change on a failed read or write; otherwise `Ok(false)` and the state `Next` gives |
| `Prog.Interpreter.Interpret` | src/prog.rs:119-127 | `interpret` ends in the status and state that `Run` gives |
| `Prog.Interpreter.Turn` | src/prog.rs:120-125 | One turn of the loop either stops in the status and state `Run` gives for the remaining budget, or takes one step and leaves a run of one step less to go |
| `Arm64.Fragment` | src/arm64_backend.rs:31-117 | One instruction's code: empty exactly for `Nop`, `Alu(0)` and `Ptr(0)`; no data and every stack access inside the frame |
| `Arm64.LabelStack` | src/arm64_backend.rs:71-92 | The label stack holds one pair per unclosed loop |
| `Arm64.Code` | src/arm64_backend.rs:30-118 | The code of the instruction loop lays down no data and stays inside the frame |
| `Arm64.Assemble` | src/arm64_backend.rs:6-127 | Output is callback addresses, prologue, each instruction's fragment in order, and epilogue; the entry offset is 16, just past the two addresses; all data precedes code; a balanced program leaves the label stack empty |
| `Arm64.Translate` | src/arm64_backend.rs:31-117 | The loop body: zero deltas skipped, add or sub by sign, pointer moves scaled by 8, a loop start pushes a fresh pair, a loop end pops the newest |
| `Arm64.BodyStep` | src/arm64_backend.rs:30-118 | One round of the loop extends the code by the instruction's fragment and updates label counter and stack |
| `Arm64.HeaderSize` | src/arm64_backend.rs:15-22 | The two callback addresses take 16 bytes |
| `Arm64.Layout` | src/arm64_backend.rs:15-124 | Wrapping the body in header, prologue and epilogue keeps data first and stack accesses in the frame |
| `Arm64.StackHoldsOpenLoops` | src/arm64_backend.rs:71-92 | The label stack holds the label pairs of the open loop starts, oldest first |
| `Arm64.PendIsPending` | src/arm64_backend.rs:71-92 | The loop starts still open form the pending-open stack of the bracket theory |
| `Arm64.LoopLabels` | src/arm64_backend.rs:71-92 | A loop start branches-if-zero to the label its partner end defines, and the end branches-if-nonzero back to the label the start defines |
| `Arm64.LoopEndLabels` | src/arm64_backend.rs:83-84 | At a loop end, the top of the label stack is its partner's pair |
| `Arm64.FreshLabels` | src/arm64_backend.rs:72-73 | Labels are fresh: a later loop gets labels above an earlier one's, and none is a callback label |
| `Arm64.CloseDefines` | src/arm64_backend.rs:83-91 | A loop end defines its partner's forward label |
| `Arm64.LabelsDefinedOnce` | src/arm64_backend.rs:71-92 | No two brackets define the same label |
| `Arm64.AluEffects` | src/arm64_backend.rs:32-52 | A cell change's code adds or subtracts the magnitude, moves no offset and calls nothing |
| `Arm64.PtrEffects` | src/arm64_backend.rs:53-69 | A move's code shifts the offset by 8 bytes per cell |
| `Arm64.LoopEffects` | src/arm64_backend.rs:71-92 | A bracket's code changes neither offset nor cell and calls nothing |
| `Arm64.IoEffects` | src/arm64_backend.rs:93-116 | A stream instruction's code calls exactly its own callback |
| `Arm64.FragmentEffects` | src/arm64_backend.rs:31-117 | One instruction's code moves the offset by 8×its pointer delta, changes the cell by its delta (when within 32 bits) and calls its stream callback |
| `Arm64.CodeEffects` | src/arm64_backend.rs:30-118 | Along the whole code, offset moves total 8× the program's pointer total, calls follow the program's stream operations in order, and cell changes total the program's when each fits 32 bits |
| `Arm64.InputCallKeepsRegisters` | src/arm64_backend.rs:93-104 | Input saves x0/x1/x2 to slots 8/16/24 before its one call and reloads each from its slot after |
| `Arm64.OutputCallKeepsRegisters` | src/arm64_backend.rs:105-116 | Output saves x0/x1/x2 to slots 8/16/24 before its one call and reloads each from its slot after |
| `Arm64.CallKeepsRegisters` | src/arm64_backend.rs:93-116 | The save/restore discipline for either stream instruction |
| `Arm64.FrameKeepsReturnAddress` | src/arm64_backend.rs:23-124 | The prologue reserves 32 bytes and saves x30 in slot 0; the epilogue reloads x30 from there and releases the same 32 bytes |
| `Bf.Ops` | src/bf.rs:83-85 | One decoded instruction per character of the text |
| `Bf.OpsPrefix` | src/bf.rs:84-85 | The program built so far grows by the decoded character |
| `Bf.FailsAtEnds` | src/bf.rs:83-101 | Past the failure point no longer prefix parses |
| `Bf.FailureUnique` | src/bf.rs:83-101 | A parse fails at one position with one error: the first place it can |
| `Bf.PartialPaired` | src/bf.rs:91-97 | The finished matcher records each matched pair under both positions as the same `Bracket(start, end)`, and nothing else |
| `Bf.AsBracketsClose` | src/bf.rs:92-97 | Recording a pair matches the matcher's partner map |
| `Bf.Next` | src/bf.rs:40-75 | One round: finished exactly at the end; `IO` only on empty input or no room; `Add`/`Sub` wrap mod 256; `Left`/`Right` move by one; `Start` jumps to `end` on zero, `Stop` to `start` on nonzero, then advance by one |
| `Bf.Steps` | src/bf.rs:39-77 | `run` returns `Ok` only at the end; errors only with `IO` at a stream instruction; panics only where a round would; output only grows and input is consumed from the front |
| `Bf.NextKeeps` | src/bf.rs:40-75 | A round keeps the tape size, only extends the output (using room for it) and only consumes input from the front |
| `Bf.JumpTargets` | src/bf.rs:50-67 | With the parser's map, every close has an entry, and a jump lands on the partner |
| `Bf.StepStaysInProgram` | src/bf.rs:50-75 | With the parser's map, a round stays inside the program |
| `Bf.AbortCause` | src/bf.rs:44-67 | With the parser's map, a round panics only on the tape's edges or at a never-closed open |
| `Bf.ParsedRunInside` | src/bf.rs:39-77 | With the parser's map, a run that starts inside the program stays inside it |
| `Bf.ParsedRunStaysInProgram` | src/bf.rs:39-77 | A whole run stays inside the program and panics only on the tape's edges or at a never-closed open |
| `Bf.SubUndoesAdd` | src/bf.rs:46-47 | `Add` then `Sub` (or the reverse) restores the cell, wrapping between 255 and 0 |
| `Bf.UnclosedOpenAccepted` | src/bf.rs:83-103 | The text `[` parses, is unbalanced, and its map is empty |
| `Bf.Terp.New` | src/bf.rs:19-37 | Construction succeeds exactly when parsing does, starting at instruction 0 and cell 0 of a zeroed tape |
| `Bf.Terp.ParseProgram` | src/bf.rs:79-104 | `Ok` exactly when every character decodes and no close is stray; the program is the decoded text and the map pairs matched brackets; otherwise the error at the first failing position |
| `Bf.Terp.Record` | src/bf.rs:86-101 | Bracket bookkeeping of one instruction: push, pop-and-record, or fail on a close with nothing pending |
| `Bf.Terp.Round` | src/bf.rs:40-75 | One round of `run` on the fields does what `Bf.Next` says |
| `Bf.Terp.Run` | src/bf.rs:39-77 | `run` ends in the status and state that `Bf.Steps` gives |

## Findings

| source | as written | input that shows it | evidently intended | confidence | as-written member | corrected member |
|---|---|---|---|---|---|---|
| src/prog.rs:62-77 | `optimize` moves instructions but keeps the bracket map built by `parse`, so `step`'s `expect("Parsing should ensure this")` can fire | `++[-]`: folding moves the loop from positions 2..4 to 1..3, position 1 has no map entry, the second step panics | rebuild the bracket map over the folded program | not executed; proved on the model | `Prog.OptimizeStalesIndex` | `Prog.Interpreter.OptimizeAndReindex` |

## Left out

- src/native.rs is not part of this model. It holds unsafe FFI: it transmutes an executable buffer into a function pointer and passes itself through raw pointers to `extern "C"` callbacks.
- The dynasm assembler is not modelled: instruction encoding, whether an immediate is encodable, `finalize`, and executable memory.
- Execution of the generated native code is not modelled, so the model makes no claim that native output matches the interpreter's.
- src/gui.rs, src/main.rs and the programs under src/bin are not modelled. They are a terminal UI and entry points that wire the streams to a constant program.
- The `Read`/`Write` stream objects are replaced by an input byte sequence and an output byte sequence with a room bound. Blocking and the internals of `read_exact` are not modelled.
- Instruction.Combine: `m1 + m2` on `isize` is an unbounded sum. The debug-build overflow panic needs more than 2^63 folded characters and is not modelled.
- Prog.Interpreter.Interpret: runs at most `fuel` steps (status `OutOfFuel` beyond that), because an unbounded loop cannot be written without `decreases *`. A non-terminating program is not modelled beyond its budget.
- Bf.Terp.Run: runs at most `fuel` rounds, for the same reason.
- Prog.Interpreter.Optimize: on the empty program the source panics, since `self.program.len() - 1` underflows (src/prog.rs:66), and `Interpreter::new` accepts the empty text. The precondition `|program| > 0` excludes that case rather than modelling the panic.
- Prog.Interpreter.Step: a step that would panic is excluded by its precondition rather than modelled. `Run` and `Interpret` report it as `Aborted`.
- Bf.Terp.Round: likewise, a panicking round is excluded by its precondition. `Steps` and `Run` report it as `Aborted`.
- Bf.Terp.ParseProgram: the character decoder of the older interpreter is a parameter. The `TryFrom<char>` it relies on does not exist in src/instruction.rs.
- Bf.Next: `Right` at `usize::MAX` (a debug overflow panic) needs no model: the cell is read before the `match` (src/bf.rs:44), and the tape has fewer than `usize::MAX` cells, so that round panics on the read first. The case is unreachable.
- Bf.Next: `Left` at cell 0 is modelled as the debug build's overflow panic (`Bf.Aborts`). A release build would wrap the pointer to `usize::MAX` instead; the next round then panics on the cell read, or `run` returns `Ok` when that `<` was the last instruction. The release behaviour is not modelled.
- Arm64.Assemble: a move whose byte distance does not fit 32 bits, and a loop end with an empty label stack, both panic in the source. They are excluded by the precondition.
- The program-wide label property is split in two. `Arm64.LabelsDefinedOnce` says no two brackets define the same label. `Arm64.LoopLabels` says each loop start and its partner define the two labels of the start's pair.
- No claim is made that `optimize` is idempotent or that it preserves behaviour. Folding `[]` to `Nop` changes non-terminating runs, and the bracket map goes stale.
