# Brainfuck interpreter in Dafny

This project models the core of a small Brainfuck interpreter written in
Python (`brainfuck.py`). The core has two parts.

- **The bracket matcher** (`Interpreter._prepare`). It scans the program once
  with a stack of open-bracket positions and builds a jump table that maps
  each matched `[` to its `]` and back. This is module `Brackets`. `Scan`
  follows the source loop one character at a time, and its stack holds
  `('[', i)` pairs exactly as the source pushes them.
  `Depth` and `Match` give an independent, declarative meaning to "these two
  brackets belong together". `Prepare`'s contract proves that the table is
  exactly that relation. It also proves that the scan fails exactly when some
  prefix of the program closes more brackets than it opened.
- **The tape machine** (`Interpreter.run`). This is module `Machine`, with a
  pure `Step` on an immutable `State`. The state holds the program counter,
  the data pointer, the tape (a list of Python integers, starting as `[0]`),
  the input still to read, and the output printed so far. `Run` repeats
  `Step` for at most `fuel` instructions. Like the source, it halts the
  moment the program counter equals the program length, and it tests this
  only after an instruction has run.

Module `Interpreter` puts the two together (`Execute`) and proves the
outcomes of a few small programs.

Behaviour that follows the code:
- An unmatched `]` fails because `stack.pop()` is called on an empty list
  (`PopFromEmptyList`). The source's `bracket != '['` branch is modelled but
  can never be reached.
- An unmatched `[` is not reported. It simply gets no table entry. A stricter
  matcher would report it after the scan, but the code has no check after the
  loop, and this model follows the code. The program only fails later, and
  only if the `[` is reached on a zero cell, where the table lookup fails
  (`MissingJumpTarget`).
- An empty program fails on its first instruction fetch (`CodeIndexOutOfRange`).
- `+` and `-` are modelled literally (`255` becomes `0`, `0` becomes `255`,
  and otherwise the cell moves by one). They are proved equal to arithmetic
  modulo 256 on byte cells.

## Model

| member | source | states |
|---|---|---|
| Brackets.Prepare | brainfuck.py:34-50 | Succeeds exactly when no prefix of the program closes more brackets than it opened. A failure is always the empty-stack pop, at the first `]` that does this. On success the table is symmetric (`t[t[k]] == k`), its entries are exactly the matching bracket pairs in both orientations, and every `]` has an entry. |
| Brackets.Scan | brainfuck.py:41-50 | The source's `for` loop, one character per call: push `('[', i)` on `[`, pop and record both directions on `]`. Its own contract only says that the table never loses a key. Its full meaning is stated by `ScanCorrect` and `Prepare`. |
| Brackets.ScanCorrect | brainfuck.py:41-50 | From any point where the scan invariant holds, the rest of the scan either stops at the first underflowing `]` or builds a complete, symmetric table of matching pairs. The invariant covers the stack of open `[` positions, the nesting depth and the table so far. |
| Brackets.BalancedEveryBracketPaired | brainfuck.py:41-50 | In a program the matcher accepts whose brackets balance overall, every `[` and every `]` has a table entry. |
| Brackets.NoBracketSyntaxError | brainfuck.py:44-48 | The scan never fails with the syntax-error branch, because every stack entry is tagged `[`. |
| Brackets.TableOrientation | brainfuck.py:43-50 | Only bracket positions are keys. A `[` key maps to a later `]`, and a `]` key maps to an earlier `[`. |
| Brackets.TableNests | brainfuck.py:41-50 | Two recorded pairs are either disjoint or properly nested; they never cross. |
| Brackets.MatchesNest | brainfuck.py:41-50 | Two matching pairs in the declarative sense never cross. This is the fact that `TableNests` rests on. |
| Brackets.UnmatchedOpenHasNoEntry | brainfuck.py:41-50 | A `[` has a table entry exactly when some `]` matches it. An unmatched `[` is silently left out. |
| Machine.Init | brainfuck.py:54-56 | The start state (`pc = 0`, `dp = 0`, `data = [0]`) is valid and holds only bytes. No input has been read yet (the whole input is still to come) and the output is empty. These are the invariants `StepPreserves` and `RunPreserves` carry. |
| Machine.Step | brainfuck.py:58-81 | A successful step leaves a valid state (the pointer is inside the tape and `pc <= len(code)`). When `pc` is past the end of the program, the fetch fails. |
| Machine.StepPreserves | brainfuck.py:60-81 | A successful step grows the tape only to cover the data pointer (`len(data) == max(old len, dp + 1)`). Only the current cell can change. Output grows by at most one value at the end, input is consumed only from the front, and byte cells stay bytes. |
| Machine.StepIncrement | brainfuck.py:66-67 | `+` on a byte cell sets it to `(cell + 1) mod 256`. Apart from `pc + 1`, nothing else changes. |
| Machine.StepDecrement | brainfuck.py:68-69 | `-` on a byte cell sets it to `(cell - 1) mod 256`. Apart from `pc + 1`, nothing else changes. |
| Machine.StepRight | brainfuck.py:60-63 | `>` increments `dp` and keeps every existing cell. It appends exactly one `0` cell, and does so exactly when the old `dp` was the last cell. Otherwise the tape is unchanged. |
| Machine.StepLeft | brainfuck.py:64-65 | `<` fails exactly when `dp == 0`. Otherwise it only decrements `dp` (and advances `pc`). |
| Machine.StepOutput | brainfuck.py:70-71 | `.` appends the current cell after all earlier output and changes nothing else. |
| Machine.StepInput | brainfuck.py:72-74 | `,` fails exactly when no input is left. Otherwise it stores the next input value in the current cell and consumes it. |
| Machine.StepOther | brainfuck.py:58-81 | A character that is not one of the eight commands only advances `pc`. |
| Machine.StepBrackets | brainfuck.py:75-81 | With a table from the matcher, a bracket changes only `pc`. A test that is not taken advances `pc` by one. `[` on a zero cell succeeds exactly when it has a matching `]`, and then lands one past it. `]` on a nonzero cell never fails when every `]` has an entry, as in every table the matcher builds, and lands one past its matching `[`. |
| Machine.Run | brainfuck.py:52-83 | Every outcome carries a valid state. A run halts only with `pc == len(code)`, and a run that stops for any other reason after at least one step is still inside the program. |
| Machine.RunPreserves | brainfuck.py:54-83 | Over a whole run the tape never shrinks, output only grows, input is consumed only from the front, and byte cells stay bytes. |
| Machine.RunFuelMonotone | brainfuck.py:57-83 | Once a run has halted or failed, more fuel gives the same outcome. |
| Machine.RunStaysInside | brainfuck.py:56-65 | The data pointer of every intermediate state lies inside the final tape. |
| Machine.RunReachesEnd | brainfuck.py:56-65 | Unless the tape never grew, some intermediate state points at the last cell of the final tape. |
| Machine.EmptyProgramFails | brainfuck.py:58-59 | On the empty program the first instruction fetch fails, since the halt test runs only after an instruction. |
| Machine.JumpTableInRange | brainfuck.py:49-50 | Every key and value of a table built by the matcher is a position of the program. |
| Interpreter.Execute | brainfuck.py:21-83 | Building the table and running fails before any instruction exactly when some prefix of the program underflows. Otherwise the final state is valid, every cell holds a byte, and input is consumed only from the front. |
| Interpreter.TapeLengthIsHighWater | brainfuck.py:56-65 | Starting from `[0]`, the final tape is exactly one cell longer than the furthest cell the data pointer reached. |
| Interpreter.IncrementThenPrint | brainfuck.py:66-71 | `+++.` halts with output `[3]`. |
| Interpreter.DecrementWraps | brainfuck.py:68-71 | `-.` halts with the cell at 255 and output `[255]`. |
| Interpreter.EmptyLoopSkipped | brainfuck.py:75-83 | `[]` on a fresh tape halts at once with no output and tape `[0]`. |
| Interpreter.EchoOneValue | brainfuck.py:70-74 | `,.` with input `[65]` halts with output `[65]`. |
| Interpreter.MoveLoopTable | brainfuck.py:41-50 | The table of `+[>+<-]` is `{1: 6, 6: 1}`. |
| Interpreter.MoveLoopSteps | brainfuck.py:60-81 | The seven instructions of `+[>+<-]`, each given as the exact state before and after it. The `[` sees 1 and enters the loop. The `]` sees 0 and falls through, so no jump is taken. |
| Interpreter.MoveLoopRun | brainfuck.py:54-83 | Run from the initial state with the table `{1: 6, 6: 1}`, `+[>+<-]` halts after seven instructions with tape `[0, 1]`. |
| Interpreter.MoveLoop | brainfuck.py:60-81 | `+[>+<-]` halts with tape `[0, 1]`: the loop body runs once and the loop exits when the first cell reads 0. |
| Interpreter.CountdownTable | brainfuck.py:41-50 | The table of `++[-]` is `{2: 4, 4: 2}`. |
| Interpreter.CountdownSteps | brainfuck.py:66-81 | The seven instructions of `++[-]`, each given as the exact state before and after it. The `]` first sees 1 and jumps back to position 3, just past the `[`. The second time it sees 0 and falls through. |
| Interpreter.CountdownRun | brainfuck.py:54-83 | Run from the initial state with the table `{2: 4, 4: 2}`, `++[-]` halts after seven instructions with tape `[0]`. |
| Interpreter.Countdown | brainfuck.py:75-83 | `++[-]` halts with tape `[0]`. The loop body runs twice, with one backward jump from `]`. |
| Interpreter.LoneCloseRejected | brainfuck.py:45-46 | `]` fails in the matcher at position 0. |
| Interpreter.LoneOpenFailsLate | brainfuck.py:75-77 | `[` gets an empty table and fails only at the loop test, on the missing entry. |
| Interpreter.EmptyProgram | brainfuck.py:58-59 | The empty program fails on fetching position 0. |
| Interpreter.LeftOfFirstCell | brainfuck.py:64-65 | `<` on the first cell fails with `PointerBelowZero`. |

## Left out

- Loading the program from a file and `strip()` (brainfuck.py:28-32): the program is given as a string.
- The command line (brainfuck.py:85-91): it is I/O glue.
- Real printing and reading. `.` appends the cell value to `output`; converting it with `chr` is left to the host. `,` takes the next value from `input`, which is a sequence of values in 0..255. The source calls `ord` on a whole line, which fails unless the line has exactly one character, and which can give code points above 255. That string and code-point behaviour depends on the host and is not modelled. Running out of input (an `EOFError` in the source) is modelled as `InputExhausted`.
- `<` at `dp == 0` (brainfuck.py:64-65): the source moves to `dp = -1`, and Python's negative indexing then reaches the last cell. The model instead fails at once with `PointerBelowZero`, as an explicit policy. Every state the model reaches therefore has `0 <= dp < len(data)`.
- Non-termination: `Run` is bounded by `fuel`, and a run that has not stopped reports `OutOfFuel`. Termination is not proved.
- Machine.StepIncrement: states the modulo-256 law only for cells in 0..255. `Step` itself follows the source literally for any integer cell.
- Machine.StepDecrement: states the modulo-256 law only for cells in 0..255, for the same reason.
