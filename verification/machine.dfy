/**
  The tape machine (`Interpreter.run`).

  The source keeps a program counter `pc`, a data pointer `dp` and a list of
  cells `data` that starts as `[0]` and grows by one cell whenever `>` steps
  past its end. `Step` executes the instruction at `pc` and then advances
  `pc` by one (after a possible jump through the bracket table). `Run` repeats
  `Step` and stops the moment `pc` equals the length of the program.

  Printing becomes appending to `output`; reading a line becomes taking the
  next value of `input`. Programs need not terminate, so `Run` is bounded by
  fuel.
*/
module Machine {
  import opened Results
  import Brackets

  /** A value a single input character can stand for. */
  type Byte = x: int | 0 <= x < 256

  datatype State = State(pc: int, dp: int, data: seq<int>, input: seq<Byte>, output: seq<int>)

  /** The ways a step can fail. */
  datatype RunError =
    | CodeIndexOutOfRange(pc: int)  // `self.code[pc]` with `pc` past the end
    | PointerBelowZero(pc: int)     // `<` with `dp == 0`
    | MissingJumpTarget(pc: int)    // `self._brackets[pc]` with no entry for `pc`
    | InputExhausted(pc: int)       // `input()` with nothing left to read

  /** How a bounded run ends; each carries the last state reached. */
  datatype Outcome =
    | Halted(state: State)                   // `pc` reached the end of the program
    | Crashed(error: RunError, state: State) // the step from `state` failed
    | OutOfFuel(state: State)                // still running when the fuel ran out

  /** The machine the source starts with: `pc = 0`, `dp = 0`, `data = [0]`. */
  function Init(input: seq<Byte>): (s: State)
    ensures Valid(s) && AllBytes(s.data) && Consumed(input, s.input)
    ensures s.input == input && s.output == []
  {
    State(0, 0, [0], input, [])
  }

  /** The data pointer addresses a cell and the program counter is not negative. */
  predicate Valid(s: State) {
    0 <= s.pc && 0 <= s.dp < |s.data|
  }

  /** Every cell holds a byte. */
  predicate AllBytes(data: seq<int>) {
    forall k :: 0 <= k < |data| ==> 0 <= data[k] < 256
  }

  /** Every entry of the table names a position of the program, as every table
      built by the bracket matcher does. */
  predicate TableInRange(code: string, table: map<int, int>) {
    forall k :: k in table ==> 0 <= k < |code| && 0 <= table[k] < |code|
  }

  /** `rest` is what is left of `input` after reading some values from its front. */
  predicate Consumed(input: seq<Byte>, rest: seq<Byte>) {
    |rest| <= |input| && rest == input[|input| - |rest|..]
  }

  /** A table built by the bracket matcher only names positions of the program. */
  lemma JumpTableInRange(code: string, table: map<int, int>)
    requires Brackets.JumpTable(code, table)
    ensures TableInRange(code, table)
  {
    forall k | k in table
      ensures 0 <= table[k] < |code|
    {
      Brackets.TableOrientation(code, table, k);
    }
  }

  function Max(a: int, b: int): int {
    if a < b then b else a
  }

  /** One pass of the source's `while not end` loop body, without the halt test. */
  function Step(code: string, table: map<int, int>, s: State): (r: Result<State, RunError>)
    requires Valid(s) && TableInRange(code, table)
    ensures r.Success? ==> Valid(r.value) && s.pc < |code| && r.value.pc <= |code|
    ensures s.pc >= |code| ==> r == Failure(CodeIndexOutOfRange(s.pc))
  {
    if s.pc >= |code| then
      Failure(CodeIndexOutOfRange(s.pc))
    else
      var cell := s.data[s.dp];
      match code[s.pc]
      case '>' =>
        var dp := s.dp + 1;
        var data := if dp == |s.data| then s.data + [0] else s.data;
        Success(s.(pc := s.pc + 1, dp := dp, data := data))
      case '<' =>
        if s.dp == 0 then Failure(PointerBelowZero(s.pc))
        else Success(s.(pc := s.pc + 1, dp := s.dp - 1))
      case '+' =>
        Success(s.(pc := s.pc + 1, data := s.data[s.dp := if cell != 255 then cell + 1 else 0]))
      case '-' =>
        Success(s.(pc := s.pc + 1, data := s.data[s.dp := if cell != 0 then cell - 1 else 255]))
      case '.' =>
        Success(s.(pc := s.pc + 1, output := s.output + [cell]))
      case ',' =>
        if |s.input| == 0 then Failure(InputExhausted(s.pc))
        else Success(s.(pc := s.pc + 1, data := s.data[s.dp := s.input[0]], input := s.input[1..]))
      case '[' =>
        if cell != 0 then Success(s.(pc := s.pc + 1))
        else if s.pc in table then Success(s.(pc := table[s.pc] + 1))
        else Failure(MissingJumpTarget(s.pc))
      case ']' =>
        if cell == 0 then Success(s.(pc := s.pc + 1))
        else if s.pc in table then Success(s.(pc := table[s.pc] + 1))
        else Failure(MissingJumpTarget(s.pc))
      case _ =>
        Success(s.(pc := s.pc + 1))
  }

  /** What every successful step keeps: the tape grows only to cover the data
      pointer, only the current cell can change, output only grows (by at most
      one value), input is only consumed from the front (at most one value),
      and byte cells stay bytes. */
  lemma StepPreserves(code: string, table: map<int, int>, s: State)
    requires Valid(s) && TableInRange(code, table)
    ensures var r := Step(code, table, s);
      r.Success? ==>
        && |r.value.data| == Max(|s.data|, r.value.dp + 1)
        && (forall k :: 0 <= k < |s.data| && k != s.dp ==> r.value.data[k] == s.data[k])
        && s.output <= r.value.output && |r.value.output| <= |s.output| + 1
        && Consumed(s.input, r.value.input) && |s.input| <= |r.value.input| + 1
        && (AllBytes(s.data) ==> AllBytes(r.value.data))
  {
  }

  /** The source's main loop, for at most `fuel` instructions: step, then stop
      if `pc` has become the length of the program. */
  function Run(code: string, table: map<int, int>, s: State, fuel: nat): (o: Outcome)
    requires Valid(s) && TableInRange(code, table)
    ensures Valid(o.state)
    ensures o.Halted? ==> o.state.pc == |code|
    ensures fuel > 0 && s.pc < |code| && !o.Halted? ==> o.state.pc < |code|
    decreases fuel
  {
    if fuel == 0 then
      OutOfFuel(s)
    else
      match Step(code, table, s)
      case Failure(e) => Crashed(e, s)
      case Success(s') =>
        if s'.pc == |code| then Halted(s') else Run(code, table, s', fuel - 1)
  }

  /** What a whole run keeps: the tape never shrinks, output only grows, input
      is only consumed from the front, and byte cells stay bytes. */
  lemma {:induction false} RunPreserves(code: string, table: map<int, int>, s: State, fuel: nat)
    requires Valid(s) && TableInRange(code, table)
    ensures var f := Run(code, table, s, fuel).state;
      && |s.data| <= |f.data|
      && s.output <= f.output
      && Consumed(s.input, f.input)
      && (AllBytes(s.data) ==> AllBytes(f.data))
    decreases fuel
  {
    if fuel > 0 {
      match Step(code, table, s)
      case Failure(e) =>
      case Success(s') =>
        StepPreserves(code, table, s);
        if s'.pc != |code| {
          RunPreserves(code, table, s', fuel - 1);
          var f := Run(code, table, s', fuel - 1).state;
          assert Consumed(s.input, f.input) by {
            assert f.input == s'.input[|s'.input| - |f.input|..];
            assert s'.input == s.input[|s.input| - |s'.input|..];
          }
        }
    }
  }

  /* ---------- single instructions ---------- */

  /** `+` is increment modulo 256 on a byte cell; nothing else but `pc` changes. */
  lemma StepIncrement(code: string, table: map<int, int>, s: State)
    requires Valid(s) && TableInRange(code, table)
    requires s.pc < |code| && code[s.pc] == '+' && 0 <= s.data[s.dp] < 256
    ensures Step(code, table, s) == Success(s.(pc := s.pc + 1, data := s.data[s.dp := (s.data[s.dp] + 1) % 256]))
  {
  }

  /** `-` is decrement modulo 256 on a byte cell; nothing else but `pc` changes. */
  lemma StepDecrement(code: string, table: map<int, int>, s: State)
    requires Valid(s) && TableInRange(code, table)
    requires s.pc < |code| && code[s.pc] == '-' && 0 <= s.data[s.dp] < 256
    ensures Step(code, table, s) == Success(s.(pc := s.pc + 1, data := s.data[s.dp := (s.data[s.dp] - 1) % 256]))
  {
  }

  /** `>` moves right and appends exactly one zero cell exactly when it moves
      past the end of the tape; the existing cells are kept. */
  lemma StepRight(code: string, table: map<int, int>, s: State)
    requires Valid(s) && TableInRange(code, table)
    requires s.pc < |code| && code[s.pc] == '>'
    ensures Step(code, table, s).Success?
    ensures var s' := Step(code, table, s).value;
      && s'.dp == s.dp + 1 && s'.pc == s.pc + 1
      && s'.data[..|s.data|] == s.data
      && (|s'.data| == |s.data| + 1 <==> s.dp + 1 == |s.data|)
      && (|s'.data| == |s.data| + 1 ==> s'.data[|s.data|] == 0)
      && (s.dp + 1 < |s.data| ==> s'.data == s.data)
      && s'.input == s.input && s'.output == s.output
  {
  }

  /** `<` at the first cell is refused; elsewhere it only moves left. */
  lemma StepLeft(code: string, table: map<int, int>, s: State)
    requires Valid(s) && TableInRange(code, table)
    requires s.pc < |code| && code[s.pc] == '<'
    ensures Step(code, table, s).Failure? <==> s.dp == 0
    ensures s.dp > 0 ==> Step(code, table, s) == Success(s.(pc := s.pc + 1, dp := s.dp - 1))
  {
    if s.dp == 0 {
      assert Step(code, table, s) == Failure(PointerBelowZero(s.pc));
    } else {
      assert Step(code, table, s) == Success(s.(pc := s.pc + 1, dp := s.dp - 1));
    }
  }

  /** `.` appends the current cell to the output, after everything printed so far. */
  lemma StepOutput(code: string, table: map<int, int>, s: State)
    requires Valid(s) && TableInRange(code, table)
    requires s.pc < |code| && code[s.pc] == '.'
    ensures Step(code, table, s) == Success(s.(pc := s.pc + 1, output := s.output + [s.data[s.dp]]))
  {
  }

  /** `,` stores the next input value in the current cell and consumes it. */
  lemma StepInput(code: string, table: map<int, int>, s: State)
    requires Valid(s) && TableInRange(code, table)
    requires s.pc < |code| && code[s.pc] == ','
    ensures Step(code, table, s).Failure? <==> |s.input| == 0
    ensures |s.input| > 0 ==>
      Step(code, table, s) == Success(s.(pc := s.pc + 1, data := s.data[s.dp := s.input[0]], input := s.input[1..]))
  {
  }

  /** A character that is not one of the eight commands only advances `pc`. */
  lemma StepOther(code: string, table: map<int, int>, s: State)
    requires Valid(s) && TableInRange(code, table)
    requires s.pc < |code| && code[s.pc] !in "><+-.,[]"
    ensures Step(code, table, s) == Success(s.(pc := s.pc + 1))
  {
  }

  /** With a table built by the bracket matcher, `pc` advances by one except at
      a taken loop jump: `[` on a zero cell lands just past its matching `]`,
      and `]` on a nonzero cell lands just past its matching `[`. Since the
      matcher records every `]`, the backward jump never fails. Nothing but
      `pc` changes at a bracket. */
  lemma StepBrackets(code: string, table: map<int, int>, s: State)
    requires Valid(s) && TableInRange(code, table) && Brackets.JumpTable(code, table)
    requires s.pc < |code| && (code[s.pc] == '[' || code[s.pc] == ']')
    ensures var r := Step(code, table, s);
      && (r.Success? ==> r.value == s.(pc := r.value.pc))
      && (code[s.pc] == '[' && s.data[s.dp] != 0 ==> r == Success(s.(pc := s.pc + 1)))
      && (code[s.pc] == ']' && s.data[s.dp] == 0 ==> r == Success(s.(pc := s.pc + 1)))
      && (code[s.pc] == '[' && s.data[s.dp] == 0 ==>
            (r.Success? <==> exists i :: Brackets.Match(code, s.pc, i))
            && (r.Success? ==> Brackets.Match(code, s.pc, r.value.pc - 1)))
      && (code[s.pc] == ']' && s.data[s.dp] != 0 ==>
            (Brackets.ClosersRecorded(code, table) ==> r.Success?)
            && (r.Success? ==> Brackets.Match(code, r.value.pc - 1, s.pc)))
  {
    if code[s.pc] == '[' && s.data[s.dp] == 0 {
      Brackets.UnmatchedOpenHasNoEntry(code, table, s.pc);
    }
  }

  /* ---------- whole runs ---------- */

  /** Once a run has stopped for a reason other than fuel, more fuel changes nothing. */
  lemma {:induction false} RunFuelMonotone(code: string, table: map<int, int>, s: State, fuel: nat, more: nat)
    requires Valid(s) && TableInRange(code, table)
    requires fuel <= more && !Run(code, table, s, fuel).OutOfFuel?
    ensures Run(code, table, s, more) == Run(code, table, s, fuel)
    decreases fuel
  {
    match Step(code, table, s)
    case Failure(e) =>
      assert Run(code, table, s, more) == Crashed(e, s);
    case Success(s') =>
      if s'.pc == |code| {
        assert Run(code, table, s, more) == Halted(s');
      } else {
        assert Run(code, table, s, fuel) == Run(code, table, s', fuel - 1);
        assert Run(code, table, s, more) == Run(code, table, s', more - 1);
        RunFuelMonotone(code, table, s', fuel - 1, more - 1);
      }
  }

  /** Every state a run passes through (the state after `k` instructions, for
      each `k` up to `fuel`) has its data pointer inside the final tape. */
  lemma {:induction false} RunStaysInside(code: string, table: map<int, int>, s: State, fuel: nat, k: nat)
    requires Valid(s) && TableInRange(code, table) && k <= fuel
    ensures Run(code, table, s, k).state.dp < |Run(code, table, s, fuel).state.data|
    decreases k
  {
    if k == 0 {
      RunPreserves(code, table, s, fuel);
    } else {
      match Step(code, table, s)
      case Failure(e) =>
      case Success(s') =>
        if s'.pc != |code| {
          RunStaysInside(code, table, s', fuel - 1, k - 1);
        }
    }
  }

  /** Unless the tape never grew, some state the run passes through has its data
      pointer on the last cell of the final tape. Together with `RunStaysInside`:
      the final tape is one cell longer than the furthest cell reached. */
  lemma {:induction false} RunReachesEnd(code: string, table: map<int, int>, s: State, fuel: nat) returns (k: nat)
    requires Valid(s) && TableInRange(code, table)
    ensures k <= fuel
    ensures var f := Run(code, table, s, fuel).state;
      |f.data| == |s.data| || Run(code, table, s, k).state.dp + 1 == |f.data|
    decreases fuel
  {
    k := 0;
    if fuel > 0 {
      match Step(code, table, s)
      case Failure(e) =>
      case Success(s') =>
        StepPreserves(code, table, s);
        if s'.pc == |code| {
          k := 1;
          assert Run(code, table, s, fuel) == Halted(s') == Run(code, table, s, 1);
        } else if |Run(code, table, s', fuel - 1).state.data| == |s'.data| {
          k := 1;
          assert Run(code, table, s, 1) == OutOfFuel(s');
        } else {
          var k' := RunReachesEnd(code, table, s', fuel - 1);
          k := k' + 1;
          assert Run(code, table, s, k) == Run(code, table, s', k');
        }
    }
  }

  /** An empty program fails on its first instruction fetch: the halt test only
      runs after an instruction. */
  lemma EmptyProgramFails(table: map<int, int>, s: State, fuel: nat)
    requires Valid(s) && TableInRange("", table) && fuel > 0
    ensures Run("", table, s, fuel) == Crashed(CodeIndexOutOfRange(s.pc), s)
  {
  }
}
