/**
  The interpreter as a whole: build the bracket table, then run the machine
  from its initial state (`Interpreter.__init__` followed by `run`).
*/
module Interpreter {
  import opened Results
  import Brackets
  import Machine

  /** Prepare the jump table and, if that succeeds, run the program for at most
      `fuel` instructions on the given input. */
  function Execute(code: string, input: seq<Machine.Byte>, fuel: nat): (r: Result<Machine.Outcome, Brackets.PrepareError>)
    ensures r.Failure? <==> !Brackets.NeverUnderflows(code)
    ensures r.Success? ==> Machine.Valid(r.value.state) && Machine.AllBytes(r.value.state.data)
    ensures r.Success? ==> Machine.Consumed(input, r.value.state.input)
  {
    match Brackets.Prepare(code)
    case Failure(e) => Failure(e)
    case Success(table) =>
      Machine.JumpTableInRange(code, table);
      Machine.RunPreserves(code, table, Machine.Init(input), fuel);
      Success(Machine.Run(code, table, Machine.Init(input), fuel))
  }

  /** Starting from the one-cell tape `[0]`, the final tape is exactly one cell
      longer than the furthest cell the data pointer reached during the run. */
  lemma TapeLengthIsHighWater(code: string, table: map<int, int>, input: seq<Machine.Byte>, fuel: nat) returns (k: nat)
    requires Brackets.Prepare(code) == Success(table)
    ensures Machine.TableInRange(code, table)
    ensures k <= fuel
    ensures var init := Machine.Init(input);
      var f := Machine.Run(code, table, init, fuel).state;
      && (forall k' :: 0 <= k' <= fuel ==> Machine.Run(code, table, init, k').state.dp < |f.data|)
      && Machine.Run(code, table, init, k).state.dp + 1 == |f.data|
  {
    Machine.JumpTableInRange(code, table);
    var init := Machine.Init(input);
    forall k' | 0 <= k' <= fuel
      ensures Machine.Run(code, table, init, k').state.dp < |Machine.Run(code, table, init, fuel).state.data|
    {
      Machine.RunStaysInside(code, table, init, fuel, k');
    }
    k := Machine.RunReachesEnd(code, table, init, fuel);
    if |Machine.Run(code, table, init, fuel).state.data| == 1 {
      k := 0;
    }
  }

  /* ---------- small programs ---------- */

  /** `+++.` prints the value 3. */
  lemma IncrementThenPrint()
    ensures Execute("+++.", [], 4) == Success(Machine.Halted(Machine.State(4, 0, [3], [], [3])))
  {
    var code, t: map<int, int> := "+++.", map[];
    assert Brackets.Prepare(code) == Success(t);
    assert Machine.Step(code, t, Machine.State(0, 0, [0], [], [])).value.data == [1];
    assert Machine.Step(code, t, Machine.State(0, 0, [0], [], [])) == Success(Machine.State(1, 0, [1], [], []));
    assert Machine.Step(code, t, Machine.State(1, 0, [1], [], [])).value.data == [2];
    assert Machine.Step(code, t, Machine.State(1, 0, [1], [], [])) == Success(Machine.State(2, 0, [2], [], []));
    assert Machine.Step(code, t, Machine.State(2, 0, [2], [], [])).value.data == [3];
    assert Machine.Step(code, t, Machine.State(2, 0, [2], [], [])) == Success(Machine.State(3, 0, [3], [], []));
    assert Machine.Step(code, t, Machine.State(3, 0, [3], [], [])).value.data == [3];
    assert Machine.Step(code, t, Machine.State(3, 0, [3], [], [])).value.output == [3];
    assert Machine.Step(code, t, Machine.State(3, 0, [3], [], [])) == Success(Machine.State(4, 0, [3], [], [3]));
    assert Machine.Run(code, t, Machine.State(3, 0, [3], [], []), 1) == Machine.Halted(Machine.State(4, 0, [3], [], [3]));
    assert Machine.Run(code, t, Machine.State(2, 0, [2], [], []), 2) == Machine.Halted(Machine.State(4, 0, [3], [], [3]));
    assert Machine.Run(code, t, Machine.State(1, 0, [1], [], []), 3) == Machine.Halted(Machine.State(4, 0, [3], [], [3]));
    assert Machine.Run(code, t, Machine.State(0, 0, [0], [], []), 4) == Machine.Halted(Machine.State(4, 0, [3], [], [3]));
  }

  /** `-.` wraps the fresh cell to 255 and prints it. */
  lemma DecrementWraps()
    ensures Execute("-.", [], 2) == Success(Machine.Halted(Machine.State(2, 0, [255], [], [255])))
  {
    var code, t: map<int, int> := "-.", map[];
    assert Brackets.Prepare(code) == Success(t);
    assert Machine.Step(code, t, Machine.State(0, 0, [0], [], [])).value.data == [255];
    assert Machine.Step(code, t, Machine.State(0, 0, [0], [], [])) == Success(Machine.State(1, 0, [255], [], []));
    assert Machine.Step(code, t, Machine.State(1, 0, [255], [], [])).value.data == [255];
    assert Machine.Step(code, t, Machine.State(1, 0, [255], [], [])).value.output == [255];
    assert Machine.Step(code, t, Machine.State(1, 0, [255], [], [])) == Success(Machine.State(2, 0, [255], [], [255]));
    assert Machine.Run(code, t, Machine.State(1, 0, [255], [], []), 1) == Machine.Halted(Machine.State(2, 0, [255], [], [255]));
    assert Machine.Run(code, t, Machine.State(0, 0, [0], [], []), 2) == Machine.Halted(Machine.State(2, 0, [255], [], [255]));
  }

  /** `[]` on a fresh tape skips the loop and halts with nothing printed. */
  lemma EmptyLoopSkipped()
    ensures Execute("[]", [], 1) == Success(Machine.Halted(Machine.State(2, 0, [0], [], [])))
  {
    var code, t := "[]", map[0 := 1, 1 := 0];
    EmptyLoopScan();
    assert Brackets.Prepare(code) == Success(t);
    assert Machine.Step(code, t, Machine.State(0, 0, [0], [], [])) == Success(Machine.State(2, 0, [0], [], []));
  }

  /** The matcher's loop over `[]`, one character at a time. */
  lemma EmptyLoopScan()
    ensures Brackets.Scan("[]", 0, [], map[]) == Success(map[0 := 1, 1 := 0])
  {
    var code, t := "[]", map[0 := 1, 1 := 0];
    var e: map<int, int> := map[];
    assert e[1 := 0][0 := 1] == t;
    assert [('[', 0)][..0] == [] && [] + [('[', 0)] == [('[', 0)];
    assert Brackets.Scan(code, 2, [], t) == Success(t);
    assert Brackets.Scan(code, 1, [('[', 0)], map[]) == Success(t);
  }

  /** `,.` echoes one input value. */
  lemma EchoOneValue()
    ensures Execute(",.", [65], 2) == Success(Machine.Halted(Machine.State(2, 0, [65], [], [65])))
  {
    var code, t: map<int, int> := ",.", map[];
    assert Brackets.Prepare(code) == Success(t);
    assert Machine.Step(code, t, Machine.State(0, 0, [0], [65], [])).value.data == [65];
    assert Machine.Step(code, t, Machine.State(0, 0, [0], [65], [])).value.input == [];
    assert Machine.Step(code, t, Machine.State(0, 0, [0], [65], [])) == Success(Machine.State(1, 0, [65], [], []));
    assert Machine.Step(code, t, Machine.State(1, 0, [65], [], [])).value.data == [65];
    assert Machine.Step(code, t, Machine.State(1, 0, [65], [], [])).value.output == [65];
    assert Machine.Step(code, t, Machine.State(1, 0, [65], [], [])) == Success(Machine.State(2, 0, [65], [], [65]));
    assert Machine.Run(code, t, Machine.State(1, 0, [65], [], []), 1) == Machine.Halted(Machine.State(2, 0, [65], [], [65]));
    assert Machine.Run(code, t, Machine.State(0, 0, [0], [65], []), 2) == Machine.Halted(Machine.State(2, 0, [65], [], [65]));
  }

  /** The jump table of `+[>+<-]` pairs positions 1 and 6. */
  lemma MoveLoopTable()
    ensures Brackets.Prepare("+[>+<-]") == Success(map[1 := 6, 6 := 1])
  {
    MoveLoopScan();
  }

  /** The matcher's loop over `+[>+<-]`, one character at a time. */
  lemma MoveLoopScan()
    ensures Brackets.Scan("+[>+<-]", 0, [], map[]) == Success(map[1 := 6, 6 := 1])
  {
    var code := "+[>+<-]";
    var t := map[1 := 6, 6 := 1];
    var e: map<int, int> := map[];
    assert e[6 := 1][1 := 6] == t;
    assert [('[', 1)][..0] == [] && [] + [('[', 1)] == [('[', 1)];
    assert Brackets.Scan(code, 7, [], t) == Success(t);
    assert Brackets.Scan(code, 6, [('[', 1)], map[]) == Success(t);
    assert Brackets.Scan(code, 5, [('[', 1)], map[]) == Success(t);
    assert Brackets.Scan(code, 4, [('[', 1)], map[]) == Success(t);
    assert Brackets.Scan(code, 3, [('[', 1)], map[]) == Success(t);
    assert Brackets.Scan(code, 2, [('[', 1)], map[]) == Success(t);
    assert Brackets.Scan(code, 1, [], map[]) == Success(t);
    assert Brackets.Scan(code, 0, [], map[]) == Success(t);
  }

  /** The seven instructions `+[>+<-]` executes, one state to the next. The cell
      is 1 at the `[`, so the loop is entered, and 0 at the `]`, so it is left
      without a jump. */
  lemma MoveLoopSteps()
    ensures var code, t := "+[>+<-]", map[1 := 6, 6 := 1];
      && Machine.TableInRange(code, t)
      && Machine.Step(code, t, Machine.State(0, 0, [0], [], [])) == Success(Machine.State(1, 0, [1], [], []))
      && Machine.Step(code, t, Machine.State(1, 0, [1], [], [])) == Success(Machine.State(2, 0, [1], [], []))
      && Machine.Step(code, t, Machine.State(2, 0, [1], [], [])) == Success(Machine.State(3, 1, [1, 0], [], []))
      && Machine.Step(code, t, Machine.State(3, 1, [1, 0], [], [])) == Success(Machine.State(4, 1, [1, 1], [], []))
      && Machine.Step(code, t, Machine.State(4, 1, [1, 1], [], [])) == Success(Machine.State(5, 0, [1, 1], [], []))
      && Machine.Step(code, t, Machine.State(5, 0, [1, 1], [], [])) == Success(Machine.State(6, 0, [0, 1], [], []))
      && Machine.Step(code, t, Machine.State(6, 0, [0, 1], [], [])) == Success(Machine.State(7, 0, [0, 1], [], []))
  {
    var code, t := "+[>+<-]", map[1 := 6, 6 := 1];
    assert Machine.Step(code, t, Machine.State(0, 0, [0], [], [])).value.data == [1];
    assert Machine.Step(code, t, Machine.State(1, 0, [1], [], [])).value.data == [1];
    assert Machine.Step(code, t, Machine.State(2, 0, [1], [], [])).value.data == [1, 0];
    assert Machine.Step(code, t, Machine.State(3, 1, [1, 0], [], [])).value.data == [1, 1];
    assert Machine.Step(code, t, Machine.State(4, 1, [1, 1], [], [])).value.data == [1, 1];
    assert Machine.Step(code, t, Machine.State(5, 0, [1, 1], [], [])).value.data == [0, 1];
    assert Machine.Step(code, t, Machine.State(6, 0, [0, 1], [], [])).value.data == [0, 1];
  }

  /** Running `+[>+<-]` with its table: the body runs once, then the loop exits. */
  lemma MoveLoopRun()
    ensures var code, t := "+[>+<-]", map[1 := 6, 6 := 1];
      Machine.TableInRange(code, t)
      && Machine.Run(code, t, Machine.Init([]), 7) == Machine.Halted(Machine.State(7, 0, [0, 1], [], []))
  {
    var code, t := "+[>+<-]", map[1 := 6, 6 := 1];
    MoveLoopSteps();
    assert Machine.Run(code, t, Machine.State(6, 0, [0, 1], [], []), 1) == Machine.Halted(Machine.State(7, 0, [0, 1], [], []));
    assert Machine.Run(code, t, Machine.State(5, 0, [1, 1], [], []), 2) == Machine.Halted(Machine.State(7, 0, [0, 1], [], []));
    assert Machine.Run(code, t, Machine.State(4, 1, [1, 1], [], []), 3) == Machine.Halted(Machine.State(7, 0, [0, 1], [], []));
    assert Machine.Run(code, t, Machine.State(3, 1, [1, 0], [], []), 4) == Machine.Halted(Machine.State(7, 0, [0, 1], [], []));
    assert Machine.Run(code, t, Machine.State(2, 0, [1], [], []), 5) == Machine.Halted(Machine.State(7, 0, [0, 1], [], []));
    assert Machine.Run(code, t, Machine.State(1, 0, [1], [], []), 6) == Machine.Halted(Machine.State(7, 0, [0, 1], [], []));
    assert Machine.Run(code, t, Machine.State(0, 0, [0], [], []), 7) == Machine.Halted(Machine.State(7, 0, [0, 1], [], []));
  }
  /** `+[>+<-]` moves the value 1 from the first cell to the second and
      leaves the loop when the first cell reaches zero. */
  lemma MoveLoop()
    ensures Execute("+[>+<-]", [], 7) == Success(Machine.Halted(Machine.State(7, 0, [0, 1], [], [])))
  {
    MoveLoopTable();
    MoveLoopRun();
  }

  /** The jump table of `++[-]` pairs positions 2 and 4. */
  lemma CountdownTable()
    ensures Brackets.Prepare("++[-]") == Success(map[2 := 4, 4 := 2])
  {
    CountdownScan();
  }

  /** The matcher's loop over `++[-]`, one character at a time. */
  lemma CountdownScan()
    ensures Brackets.Scan("++[-]", 0, [], map[]) == Success(map[2 := 4, 4 := 2])
  {
    var code := "++[-]";
    var t := map[2 := 4, 4 := 2];
    var e: map<int, int> := map[];
    assert e[4 := 2][2 := 4] == t;
    assert [('[', 2)][..0] == [] && [] + [('[', 2)] == [('[', 2)];
    assert Brackets.Scan(code, 5, [], t) == Success(t);
    assert Brackets.Scan(code, 4, [('[', 2)], map[]) == Success(t);
    assert Brackets.Scan(code, 3, [('[', 2)], map[]) == Success(t);
    assert Brackets.Scan(code, 2, [], map[]) == Success(t);
    assert Brackets.Scan(code, 1, [], map[]) == Success(t);
    assert Brackets.Scan(code, 0, [], map[]) == Success(t);
  }

  /** The seven instructions `++[-]` executes. The `]` at position 4 first sees
      the cell at 1 and jumps back to position 3, just past its `[`; the second
      time it sees 0 and falls through. */
  lemma CountdownSteps()
    ensures var code, t := "++[-]", map[2 := 4, 4 := 2];
      && Machine.TableInRange(code, t)
      && Machine.Step(code, t, Machine.State(0, 0, [0], [], [])) == Success(Machine.State(1, 0, [1], [], []))
      && Machine.Step(code, t, Machine.State(1, 0, [1], [], [])) == Success(Machine.State(2, 0, [2], [], []))
      && Machine.Step(code, t, Machine.State(2, 0, [2], [], [])) == Success(Machine.State(3, 0, [2], [], []))
      && Machine.Step(code, t, Machine.State(3, 0, [2], [], [])) == Success(Machine.State(4, 0, [1], [], []))
      && Machine.Step(code, t, Machine.State(4, 0, [1], [], [])) == Success(Machine.State(3, 0, [1], [], []))
      && Machine.Step(code, t, Machine.State(3, 0, [1], [], [])) == Success(Machine.State(4, 0, [0], [], []))
      && Machine.Step(code, t, Machine.State(4, 0, [0], [], [])) == Success(Machine.State(5, 0, [0], [], []))
  {
    var code, t := "++[-]", map[2 := 4, 4 := 2];
    assert Machine.Step(code, t, Machine.State(0, 0, [0], [], [])).value.data == [1];
    assert Machine.Step(code, t, Machine.State(1, 0, [1], [], [])).value.data == [2];
    assert Machine.Step(code, t, Machine.State(2, 0, [2], [], [])).value.data == [2];
    assert Machine.Step(code, t, Machine.State(3, 0, [2], [], [])).value.data == [1];
    assert Machine.Step(code, t, Machine.State(4, 0, [1], [], [])).value.data == [1];
    assert Machine.Step(code, t, Machine.State(3, 0, [1], [], [])).value.data == [0];
    assert Machine.Step(code, t, Machine.State(4, 0, [0], [], [])).value.data == [0];
  }

  /** Running `++[-]` with its table: the loop body runs twice, then the loop exits. */
  lemma CountdownRun()
    ensures var code, t := "++[-]", map[2 := 4, 4 := 2];
      Machine.TableInRange(code, t)
      && Machine.Run(code, t, Machine.Init([]), 7) == Machine.Halted(Machine.State(5, 0, [0], [], []))
  {
    var code, t := "++[-]", map[2 := 4, 4 := 2];
    CountdownSteps();
    assert Machine.Run(code, t, Machine.State(4, 0, [0], [], []), 1) == Machine.Halted(Machine.State(5, 0, [0], [], []));
    assert Machine.Run(code, t, Machine.State(3, 0, [1], [], []), 2) == Machine.Halted(Machine.State(5, 0, [0], [], []));
    assert Machine.Run(code, t, Machine.State(4, 0, [1], [], []), 3) == Machine.Halted(Machine.State(5, 0, [0], [], []));
    assert Machine.Run(code, t, Machine.State(3, 0, [2], [], []), 4) == Machine.Halted(Machine.State(5, 0, [0], [], []));
    assert Machine.Run(code, t, Machine.State(2, 0, [2], [], []), 5) == Machine.Halted(Machine.State(5, 0, [0], [], []));
    assert Machine.Run(code, t, Machine.State(1, 0, [1], [], []), 6) == Machine.Halted(Machine.State(5, 0, [0], [], []));
    assert Machine.Run(code, t, Machine.State(0, 0, [0], [], []), 7) == Machine.Halted(Machine.State(5, 0, [0], [], []));
  }

  /** `++[-]` counts the first cell down to zero, jumping back once from `]`. */
  lemma Countdown()
    ensures Execute("++[-]", [], 7) == Success(Machine.Halted(Machine.State(5, 0, [0], [], [])))
  {
    CountdownTable();
    CountdownRun();
  }

  /** A lone `]` is rejected before anything runs. */
  lemma LoneCloseRejected()
    ensures Execute("]", [], 1) == Failure(Brackets.PopFromEmptyList(0))
  {
  }

  /** A lone `[` is accepted with an empty table, and only fails when the loop
      test needs the missing entry. */
  lemma LoneOpenFailsLate()
    ensures Brackets.Prepare("[") == Success(map[])
    ensures Execute("[", [], 1) == Success(Machine.Crashed(Machine.MissingJumpTarget(0), Machine.Init([])))
  {
  }

  /** The empty program fails on its first instruction fetch. */
  lemma EmptyProgram()
    ensures Execute("", [], 1) == Success(Machine.Crashed(Machine.CodeIndexOutOfRange(0), Machine.Init([])))
  {
  }

  /** `<` on the first cell is refused. */
  lemma LeftOfFirstCell()
    ensures Execute("<", [], 1) == Success(Machine.Crashed(Machine.PointerBelowZero(0), Machine.Init([])))
  {
  }
}
