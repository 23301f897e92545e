/**
  The bracket matcher (`Interpreter._prepare`).

  The source scans the program once, left to right, with a stack of
  unmatched `[` positions, and records every matched pair in both
  directions in a dictionary. `Scan` is that loop, one character per call.

  `Depth` and `Match` are an independent, declarative description of which
  brackets belong together; `Prepare`'s contract says the table it builds is
  exactly that relation.
*/
module Brackets {
  import opened Results

  /** The ways the scan can fail. */
  datatype PrepareError =
    | PopFromEmptyList(pos: nat)    // `stack.pop()` on an empty list: a `]` with no open `[`
    | BracketSyntaxError(pos: nat)  // the popped entry is not tagged `[`; never happens

  /** A stack entry, as pushed by the source: a tag character and a position. */
  type Entry = (char, int)

  /* ---------- reference definitions ---------- */

  /** The change in nesting depth caused by one character. */
  function Delta(c: char): int {
    if c == '[' then 1 else if c == ']' then -1 else 0
  }

  /** The net nesting depth of `code[a..b]`: opens minus closes. */
  function Depth(code: string, a: int, b: int): int
    requires 0 <= a && b <= |code|
    decreases b - a
  {
    if b <= a then 0 else Depth(code, a, b - 1) + Delta(code[b - 1])
  }

  /** `[` at `j` and `]` at `i` belong together: the text strictly between them
      is balanced and never closes more than it opened. */
  ghost predicate Match(code: string, j: int, i: int) {
    && 0 <= j < i < |code|
    && code[j] == '['
    && code[i] == ']'
    && Depth(code, j + 1, i) == 0
    && NonNegativeFrom(code, j + 1, i)
  }

  /** Every prefix of `code[a..b]` has non-negative depth. */
  ghost predicate NonNegativeFrom(code: string, a: int, b: int)
    requires 0 <= a && b <= |code|
  {
    forall k :: a <= k <= b ==> Depth(code, a, k) >= 0
  }

  /** No prefix of the program closes more brackets than it opened. */
  ghost predicate NeverUnderflows(code: string) {
    forall k :: 0 <= k <= |code| ==> Depth(code, 0, k) >= 0
  }

  /** `p` is the first `]` that closes more brackets than were opened before it. */
  ghost predicate FirstUnderflow(code: string, p: int) {
    && 0 <= p < |code|
    && code[p] == ']'
    && Depth(code, 0, p + 1) < 0
    && forall k :: 0 <= k <= p ==> Depth(code, 0, k) >= 0
  }

  /** What a finished table promises: every key is a bracket position whose
      partner maps back to it, every entry is a matching pair in one of its two
      orientations, and every matching pair is recorded. */
  ghost predicate JumpTable(code: string, table: map<int, int>) {
    && (forall k :: k in table ==> 0 <= k < |code| && table[k] in table && table[table[k]] == k)
    && (forall k :: k in table ==>
          (k < table[k] && Match(code, k, table[k])) || (table[k] < k && Match(code, table[k], k)))
    && (forall j, i :: Match(code, j, i) ==> j in table && table[j] == i)
  }

  /** Every `]` of the program has a table entry. */
  ghost predicate ClosersRecorded(code: string, table: map<int, int>) {
    forall i :: 0 <= i < |code| && code[i] == ']' ==> i in table
  }

  /* ---------- facts about the reference definitions ---------- */

  /** Depth is additive over adjacent ranges. */
  lemma {:induction false} DepthSplit(code: string, a: int, b: int, c: int)
    requires 0 <= a <= b <= c <= |code|
    ensures Depth(code, a, c) == Depth(code, a, b) + Depth(code, b, c)
    decreases c - b
  {
    if c > b {
      DepthSplit(code, a, b, c - 1);
    }
  }

  /** An open bracket has at most one partner. */
  lemma MatchUniqueClose(code: string, j: int, i1: int, i2: int)
    requires Match(code, j, i1) && Match(code, j, i2)
    ensures i1 == i2
  {
    if i1 != i2 {
      var lo, hi := if i1 < i2 then i1 else i2, if i1 < i2 then i2 else i1;
      assert Depth(code, j + 1, lo + 1) < 0;
    }
  }

  /** A close bracket has at most one partner. */
  lemma MatchUniqueOpen(code: string, j1: int, j2: int, i: int)
    requires Match(code, j1, i) && Match(code, j2, i)
    ensures j1 == j2
  {
    if j1 < j2 {
      OpenInsideIsPositive(code, j1, j2, i);
    } else if j2 < j1 {
      OpenInsideIsPositive(code, j2, j1, i);
    }
  }

  /** If `[` at `j1` encloses a `[` at `j2` that is still open at `i`, the range
      after `j1` up to `i` is not balanced. */
  lemma OpenInsideIsPositive(code: string, j1: int, j2: int, i: int)
    requires 0 <= j1 < j2 < i < |code| && code[j2] == '['
    requires NonNegativeFrom(code, j1 + 1, i) && NonNegativeFrom(code, j2 + 1, i)
    ensures Depth(code, j1 + 1, i) >= 1
  {
    DepthSplit(code, j1 + 1, j2, i);
    DepthSplit(code, j2, j2 + 1, i);
    assert Depth(code, j1 + 1, j2) >= 0;
    assert Depth(code, j2 + 1, i) >= 0;
  }

  /** Two matching pairs never cross: they are disjoint or one lies inside the other. */
  lemma MatchesNest(code: string, j1: int, i1: int, j2: int, i2: int)
    requires Match(code, j1, i1) && Match(code, j2, i2) && j1 < j2
    ensures i1 < j2 || i2 < i1
  {
    if j2 < i1 && i1 <= i2 {
      if i1 == i2 {
        MatchUniqueOpen(code, j1, j2, i1);
      } else {
        OpenInsideIsPositive(code, j1, j2, i1);
      }
    }
  }

  /* ---------- the scan ---------- */

  /** One step of the source's `for i, c in enumerate(self.code)` loop per call:
      push on `[`, pop and record both directions on `]`, skip anything else. */
  function Scan(code: string, i: nat, stack: seq<Entry>, table: map<int, int>): (r: Result<map<int, int>, PrepareError>)
    requires i <= |code|
    ensures r.Success? ==> table.Keys <= r.value.Keys
    decreases |code| - i
  {
    if i == |code| then
      Success(table)
    else if code[i] == '[' then
      Scan(code, i + 1, stack + [('[', i)], table)
    else if code[i] == ']' then
      if |stack| == 0 then
        Failure(PopFromEmptyList(i))
      else
        var (bracket, j) := stack[|stack| - 1];
        if bracket != '[' then
          Failure(BracketSyntaxError(i))
        else
          Scan(code, i + 1, stack[..|stack| - 1], table[i := j][j := i])
    else
      Scan(code, i + 1, stack, table)
  }

  /** The loop invariant of the scan after `n` characters: the stack holds
      exactly the still-open `[` positions, and the table is complete so far. */
  ghost predicate ScanInv(code: string, n: int, stack: seq<Entry>, table: map<int, int>) {
    && 0 <= n <= |code|
    && StackInv(code, n, stack, table)
    && TableInv(code, n, table)
  }

  /** Every stack entry is a `[` without a table entry, and the text after the
      entry at height `m` has depth equal to the number of entries above it. */
  ghost predicate StackInv(code: string, n: int, stack: seq<Entry>, table: map<int, int>)
    requires 0 <= n <= |code|
  {
    && (forall m :: 0 <= m < |stack| ==>
          && stack[m].0 == '['
          && 0 <= stack[m].1 < n
          && code[stack[m].1] == '['
          && stack[m].1 !in table)
    && |stack| == Depth(code, 0, n)
    && (forall k :: 0 <= k <= n ==> Depth(code, 0, k) >= 0)
    && (forall m :: 0 <= m < |stack| ==> Depth(code, stack[m].1 + 1, n) == |stack| - 1 - m)
    && (forall m :: 0 <= m < |stack| ==> NonNegativeFrom(code, stack[m].1 + 1, n))
  }

  /** The table records exactly the matching pairs that close before `n`, in
      both directions, and every `]` before `n`. */
  ghost predicate TableInv(code: string, n: int, table: map<int, int>)
    requires 0 <= n <= |code|
  {
    && (forall k :: k in table ==> 0 <= k < n && table[k] in table && table[table[k]] == k)
    && (forall k :: k in table ==>
          (k < table[k] && Match(code, k, table[k])) || (table[k] < k && Match(code, table[k], k)))
    && (forall j, i :: i < n && Match(code, j, i) ==> j in table && table[j] == i)
    && (forall i :: 0 <= i < n && code[i] == ']' ==> i in table)
  }

  /** Recording the pair closed at `n` keeps the table invariant. */
  lemma TableStepPop(code: string, n: int, j: int, table: map<int, int>)
    requires 0 <= n < |code| && TableInv(code, n, table)
    requires Match(code, j, n) && j !in table
    ensures TableInv(code, n + 1, table[n := j][j := n])
  {
    var table' := table[n := j][j := n];
    forall j0, i0 | i0 < n + 1 && Match(code, j0, i0)
      ensures j0 in table' && table'[j0] == i0
    {
      if i0 == n {
        MatchUniqueOpen(code, j0, j, n);
      }
    }
  }

  lemma ScanInvInit(code: string)
    ensures ScanInv(code, 0, [], map[])
  {
  }

  /** Any character other than a bracket keeps the invariant. */
  lemma ScanStepSkip(code: string, n: int, stack: seq<Entry>, table: map<int, int>)
    requires ScanInv(code, n, stack, table) && n < |code|
    requires code[n] != '[' && code[n] != ']'
    ensures ScanInv(code, n + 1, stack, table)
  {
    forall m | 0 <= m < |stack|
      ensures Depth(code, stack[m].1 + 1, n + 1) == |stack| - 1 - m
      ensures NonNegativeFrom(code, stack[m].1 + 1, n + 1)
    {
      assert Depth(code, stack[m].1 + 1, n + 1) == Depth(code, stack[m].1 + 1, n);
    }
    assert Depth(code, 0, n + 1) == Depth(code, 0, n);
    forall j, i | i < n + 1 && Match(code, j, i)
      ensures j in table && table[j] == i
    {
      assert i != n;
    }
  }

  /** Pushing `('[', n)` keeps the invariant. */
  lemma ScanStepPush(code: string, n: int, stack: seq<Entry>, table: map<int, int>)
    requires ScanInv(code, n, stack, table) && n < |code|
    requires code[n] == '['
    ensures ScanInv(code, n + 1, stack + [('[', n)], table)
  {
    var stack' := stack + [('[', n)];
    forall m | 0 <= m < |stack'|
      ensures Depth(code, stack'[m].1 + 1, n + 1) == |stack'| - 1 - m
    {
      if m < |stack| {
        assert Depth(code, stack[m].1 + 1, n + 1) == Depth(code, stack[m].1 + 1, n) + 1;
      }
    }
    forall m | 0 <= m < |stack'|
      ensures NonNegativeFrom(code, stack'[m].1 + 1, n + 1)
    {
      if m < |stack| {
        assert Depth(code, stack[m].1 + 1, n + 1) == Depth(code, stack[m].1 + 1, n) + 1;
      }
    }
    assert Depth(code, 0, n + 1) == Depth(code, 0, n) + 1;
    forall j, i | i < n + 1 && Match(code, j, i)
      ensures j in table && table[j] == i
    {
      assert i != n;
    }
  }

  /** Popping the top `[` at a `]` and recording the pair keeps the invariant. */
  lemma ScanStepPop(code: string, n: int, stack: seq<Entry>, table: map<int, int>)
    requires ScanInv(code, n, stack, table) && n < |code|
    requires code[n] == ']' && |stack| > 0
    ensures stack[|stack| - 1].0 == '['
    ensures ScanInv(code, n + 1, stack[..|stack| - 1], table[n := stack[|stack| - 1].1][stack[|stack| - 1].1 := n])
  {
    var last := |stack| - 1;
    var j := stack[last].1;
    var stack' := stack[..last];
    var table' := table[n := j][j := n];
    assert Match(code, j, n);
    TableStepPop(code, n, j, table);
    forall m | 0 <= m < |stack'|
      ensures Depth(code, stack'[m].1 + 1, n + 1) == |stack'| - 1 - m
      ensures NonNegativeFrom(code, stack'[m].1 + 1, n + 1)
      ensures stack'[m].1 !in table'
    {
      assert Depth(code, stack[m].1 + 1, n + 1) == Depth(code, stack[m].1 + 1, n) - 1;
      assert stack[m].1 != j;
    }
    assert Depth(code, 0, n + 1) == Depth(code, 0, n) - 1;
    assert StackInv(code, n + 1, stack', table');
  }

  /** The scan, started in a state satisfying the invariant, either builds a
      complete jump table or stops at the first `]` that has nothing to close. */
  lemma {:induction false} ScanCorrect(code: string, n: nat, stack: seq<Entry>, table: map<int, int>)
    requires ScanInv(code, n, stack, table)
    ensures Scan(code, n, stack, table).Failure? ==>
              && Scan(code, n, stack, table).error.PopFromEmptyList?
              && FirstUnderflow(code, Scan(code, n, stack, table).error.pos)
    ensures Scan(code, n, stack, table).Success? ==>
              && JumpTable(code, Scan(code, n, stack, table).value)
              && ClosersRecorded(code, Scan(code, n, stack, table).value)
              && NeverUnderflows(code)
    decreases |code| - n
  {
    if n == |code| {
    } else if code[n] == '[' {
      ScanStepPush(code, n, stack, table);
      ScanCorrect(code, n + 1, stack + [('[', n)], table);
    } else if code[n] == ']' {
      if |stack| == 0 {
        assert Depth(code, 0, n + 1) == -1;
      } else {
        var j := stack[|stack| - 1].1;
        ScanStepPop(code, n, stack, table);
        ScanCorrect(code, n + 1, stack[..|stack| - 1], table[n := j][j := n]);
      }
    } else {
      ScanStepSkip(code, n, stack, table);
      ScanCorrect(code, n + 1, stack, table);
    }
  }

  /** `Interpreter._prepare`: the jump table of a program, or the failure of an
      unmatched `]`. An unmatched `[` is not an error; it gets no entry. */
  function Prepare(code: string): (r: Result<map<int, int>, PrepareError>)
    ensures r.Success? <==> NeverUnderflows(code)
    ensures r.Failure? ==> r.error.PopFromEmptyList? && FirstUnderflow(code, r.error.pos)
    ensures r.Success? ==> JumpTable(code, r.value) && ClosersRecorded(code, r.value)
  {
    ScanInvInit(code);
    ScanCorrect(code, 0, [], map[]);
    Scan(code, 0, [], map[])
  }

  /* ---------- consequences for a finished table ---------- */

  /** Only bracket positions are keys, and each is paired with the opposite
      kind of bracket on the correct side. */
  lemma TableOrientation(code: string, table: map<int, int>, k: int)
    requires JumpTable(code, table) && k in table
    ensures code[k] == '[' ==> k < table[k] < |code| && code[table[k]] == ']'
    ensures code[k] == ']' ==> 0 <= table[k] < k && code[table[k]] == '['
    ensures code[k] == '[' || code[k] == ']'
  {
  }

  /** Two recorded pairs are either disjoint or properly nested. */
  lemma TableNests(code: string, table: map<int, int>, a: int, b: int)
    requires JumpTable(code, table)
    requires a in table && b in table && a < table[a] && b < table[b] && a < b
    ensures table[a] < b || table[b] < table[a]
  {
    MatchesNest(code, a, table[a], b, table[b]);
  }

  /** An open bracket has an entry exactly when some close bracket matches it;
      an unmatched `[` is silently left out. */
  lemma UnmatchedOpenHasNoEntry(code: string, table: map<int, int>, j: int)
    requires JumpTable(code, table) && 0 <= j < |code| && code[j] == '['
    ensures j in table <==> exists i :: Match(code, j, i)
  {
    if j in table {
      assert Match(code, j, table[j]);
    }
  }

  /** A range that ends below zero depth contains a first `]` that closes one
      more bracket than the range opened before it. */
  lemma {:induction false} FirstClose(code: string, a: int, b: int) returns (k: int)
    requires 0 <= a <= b <= |code| && Depth(code, a, b) < 0
    ensures a <= k < b && code[k] == ']'
    ensures Depth(code, a, k) == 0 && NonNegativeFrom(code, a, k)
    decreases b - a, b
  {
    if NonNegativeFrom(code, a, b - 1) {
      k := b - 1;
    } else {
      var k' :| a <= k' <= b - 1 && Depth(code, a, k') < 0;
      k := FirstClose(code, a, k');
    }
  }

  /** In a balanced program that the matcher accepts, every bracket has a table
      entry, so no `[` is left unmatched. */
  lemma BalancedEveryBracketPaired(code: string, table: map<int, int>, j: int)
    requires Prepare(code) == Success(table) && Depth(code, 0, |code|) == 0
    requires 0 <= j < |code| && (code[j] == '[' || code[j] == ']')
    ensures j in table
  {
    if code[j] == '[' {
      DepthSplit(code, 0, j, |code|);
      DepthSplit(code, j, j + 1, |code|);
      assert Depth(code, 0, j) >= 0;
      var i := FirstClose(code, j + 1, |code|);
      assert Match(code, j, i);
    }
  }

  /** The popped entry is always tagged `[`, so the syntax-error branch of the
      source can never be taken. */
  lemma NoBracketSyntaxError(code: string)
    ensures !(Prepare(code).Failure? && Prepare(code).error.BracketSyntaxError?)
  {
  }
}
