/**
 Edit distance between two rune strings: the two-row and the full-table dynamic
 programs, the script that is traced back through the table, and the similarity ratio.

 The table is specified by the recurrence `Cell`; what a cell means is stated
 independently of it, by the edit scripts that turn one prefix into another (`Turns`).
 */
module Levenshtein {

  type Rune = int

  datatype EditOperation = Ins | Del | Sub | Match

  type EditScript = seq<EditOperation>

  datatype Options = Options(insCost: int, delCost: int, subCost: int, matchFunction: (Rune, Rune) -> bool) {
    predicate Matches(a: Rune, b: Rune) {
      matchFunction(a, b)
    }
  }

  const DEFAULT_OPTIONS := Options(1, 1, 2, (a: Rune, b: Rune) => a == b)

  function Min(a: int, b: int): int {
    if b < a then b else a
  }

  // ----- What a table cell is -----

  /** The recurrence of the table: row 0 and column 0 hold plain indices. */
  ghost function Cell(s: seq<Rune>, t: seq<Rune>, op: Options, i: nat, j: nat): int
    requires i <= |s| && j <= |t|
    decreases i + j
  {
    if i == 0 then j
    else if j == 0 then i
    else
      var matchSub := Cell(s, t, op, i - 1, j - 1) + if op.Matches(s[i - 1], t[j - 1]) then 0 else op.subCost;
      Min(Cell(s, t, op, i - 1, j) + op.delCost, Min(matchSub, Cell(s, t, op, i, j - 1) + op.insCost))
  }

  /** `script` turns the first i runes of s into the first j runes of t: Match stands only on
      runes that match, Sub only on runes that do not. */
  ghost predicate Turns(script: EditScript, s: seq<Rune>, i: nat, t: seq<Rune>, j: nat, op: Options)
    requires i <= |s| && j <= |t|
    decreases |script|
  {
    if script == [] then i == 0 && j == 0
    else
      var init := script[..|script| - 1];
      match script[|script| - 1]
      case Ins => j > 0 && Turns(init, s, i, t, j - 1, op)
      case Del => i > 0 && Turns(init, s, i - 1, t, j, op)
      case Sub => i > 0 && j > 0 && !op.Matches(s[i - 1], t[j - 1]) && Turns(init, s, i - 1, t, j - 1, op)
      case Match => i > 0 && j > 0 && op.Matches(s[i - 1], t[j - 1]) && Turns(init, s, i - 1, t, j - 1, op)
  }

  ghost function OpCost(e: EditOperation, op: Options): int {
    match e
    case Ins => op.insCost
    case Del => op.delCost
    case Sub => op.subCost
    case Match => 0
  }

  ghost function Cost(script: EditScript, op: Options): int {
    if script == [] then 0 else Cost(script[..|script| - 1], op) + OpCost(script[|script| - 1], op)
  }

  /** c is the least cost of a script between the two prefixes: no script is cheaper, and one attains it. */
  ghost predicate IsLeastCost(c: int, s: seq<Rune>, i: nat, t: seq<Rune>, j: nat, op: Options)
    requires i <= |s| && j <= |t|
  {
    && (forall script :: Turns(script, s, i, t, j, op) ==> c <= Cost(script, op))
    && exists script :: Turns(script, s, i, t, j, op) && Cost(script, op) == c
  }

  ghost predicate UnitInsDel(op: Options) {
    op.insCost == 1 && op.delCost == 1
  }

  // ----- The two dynamic programs -----

  /** Row i of the table. */
  ghost function CellRow(s: seq<Rune>, i: nat, t: seq<Rune>, op: Options): (cells: seq<int>)
    requires i <= |s|
    ensures |cells| == |t| + 1
  {
    seq(|t| + 1, k requires 0 <= k <= |t| => Cell(s, t, op, i, k))
  }

  lemma NextCell(s: seq<Rune>, i: nat, t: seq<Rune>, j: nat, op: Options)
    requires i < |s| && j < |t|
    ensures
      var above, cells := CellRow(s, i, t, op), CellRow(s, i + 1, t, op);
      && cells[0] == i + 1
      && cells[j + 1] == Min(above[j + 1] + op.delCost,
                             Min(above[j] + if op.Matches(s[i], t[j]) then 0 else op.subCost, cells[j] + op.insCost))
  {
  }

  method DistanceForStrings(source: seq<Rune>, target: seq<Rune>, op: Options) returns (d: int)
    ensures d == Cell(source, target, op, |source|, |target|)
  {
    var n := |target|;
    var row0, row1 := new int[n + 1](_ => 0), new int[n + 1](_ => 0);
    var matrix := [row0, row1];
    for i := 0 to 2
      invariant forall k :: 0 <= k < i ==> matrix[k][0] == k
    {
      matrix[i][0] := i;
    }
    for j := 0 to n
      invariant forall k :: 0 <= k <= j ==> matrix[0][k] == k
    {
      matrix[0][j + 1] := j + 1;
    }
    for sourceIndex := 0 to |source|
      invariant forall k :: 0 <= k <= n ==> matrix[sourceIndex % 2][k] == CellRow(source, sourceIndex, target, op)[k]
    {
      var row := sourceIndex + 1;
      var cur, prev := matrix[row % 2], matrix[(row - 1) % 2];
      ghost var above, cells := CellRow(source, sourceIndex, target, op), CellRow(source, row, target, op);
      assert cur != prev;
      cur[0] := row;
      for targetIndex := 0 to n
        invariant forall k :: 0 <= k <= n ==> prev[k] == above[k]
        invariant forall k :: 0 <= k <= targetIndex ==> cur[k] == cells[k]
      {
        NextCell(source, sourceIndex, target, targetIndex, op);
        var column := targetIndex + 1;
        var delCost := prev[column] + op.delCost;
        var matchSubCost := prev[column - 1];
        if !op.Matches(source[sourceIndex], target[targetIndex]) {
          matchSubCost := matchSubCost + op.subCost;
        }
        var insCost := cur[column - 1] + op.insCost;
        cur[column] := Min(delCost, Min(matchSubCost, insCost));
      }
    }
    d := matrix[|source| % 2][n];
  }

  /** The full table of the two strings. */
  ghost predicate IsTable(matrix: array2<int>, s: seq<Rune>, t: seq<Rune>, op: Options)
    reads matrix
  {
    && matrix.Length0 == |s| + 1
    && matrix.Length1 == |t| + 1
    && forall i, j {:trigger matrix[i, j]} :: 0 <= i <= |s| && 0 <= j <= |t| ==> matrix[i, j] == Cell(s, t, op, i, j)
  }

  method MatrixForStrings(source: seq<Rune>, target: seq<Rune>, op: Options) returns (matrix: array2<int>)
    ensures fresh(matrix)
    ensures IsTable(matrix, source, target, op)
  {
    var height, width := |source| + 1, |target| + 1;
    matrix := new int[height, width]((_, _) => 0);
    for i := 0 to height
      invariant forall k :: 0 <= k < i ==> matrix[k, 0] == k
    {
      matrix[i, 0] := i;
    }
    for j := 1 to width
      invariant forall k :: 0 <= k < height ==> matrix[k, 0] == k
      invariant forall k :: 0 <= k < j ==> matrix[0, k] == k
    {
      matrix[0, j] := j;
    }
    for i := 1 to height
      invariant forall k :: 0 <= k < height ==> matrix[k, 0] == k
      invariant forall k, l {:trigger matrix[k, l]} ::
        0 <= k < i && 0 <= l < width ==> matrix[k, l] == Cell(source, target, op, k, l)
    {
      for j := 1 to width
        invariant forall k :: 0 <= k < height ==> matrix[k, 0] == k
        invariant forall k, l {:trigger matrix[k, l]} ::
          0 <= k < i && 0 <= l < width ==> matrix[k, l] == Cell(source, target, op, k, l)
        invariant forall l {:trigger matrix[i, l]} :: 0 <= l < j ==> matrix[i, l] == Cell(source, target, op, i, l)
      {
        var delCost := matrix[i - 1, j] + op.delCost;
        var matchSubCost := matrix[i - 1, j - 1];
        if !op.Matches(source[i - 1], target[j - 1]) {
          matchSubCost := matchSubCost + op.subCost;
        }
        var insCost := matrix[i, j - 1] + op.insCost;
        matrix[i, j] := Min(delCost, Min(matchSubCost, insCost));
      }
    }
  }

  function DistanceForMatrix(matrix: array2<int>): (d: int)
    requires matrix.Length0 > 0 && matrix.Length1 > 0
    reads matrix
  {
    matrix[matrix.Length0 - 1, matrix.Length1 - 1]
  }

  function RatioForMatrix(matrix: array2<int>): (r: real)
    requires matrix.Length0 > 0 && matrix.Length1 > 0
    reads matrix
  {
    Ratio(matrix.Length0 - 1 + matrix.Length1 - 1, DistanceForMatrix(matrix))
  }

  function Ratio(sum: nat, dist: int): real {
    if sum == 0 then 0.0 else (sum - dist) as real / sum as real
  }

  function Backtrace(i: nat, j: nat, matrix: array2<int>, op: Options): (script: EditScript)
    requires i < matrix.Length0 && j < matrix.Length1
    reads matrix
    decreases i + j
  {
    if i > 0 && matrix[i - 1, j] + op.delCost == matrix[i, j] then
      Backtrace(i - 1, j, matrix, op) + [Del]
    else if j > 0 && matrix[i, j - 1] + op.insCost == matrix[i, j] then
      Backtrace(i, j - 1, matrix, op) + [Ins]
    else if i > 0 && j > 0 && matrix[i - 1, j - 1] + op.subCost == matrix[i, j] then
      Backtrace(i - 1, j - 1, matrix, op) + [Sub]
    else if i > 0 && j > 0 && matrix[i - 1, j - 1] == matrix[i, j] then
      Backtrace(i - 1, j - 1, matrix, op) + [Match]
    else []
  }

  // ----- A cell is the least cost of an edit script -----

  lemma {:induction false} NoScriptIsCheaper(script: EditScript, s: seq<Rune>, i: nat, t: seq<Rune>, j: nat, op: Options)
    requires UnitInsDel(op)
    requires i <= |s| && j <= |t|
    requires Turns(script, s, i, t, j, op)
    ensures Cell(s, t, op, i, j) <= Cost(script, op)
    decreases |script|
  {
    if script != [] {
      var init := script[..|script| - 1];
      match script[|script| - 1]
      case Ins => NoScriptIsCheaper(init, s, i, t, j - 1, op);
      case Del => NoScriptIsCheaper(init, s, i - 1, t, j, op);
      case Sub => NoScriptIsCheaper(init, s, i - 1, t, j - 1, op);
      case Match => NoScriptIsCheaper(init, s, i - 1, t, j - 1, op);
    }
  }

  ghost predicate IsOptimal(script: EditScript, s: seq<Rune>, i: nat, t: seq<Rune>, j: nat, op: Options)
    requires i <= |s| && j <= |t|
  {
    Turns(script, s, i, t, j, op) && Cost(script, op) == Cell(s, t, op, i, j)
  }

  /** The operation that explains a cell other than the origin: a deletion if one does, else an insertion
      if one does, else the diagonal step. */
  ghost function LastOp(s: seq<Rune>, i: nat, t: seq<Rune>, j: nat, op: Options): (last: EditOperation)
    requires UnitInsDel(op)
    requires i <= |s| && j <= |t| && i + j > 0
    ensures last != Ins ==> i > 0
    ensures last != Del ==> j > 0
    ensures last == Match ==> op.Matches(s[i - 1], t[j - 1])
    ensures last == Sub ==> !op.Matches(s[i - 1], t[j - 1])
    ensures Cell(s, t, op, i, j) == Cell(s, t, op, Row(i, last), Column(j, last)) + OpCost(last, op)
  {
    if i > 0 && Cell(s, t, op, i - 1, j) + 1 == Cell(s, t, op, i, j) then Del
    else if j > 0 && Cell(s, t, op, i, j - 1) + 1 == Cell(s, t, op, i, j) then Ins
    else if op.Matches(s[i - 1], t[j - 1]) then Match
    else Sub
  }

  ghost function Row(i: nat, last: EditOperation): nat
    requires last != Ins ==> i > 0
  {
    if last == Ins then i else i - 1
  }

  ghost function Column(j: nat, last: EditOperation): nat
    requires last != Del ==> j > 0
  {
    if last == Del then j else j - 1
  }

  lemma Extend(init: EditScript, s: seq<Rune>, i: nat, t: seq<Rune>, j: nat, op: Options)
    requires UnitInsDel(op)
    requires i <= |s| && j <= |t| && i + j > 0
    requires
      var last := LastOp(s, i, t, j, op);
      IsOptimal(init, s, Row(i, last), t, Column(j, last), op)
    ensures IsOptimal(init + [LastOp(s, i, t, j, op)], s, i, t, j, op)
  {
    var last := LastOp(s, i, t, j, op);
    assert (init + [last])[..|init|] == init;
  }

  lemma {:induction false} CheapestScript(s: seq<Rune>, i: nat, t: seq<Rune>, j: nat, op: Options) returns (script: EditScript)
    requires UnitInsDel(op)
    requires i <= |s| && j <= |t|
    ensures IsOptimal(script, s, i, t, j, op)
    decreases i + j
  {
    if i + j == 0 {
      script := [];
    } else {
      var last := LastOp(s, i, t, j, op);
      var init := CheapestScript(s, Row(i, last), t, Column(j, last), op);
      Extend(init, s, i, t, j, op);
      script := init + [last];
    }
  }

  lemma CellIsLeastCost(s: seq<Rune>, i: nat, t: seq<Rune>, j: nat, op: Options)
    requires UnitInsDel(op)
    requires i <= |s| && j <= |t|
    ensures IsLeastCost(Cell(s, t, op, i, j), s, i, t, j, op)
  {
    forall script | Turns(script, s, i, t, j, op)
      ensures Cell(s, t, op, i, j) <= Cost(script, op)
    {
      NoScriptIsCheaper(script, s, i, t, j, op);
    }
    var _ := CheapestScript(s, i, t, j, op);
  }

  /** The table is right on every pair of strings. */
  ghost predicate TableIsLeastCostEverywhere(op: Options) {
    forall s: seq<Rune>, t: seq<Rune>, i: nat, j: nat :: i <= |s| && j <= |t| ==>
      IsLeastCost(Cell(s, t, op, i, j), s, i, t, j, op)
  }

  /** The boundary rows hold plain indices whatever the options say, so the table is right exactly for unit costs. */
  lemma TableIsLeastCostIffUnitInsDel(op: Options)
    ensures TableIsLeastCostEverywhere(op) <==> UnitInsDel(op)
  {
    if UnitInsDel(op) {
      forall s: seq<Rune>, t: seq<Rune>, i: nat, j: nat | i <= |s| && j <= |t|
        ensures IsLeastCost(Cell(s, t, op, i, j), s, i, t, j, op)
      {
        CellIsLeastCost(s, i, t, j, op);
      }
    }
    if TableIsLeastCostEverywhere(op) {
      assert IsLeastCost(Cell([], [0], op, 0, 1), [], 0, [0], 1, op);
      var ins :| Turns(ins, [], 0, [0], 1, op) && Cost(ins, op) == 1;
      OnlyInsertions(ins, [0], 1, op);
      assert IsLeastCost(Cell([0], [], op, 1, 0), [0], 1, [], 0, op);
      var del :| Turns(del, [0], 1, [], 0, op) && Cost(del, op) == 1;
      OnlyDeletions(del, [0], 1, op);
    }
  }

  lemma {:induction false} OnlyInsertions(script: EditScript, t: seq<Rune>, j: nat, op: Options)
    requires j <= |t| && Turns(script, [], 0, t, j, op)
    ensures Cost(script, op) == j * op.insCost
    decreases |script|
  {
    if script != [] {
      OnlyInsertions(script[..|script| - 1], t, j - 1, op);
    }
  }

  lemma {:induction false} OnlyDeletions(script: EditScript, s: seq<Rune>, i: nat, op: Options)
    requires i <= |s| && Turns(script, s, i, [], 0, op)
    ensures Cost(script, op) == i * op.delCost
    decreases |script|
  {
    if script != [] {
      OnlyDeletions(script[..|script| - 1], s, i - 1, op);
    }
  }

  // ----- The traced-back script -----

  lemma BacktraceFollowsLastOp(s: seq<Rune>, i: nat, t: seq<Rune>, j: nat, matrix: array2<int>, op: Options)
    requires UnitInsDel(op) && op.subCost != 0
    requires IsTable(matrix, s, t, op)
    requires i <= |s| && j <= |t| && i + j > 0
    ensures
      var last := LastOp(s, i, t, j, op);
      Backtrace(i, j, matrix, op) == Backtrace(Row(i, last), Column(j, last), matrix, op) + [last]
  {
    if i > 0 {
      assert matrix[i - 1, j] == Cell(s, t, op, i - 1, j);
    }
    if j > 0 {
      assert matrix[i, j - 1] == Cell(s, t, op, i, j - 1);
    }
  }

  /** The trace stops only at the origin, with a correctly labelled script of least cost. */
  lemma {:induction false} BacktraceIsOptimal(s: seq<Rune>, i: nat, t: seq<Rune>, j: nat, matrix: array2<int>, op: Options)
    requires UnitInsDel(op) && op.subCost != 0
    requires IsTable(matrix, s, t, op)
    requires i <= |s| && j <= |t|
    ensures IsOptimal(Backtrace(i, j, matrix, op), s, i, t, j, op)
    decreases i + j
  {
    if i + j > 0 {
      var last := LastOp(s, i, t, j, op);
      BacktraceFollowsLastOp(s, i, t, j, matrix, op);
      BacktraceIsOptimal(s, Row(i, last), t, Column(j, last), matrix, op);
      Extend(Backtrace(Row(i, last), Column(j, last), matrix, op), s, i, t, j, op);
    } else {
      assert IsOptimal([], s, 0, t, 0, op);
    }
  }

  /** With free substitutions the Sub test hides the Match test, so no Match is ever emitted. */
  lemma {:induction false} FreeSubstitutionHidesMatch(i: nat, j: nat, matrix: array2<int>, op: Options)
    requires i < matrix.Length0 && j < matrix.Length1
    requires op.subCost == 0
    ensures Match !in Backtrace(i, j, matrix, op)
    decreases i + j
  {
    if i > 0 && matrix[i - 1, j] + op.delCost == matrix[i, j] {
      FreeSubstitutionHidesMatch(i - 1, j, matrix, op);
    } else if j > 0 && matrix[i, j - 1] + op.insCost == matrix[i, j] {
      FreeSubstitutionHidesMatch(i, j - 1, matrix, op);
    } else if i > 0 && j > 0 && matrix[i - 1, j - 1] + op.subCost == matrix[i, j] {
      FreeSubstitutionHidesMatch(i - 1, j - 1, matrix, op);
    }
  }

  function Difference(i: nat, j: nat): nat {
    if i < j then j - i else i - j
  }

  /** With free substitutions a cell counts the difference of the lengths only. */
  lemma {:induction false} FreeCell(s: seq<Rune>, i: nat, t: seq<Rune>, j: nat, op: Options)
    requires UnitInsDel(op) && op.subCost == 0
    requires i <= |s| && j <= |t|
    ensures Cell(s, t, op, i, j) == Difference(i, j)
    decreases i + j
  {
    if i > 0 && j > 0 {
      FreeCell(s, i - 1, t, j, op);
      FreeCell(s, i, t, j - 1, op);
      FreeCell(s, i - 1, t, j - 1, op);
    }
  }

  ghost predicate IsDifferenceTable(matrix: array2<int>)
    reads matrix
  {
    forall i, j {:trigger matrix[i, j]} ::
      0 <= i < matrix.Length0 && 0 <= j < matrix.Length1 ==> matrix[i, j] == Difference(i, j)
  }

  lemma FreeTable(matrix: array2<int>, s: seq<Rune>, t: seq<Rune>, op: Options)
    requires UnitInsDel(op) && op.subCost == 0
    requires IsTable(matrix, s, t, op)
    ensures IsDifferenceTable(matrix)
  {
    forall i: nat, j: nat | i <= |s| && j <= |t|
      ensures matrix[i, j] == Difference(i, j)
    {
      FreeCell(s, i, t, j, op);
    }
  }

  /** No rune matches the one at the same place. */
  ghost predicate NoneMatchesInPlace(s: seq<Rune>, i: nat, t: seq<Rune>, j: nat, op: Options)
    requires i <= |s| && j <= |t|
  {
    forall k :: 0 <= k < i && k < j ==> !op.Matches(s[k], t[k])
  }

  /** What is longer is dropped at the end; everything before it is called a substitution. */
  ghost function FreeOp(i: nat, j: nat): (last: EditOperation)
    ensures i + j > 0 ==> (last != Ins ==> i > 0) && (last != Del ==> j > 0)
  {
    if j < i then Del else if i < j then Ins else Sub
  }

  lemma FreeBacktraceFollows(i: nat, j: nat, matrix: array2<int>, op: Options)
    requires UnitInsDel(op) && op.subCost == 0
    requires IsDifferenceTable(matrix)
    requires i < matrix.Length0 && j < matrix.Length1 && i + j > 0
    ensures
      var last := FreeOp(i, j);
      Backtrace(i, j, matrix, op) == Backtrace(Row(i, last), Column(j, last), matrix, op) + [last]
  {
  }

  lemma ExtendFree(init: EditScript, s: seq<Rune>, i: nat, t: seq<Rune>, j: nat, op: Options)
    requires UnitInsDel(op) && op.subCost == 0
    requires i <= |s| && j <= |t| && i + j > 0
    ensures
      var last := FreeOp(i, j);
      && Cost(init + [last], op) == Cost(init, op) + (if i == j then 0 else 1)
      && (Turns(init + [last], s, i, t, j, op) <==>
            Turns(init, s, Row(i, last), t, Column(j, last), op) && (i == j ==> !op.Matches(s[i - 1], t[j - 1])))
  {
    var last := FreeOp(i, j);
    assert (init + [last])[..|init|] == init;
  }

  lemma {:induction false} FreeBacktrace(s: seq<Rune>, i: nat, t: seq<Rune>, j: nat, matrix: array2<int>, op: Options)
    requires UnitInsDel(op) && op.subCost == 0
    requires IsDifferenceTable(matrix) && matrix.Length0 == |s| + 1 && matrix.Length1 == |t| + 1
    requires i <= |s| && j <= |t|
    ensures Turns(Backtrace(i, j, matrix, op), s, i, t, j, op) <==> NoneMatchesInPlace(s, i, t, j, op)
    ensures Cost(Backtrace(i, j, matrix, op), op) == Difference(i, j)
    decreases i + j
  {
    if i + j > 0 {
      var last := FreeOp(i, j);
      FreeBacktraceFollows(i, j, matrix, op);
      FreeBacktrace(s, Row(i, last), t, Column(j, last), matrix, op);
      ExtendFree(Backtrace(Row(i, last), Column(j, last), matrix, op), s, i, t, j, op);
    }
  }

  /** With unit costs the trace is a correct script of least cost exactly if substitutions are not free, or no rune
      matches the one at the same place. */
  lemma BacktraceIsOptimalIff(s: seq<Rune>, i: nat, t: seq<Rune>, j: nat, matrix: array2<int>, op: Options)
    requires UnitInsDel(op) && IsTable(matrix, s, t, op)
    requires i <= |s| && j <= |t|
    ensures IsOptimal(Backtrace(i, j, matrix, op), s, i, t, j, op) <==>
      op.subCost != 0 || NoneMatchesInPlace(s, i, t, j, op)
  {
    if op.subCost != 0 {
      BacktraceIsOptimal(s, i, t, j, matrix, op);
    } else {
      FreeTable(matrix, s, t, op);
      FreeCell(s, i, t, j, op);
      FreeBacktrace(s, i, t, j, matrix, op);
    }
  }

  method EditScriptForStrings(source: seq<Rune>, target: seq<Rune>, op: Options) returns (script: EditScript)
    ensures UnitInsDel(op) ==>
      (IsOptimal(script, source, |source|, target, |target|, op) <==>
       op.subCost != 0 || NoneMatchesInPlace(source, |source|, target, |target|, op))
    ensures UnitInsDel(op) && IsOptimal(script, source, |source|, target, |target|, op) ==>
      forall other :: Turns(other, source, |source|, target, |target|, op) ==> Cost(script, op) <= Cost(other, op)
  {
    var matrix := MatrixForStrings(source, target, op);
    script := Backtrace(|source|, |target|, matrix, op);
    if UnitInsDel(op) {
      BacktraceIsOptimalIff(source, |source|, target, |target|, matrix, op);
      CellIsLeastCost(source, |source|, target, |target|, op);
    }
  }

  method RatioForStrings(source: seq<Rune>, target: seq<Rune>, op: Options) returns (r: real)
    ensures r == Ratio(|source| + |target|, Cell(source, target, op, |source|, |target|))
  {
    var matrix := MatrixForStrings(source, target, op);
    r := RatioForMatrix(matrix);
  }

  lemma QuotientBounds(a: real, b: real)
    requires 0.0 <= a <= b && b > 0.0
    ensures 0.0 <= a / b <= 1.0
    ensures a / b == 1.0 <==> a == b
  {
    var q := a / b;
    assert q * b == a;
    Sign(q, b);
    Sign(q - 1.0, b);
    assert (q - 1.0) * b == a - b;
  }

  lemma Sign(x: real, b: real)
    requires b > 0.0
    ensures x * b > 0.0 <==> x > 0.0
    ensures x * b < 0.0 <==> x < 0.0
  {
  }

  /** The ratio of an ordinary comparison lies between 0 and 1, and is 1 exactly for equal strings that are not empty. */
  lemma RatioMeasuresSimilarity(s: seq<Rune>, t: seq<Rune>, op: Options)
    requires Ordinary(op)
    ensures
      var r := Ratio(|s| + |t|, Distance(s, t, op));
      && 0.0 <= r <= 1.0 && (r == 1.0 <==> s == t && s != [])
      && r * (|s| + |t|) as real == (|s| + |t| - Distance(s, t, op)) as real
  {
    RatioIsShare(|s| + |t|, Distance(s, t, op));
    DistanceIsAMetric(s, t, t, op);
    CellBounds(s, |s|, t, |t|, op);
    RatioOfDistance(|s| + |t|, Distance(s, t, op));
  }

  /** The ratio is the share of the lengths that the distance leaves, or 0 for two empty strings. */
  lemma RatioIsShare(sum: nat, d: int)
    ensures if sum == 0 then Ratio(sum, d) == 0.0 else Ratio(sum, d) * sum as real == (sum - d) as real
  {
  }

  lemma RatioOfDistance(sum: nat, d: int)
    requires 0 <= d <= sum
    ensures 0.0 <= Ratio(sum, d) <= 1.0
    ensures Ratio(sum, d) == 1.0 <==> d == 0 && sum > 0
  {
    if sum > 0 {
      QuotientBounds((sum - d) as real, sum as real);
    }
  }

  ghost predicate CellIsMirrored(s: seq<Rune>, i: nat, t: seq<Rune>, j: nat, op: Options)
    requires i <= |s| && j <= |t|
  {
    Cell(s, t, op, i, j) == Cell(t, s, op, j, i)
  }

  ghost predicate CellIsBounded(s: seq<Rune>, i: nat, t: seq<Rune>, j: nat, op: Options)
    requires i <= |s| && j <= |t|
  {
    0 <= Cell(s, t, op, i, j) <= i + j
  }

  lemma {:induction false} CellBounds(s: seq<Rune>, i: nat, t: seq<Rune>, j: nat, op: Options)
    requires UnitInsDel(op) && op.subCost >= 0
    requires i <= |s| && j <= |t|
    ensures CellIsBounded(s, i, t, j, op)
    decreases i + j
  {
    if i > 0 && j > 0 {
      CellBounds(s, i - 1, t, j, op);
      CellBounds(s, i, t, j - 1, op);
      CellBounds(s, i - 1, t, j - 1, op);
    }
  }

  // ----- Replaying a script -----

  /** The runes a script writes when Match and nothing else copies the source rune, and
      inserted or substituted runes are taken from the target in order. */
  ghost function Replay(script: EditScript, s: seq<Rune>, i: nat, t: seq<Rune>, j: nat, op: Options): seq<Rune>
    requires i <= |s| && j <= |t| && Turns(script, s, i, t, j, op)
    decreases |script|
  {
    if script == [] then []
    else
      var init := script[..|script| - 1];
      match script[|script| - 1]
      case Ins => Replay(init, s, i, t, j - 1, op) + [t[j - 1]]
      case Del => Replay(init, s, i - 1, t, j, op)
      case Sub => Replay(init, s, i - 1, t, j - 1, op) + [t[j - 1]]
      case Match => Replay(init, s, i - 1, t, j - 1, op) + [s[i - 1]]
  }

  ghost predicate MatchesIsEquality(op: Options) {
    forall a, b :: op.Matches(a, b) <==> a == b
  }

  lemma {:induction false} ReplayGivesTarget(script: EditScript, s: seq<Rune>, i: nat, t: seq<Rune>, j: nat, op: Options)
    requires i <= |s| && j <= |t| && Turns(script, s, i, t, j, op)
    requires MatchesIsEquality(op)
    ensures Replay(script, s, i, t, j, op) == t[..j]
    decreases |script|
  {
    if script != [] {
      var init := script[..|script| - 1];
      match script[|script| - 1]
      case Ins => ReplayGivesTarget(init, s, i, t, j - 1, op);
      case Del => ReplayGivesTarget(init, s, i - 1, t, j, op);
      case Sub => ReplayGivesTarget(init, s, i - 1, t, j - 1, op);
      case Match => ReplayGivesTarget(init, s, i - 1, t, j - 1, op);
    }
  }

  // ----- The distance is a metric -----

  ghost function Distance(s: seq<Rune>, t: seq<Rune>, op: Options): int {
    Cell(s, t, op, |s|, |t|)
  }

  /** Ordinary string comparison: unit insertions and deletions, positive substitutions, equality as the match test. */
  ghost predicate Ordinary(op: Options) {
    UnitInsDel(op) && op.subCost >= 1 && MatchesIsEquality(op)
  }

  lemma DefaultOptionsAreOrdinary()
    ensures Ordinary(DEFAULT_OPTIONS)
    ensures DEFAULT_OPTIONS.insCost == 1 && DEFAULT_OPTIONS.delCost == 1 && DEFAULT_OPTIONS.subCost == 2
    ensures forall a, b :: DEFAULT_OPTIONS.Matches(a, b) <==> a == b
  {
  }

  lemma {:induction false} CellIsSymmetric(s: seq<Rune>, i: nat, t: seq<Rune>, j: nat, op: Options)
    requires Ordinary(op)
    requires i <= |s| && j <= |t|
    ensures CellIsMirrored(s, i, t, j, op)
    decreases i + j
  {
    if i > 0 && j > 0 {
      CellIsSymmetric(s, i - 1, t, j, op);
      CellIsSymmetric(s, i, t, j - 1, op);
      CellIsSymmetric(s, i - 1, t, j - 1, op);
    }
  }

  lemma ZeroOnlyOnDiagonal(s: seq<Rune>, i: nat, t: seq<Rune>, j: nat, op: Options)
    requires Ordinary(op)
    requires 0 < i <= |s| && 0 < j <= |t|
    ensures Cell(s, t, op, i, j) == 0 <==> s[i - 1] == t[j - 1] && Cell(s, t, op, i - 1, j - 1) == 0
  {
    CellBounds(s, i - 1, t, j, op);
    CellBounds(s, i, t, j - 1, op);
    CellBounds(s, i - 1, t, j - 1, op);
    assert op.Matches(s[i - 1], t[j - 1]) <==> s[i - 1] == t[j - 1];
  }

  lemma {:induction false} CellIsZeroIffEqual(s: seq<Rune>, i: nat, t: seq<Rune>, j: nat, op: Options)
    requires Ordinary(op)
    requires i <= |s| && j <= |t|
    ensures Cell(s, t, op, i, j) == 0 <==> s[..i] == t[..j]
    decreases i
  {
    if i > 0 && j > 0 {
      ZeroOnlyOnDiagonal(s, i, t, j, op);
      CellIsZeroIffEqual(s, i - 1, t, j - 1, op);
      assert s[..i] == s[..i - 1] + [s[i - 1]] && t[..j] == t[..j - 1] + [t[j - 1]];
    }
  }

  /** Two scripts that meet in the middle compose into one that costs no more than both. */
  lemma {:induction false} Compose(
    a: EditScript, b: EditScript, s: seq<Rune>, i: nat, t: seq<Rune>, j: nat, u: seq<Rune>, k: nat, op: Options)
    returns (c: EditScript)
    requires Ordinary(op)
    requires i <= |s| && j <= |t| && k <= |u|
    requires Turns(a, s, i, t, j, op) && Turns(b, t, j, u, k, op)
    ensures Turns(c, s, i, u, k, op)
    ensures Cost(c, op) <= Cost(a, op) + Cost(b, op)
    decreases |a| + |b|
  {
    if a != [] && a[|a| - 1] == Del {
      var init := Compose(a[..|a| - 1], b, s, i - 1, t, j, u, k, op);
      c := Snoc(init, Del);
    } else if b != [] && b[|b| - 1] == Ins {
      var init := Compose(a, b[..|b| - 1], s, i, t, j, u, k - 1, op);
      c := Snoc(init, Ins);
    } else if a != [] && b != [] {
      var a', b' := a[..|a| - 1], b[..|b| - 1];
      var i' := if a[|a| - 1] == Ins then i else i - 1;
      var k' := if b[|b| - 1] == Del then k else k - 1;
      var init := Compose(a', b', s, i', t, j - 1, u, k', op);
      if i' == i && k' == k {
        c := init;
      } else if i' == i {
        c := Snoc(init, Ins);
      } else if k' == k {
        c := Snoc(init, Del);
      } else {
        c := Snoc(init, if s[i - 1] == u[k - 1] then Match else Sub);
      }
    } else {
      c := [];
    }
  }

  ghost function Snoc(init: EditScript, last: EditOperation): (c: EditScript)
    ensures |c| == |init| + 1 && c[..|init|] == init && c[|init|] == last
  {
    init + [last]
  }

  lemma DistanceIsAMetric(s: seq<Rune>, t: seq<Rune>, u: seq<Rune>, op: Options)
    requires Ordinary(op)
    ensures Distance(s, t, op) >= 0
    ensures Distance(s, t, op) == 0 <==> s == t
    ensures Distance(s, t, op) == Distance(t, s, op)
    ensures Distance(s, u, op) <= Distance(s, t, op) + Distance(t, u, op)
  {
    CellBounds(s, |s|, t, |t|, op);
    CellIsZeroIffEqual(s, |s|, t, |t|, op);
    assert s[..|s|] == s && t[..|t|] == t;
    CellIsSymmetric(s, |s|, t, |t|, op);
    var a := CheapestScript(s, |s|, t, |t|, op);
    var b := CheapestScript(t, |t|, u, |u|, op);
    var c := Compose(a, b, s, |s|, t, |t|, u, |u|, op);
    NoScriptIsCheaper(c, s, |s|, u, |u|, op);
  }

  // ----- The distance and the longest common subsequence -----

  /** c can be read off the first i runes of s by leaving runes out. */
  ghost predicate IsSubsequence(c: seq<Rune>, s: seq<Rune>, i: nat)
    requires i <= |s|
    decreases i
  {
    if c == [] then true
    else i > 0 && ((c[|c| - 1] == s[i - 1] && IsSubsequence(c[..|c| - 1], s, i - 1)) || IsSubsequence(c, s, i - 1))
  }

  lemma {:induction false} ScriptFromCommonSubsequence(c: seq<Rune>, s: seq<Rune>, i: nat, t: seq<Rune>, j: nat, op: Options)
    returns (script: EditScript)
    requires Ordinary(op)
    requires i <= |s| && j <= |t|
    requires IsSubsequence(c, s, i) && IsSubsequence(c, t, j)
    ensures Turns(script, s, i, t, j, op)
    ensures Cost(script, op) == i + j - 2 * |c|
    decreases i + j
  {
    if i > 0 && IsSubsequence(c, s, i - 1) {
      script := ScriptFromCommonSubsequence(c, s, i - 1, t, j, op);
      script := Snoc(script, Del);
    } else if j > 0 && IsSubsequence(c, t, j - 1) {
      script := ScriptFromCommonSubsequence(c, s, i, t, j - 1, op);
      script := Snoc(script, Ins);
    } else if c != [] {
      script := ScriptFromCommonSubsequence(c[..|c| - 1], s, i - 1, t, j - 1, op);
      script := Snoc(script, Match);
    } else {
      script := [];
    }
  }

  lemma {:induction false} CommonSubsequenceFromScript(
    script: EditScript, s: seq<Rune>, i: nat, t: seq<Rune>, j: nat, op: Options)
    returns (c: seq<Rune>)
    requires Ordinary(op) && op.subCost >= 2
    requires i <= |s| && j <= |t|
    requires Turns(script, s, i, t, j, op)
    ensures IsSubsequence(c, s, i) && IsSubsequence(c, t, j)
    ensures i + j - 2 * |c| <= Cost(script, op)
    decreases |script|
  {
    if script == [] {
      c := [];
    } else {
      var init := script[..|script| - 1];
      match script[|script| - 1]
      case Ins => c := CommonSubsequenceFromScript(init, s, i, t, j - 1, op);
      case Del => c := CommonSubsequenceFromScript(init, s, i - 1, t, j, op);
      case Sub => c := CommonSubsequenceFromScript(init, s, i - 1, t, j - 1, op);
      case Match =>
        var c' := CommonSubsequenceFromScript(init, s, i - 1, t, j - 1, op);
        c := c' + [s[i - 1]];
        assert c[..|c| - 1] == c';
    }
  }

  ghost predicate IsLongestCommonSubsequence(c: seq<Rune>, s: seq<Rune>, t: seq<Rune>) {
    && IsSubsequence(c, s, |s|) && IsSubsequence(c, t, |t|)
    && forall c' :: IsSubsequence(c', s, |s|) && IsSubsequence(c', t, |t|) ==> |c'| <= |c|
  }

  /** When a substitution costs at least a deletion and an insertion, the distance counts the runes
      outside a longest common subsequence. */
  lemma DistanceCountsOutsideLCS(s: seq<Rune>, t: seq<Rune>, op: Options) returns (lcs: seq<Rune>)
    requires Ordinary(op) && op.subCost >= 2
    ensures IsLongestCommonSubsequence(lcs, s, t)
    ensures Distance(s, t, op) == |s| + |t| - 2 * |lcs|
  {
    var best := CheapestScript(s, |s|, t, |t|, op);
    lcs := CommonSubsequenceFromScript(best, s, |s|, t, |t|, op);
    forall c | IsSubsequence(c, s, |s|) && IsSubsequence(c, t, |t|)
      ensures |s| + |t| - 2 * |c| >= Distance(s, t, op)
    {
      var script := ScriptFromCommonSubsequence(c, s, |s|, t, |t|, op);
      NoScriptIsCheaper(script, s, |s|, t, |t|, op);
    }
  }
}
