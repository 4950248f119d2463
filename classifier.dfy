/** The nearest-template classifier of the testing script: a live descriptor
    is compared with each known template over the cells whose row and column
    are both among the tracked hand nodes, and the closest template's name is
    returned when its error is below the tolerance. */
module Classifier {
  import opened Wrappers
  import opened Descriptors

  /** `handNodes`: wrist, thumb tip, finger bases and fingertips. */
  const HAND_NODES: seq<nat> := [0, 4, 5, 9, 13, 17, 8, 12, 16, 20]

  /** `errorTolerance` of the testing script. */
  const ERROR_TOLERANCE: real := 20.0

  /** The label for a descriptor that matches no template closely enough. */
  const UNKNOWN: string := "Unknown"

  /** Both failures are an IndexError in the Python code: no name to score
      (`gestureErrors[0]` of an empty list), or a name without a template
      (`knownGestures[i]` past the end). */
  datatype ClassifyError = EmptyNameList | MoreNamesThanTemplates

  function Abs(x: real): real {
    if x < 0.0 then -x else x
  }

  /** Every cell of `m` whose row is in `rows` and whose column is in `cols` exists. */
  predicate HasCells(m: Matrix, rows: seq<nat>, cols: seq<nat>) {
    forall k :: 0 <= k < |rows| ==> RowHasCells(m, rows[k], cols)
  }

  /** Row `row` of `m` exists and has every column in `cols`. */
  predicate RowHasCells(m: Matrix, row: nat, cols: seq<nat>) {
    row < |m| && forall l :: 0 <= l < |cols| ==> cols[l] < |m[row]|
  }

  /** `g` and `u` agree on every cell of rows x cols. */
  predicate AgreeOn(g: Matrix, u: Matrix, rows: seq<nat>, cols: seq<nat>)
    requires HasCells(g, rows, cols) && HasCells(u, rows, cols)
  {
    forall k, l :: 0 <= k < |rows| && 0 <= l < |cols| ==> g[rows[k]][cols[l]] == u[rows[k]][cols[l]]
  }

  /** Sum of |g[row][c] - u[row][c]| over the columns `cols`. */
  function RowError(g: Matrix, u: Matrix, row: nat, cols: seq<nat>): (e: real)
    requires RowHasCells(g, row, cols) && RowHasCells(u, row, cols)
    ensures e >= 0.0
  {
    if cols == [] then 0.0
    else
      var c := cols[|cols| - 1];
      RowError(g, u, row, cols[..|cols| - 1]) + Abs(g[row][c] - u[row][c])
  }

  /** The error score between `g` and `u`: the sum of the absolute cell
      differences over rows x cols. */
  function Margin(g: Matrix, u: Matrix, rows: seq<nat>, cols: seq<nat>): (e: real)
    requires HasCells(g, rows, cols) && HasCells(u, rows, cols)
    ensures e >= 0.0
  {
    if rows == [] then 0.0
    else
      var front := rows[..|rows| - 1];
      assert HasCells(g, front, cols) && HasCells(u, front, cols) by {
        assert forall k :: 0 <= k < |front| ==> front[k] == rows[k];
      }
      assert |rows| - 1 < |rows|;
      Margin(g, u, front, cols) + RowError(g, u, rows[|rows| - 1], cols)
  }

  lemma {:induction false} RowErrorZeroIff(g: Matrix, u: Matrix, row: nat, cols: seq<nat>)
    requires RowHasCells(g, row, cols) && RowHasCells(u, row, cols)
    ensures RowError(g, u, row, cols) == 0.0 <==> forall l :: 0 <= l < |cols| ==> g[row][cols[l]] == u[row][cols[l]]
  {
    if cols != [] {
      var front := cols[..|cols| - 1];
      RowErrorZeroIff(g, u, row, front);
      assert forall l :: 0 <= l < |front| ==> front[l] == cols[l];
    }
  }

  /** The error score is 0 exactly when the two matrices agree on every
      rows x cols cell. */
  lemma {:induction false} MarginZeroIff(g: Matrix, u: Matrix, rows: seq<nat>, cols: seq<nat>)
    requires HasCells(g, rows, cols) && HasCells(u, rows, cols)
    ensures Margin(g, u, rows, cols) == 0.0 <==> AgreeOn(g, u, rows, cols)
  {
    if rows != [] {
      var front := rows[..|rows| - 1];
      var last := rows[|rows| - 1];
      assert forall k :: 0 <= k < |front| ==> front[k] == rows[k];
      MarginZeroIff(g, u, front, cols);
      RowErrorZeroIff(g, u, last, cols);
      if AgreeOn(g, u, rows, cols) {
        assert forall l :: 0 <= l < |cols| ==> g[last][cols[l]] == u[last][cols[l]] by {
          assert rows[|rows| - 1] == last;
        }
      }
    }
  }

  lemma {:induction false} RowErrorFrame(g: Matrix, u: Matrix, g': Matrix, u': Matrix, row: nat, cols: seq<nat>)
    requires RowHasCells(g, row, cols) && RowHasCells(u, row, cols)
    requires RowHasCells(g', row, cols) && RowHasCells(u', row, cols)
    requires forall l :: 0 <= l < |cols| ==> g[row][cols[l]] == g'[row][cols[l]] && u[row][cols[l]] == u'[row][cols[l]]
    ensures RowError(g, u, row, cols) == RowError(g', u', row, cols)
  {
    if cols != [] {
      var front := cols[..|cols| - 1];
      assert forall l :: 0 <= l < |front| ==> front[l] == cols[l];
      RowErrorFrame(g, u, g', u', row, front);
    }
  }

  /** `errorMargin` reads no cell outside rows x cols: matrices that agree
      there have the same error score. */
  lemma {:induction false} MarginFrame(g: Matrix, u: Matrix, g': Matrix, u': Matrix, rows: seq<nat>, cols: seq<nat>)
    requires HasCells(g, rows, cols) && HasCells(u, rows, cols)
    requires HasCells(g', rows, cols) && HasCells(u', rows, cols)
    requires AgreeOn(g, g', rows, cols) && AgreeOn(u, u', rows, cols)
    ensures Margin(g, u, rows, cols) == Margin(g', u', rows, cols)
  {
    if rows != [] {
      var front := rows[..|rows| - 1];
      assert forall k :: 0 <= k < |front| ==> front[k] == rows[k];
      MarginFrame(g, u, g', u', front, cols);
      RowErrorFrame(g, u, g', u', rows[|rows| - 1], cols);
    }
  }

  lemma {:induction false} RowErrorSymmetric(g: Matrix, u: Matrix, row: nat, cols: seq<nat>)
    requires RowHasCells(g, row, cols) && RowHasCells(u, row, cols)
    ensures RowError(g, u, row, cols) == RowError(u, g, row, cols)
  {
    if cols != [] {
      RowErrorSymmetric(g, u, row, cols[..|cols| - 1]);
    }
  }

  /** The error score does not depend on which matrix is the template. */
  lemma {:induction false} MarginSymmetric(g: Matrix, u: Matrix, rows: seq<nat>, cols: seq<nat>)
    requires HasCells(g, rows, cols) && HasCells(u, rows, cols)
    ensures Margin(g, u, rows, cols) == Margin(u, g, rows, cols)
  {
    if rows != [] {
      var front := rows[..|rows| - 1];
      assert forall k :: 0 <= k < |front| ==> front[k] == rows[k];
      MarginSymmetric(g, u, front, cols);
      RowErrorSymmetric(g, u, rows[|rows| - 1], cols);
    }
  }

  lemma HasCellsPrefix(m: Matrix, rows: seq<nat>, cols: seq<nat>, i: nat)
    requires HasCells(m, rows, cols) && i <= |rows|
    ensures HasCells(m, rows[..i], cols)
  {
    assert forall k :: 0 <= k < i ==> rows[..i][k] == rows[k];
  }

  lemma RowHasCellsPrefix(m: Matrix, row: nat, cols: seq<nat>, j: nat)
    requires RowHasCells(m, row, cols) && j <= |cols|
    ensures RowHasCells(m, row, cols[..j])
  {
    assert forall l :: 0 <= l < j ==> cols[..j][l] == cols[l];
  }

  /** Adding column cols[j] to the row sum adds that cell's difference. */
  lemma RowErrorStep(g: Matrix, u: Matrix, row: nat, cols: seq<nat>, j: nat)
    requires RowHasCells(g, row, cols) && RowHasCells(u, row, cols) && j < |cols|
    ensures RowHasCells(g, row, cols[..j]) && RowHasCells(u, row, cols[..j])
    ensures RowHasCells(g, row, cols[..j + 1]) && RowHasCells(u, row, cols[..j + 1])
    ensures RowError(g, u, row, cols[..j + 1]) == RowError(g, u, row, cols[..j]) + Abs(g[row][cols[j]] - u[row][cols[j]])
  {
    RowHasCellsPrefix(g, row, cols, j);
    RowHasCellsPrefix(u, row, cols, j);
    RowHasCellsPrefix(g, row, cols, j + 1);
    RowHasCellsPrefix(u, row, cols, j + 1);
    assert cols[..j + 1][..j] == cols[..j];
  }

  /** Adding row rows[i] to the score adds that row's sum. */
  lemma MarginStep(g: Matrix, u: Matrix, rows: seq<nat>, cols: seq<nat>, i: nat)
    requires HasCells(g, rows, cols) && HasCells(u, rows, cols) && i < |rows|
    ensures HasCells(g, rows[..i], cols) && HasCells(u, rows[..i], cols)
    ensures HasCells(g, rows[..i + 1], cols) && HasCells(u, rows[..i + 1], cols)
    ensures RowHasCells(g, rows[i], cols) && RowHasCells(u, rows[i], cols)
    ensures Margin(g, u, rows[..i + 1], cols) == Margin(g, u, rows[..i], cols) + RowError(g, u, rows[i], cols)
  {
    HasCellsPrefix(g, rows, cols, i);
    HasCellsPrefix(u, rows, cols, i);
    HasCellsPrefix(g, rows, cols, i + 1);
    HasCellsPrefix(u, rows, cols, i + 1);
    assert rows[..i + 1][..i] == rows[..i];
  }

  /** `errorMargin`: accumulates the absolute differences over
      handNodes x handNodes, row by row. */
  method ErrorMargin(gestureMatrix: Matrix, userMatrix: Matrix, handNodes: seq<nat>) returns (currError: real)
    requires HasCells(gestureMatrix, handNodes, handNodes) && HasCells(userMatrix, handNodes, handNodes)
    ensures currError == Margin(gestureMatrix, userMatrix, handNodes, handNodes)
  {
    currError := 0.0;
    HasCellsPrefix(gestureMatrix, handNodes, handNodes, 0);
    HasCellsPrefix(userMatrix, handNodes, handNodes, 0);
    for i := 0 to |handNodes|
      invariant HasCells(gestureMatrix, handNodes[..i], handNodes) && HasCells(userMatrix, handNodes[..i], handNodes)
      invariant currError == Margin(gestureMatrix, userMatrix, handNodes[..i], handNodes)
    {
      var row := handNodes[i];
      MarginStep(gestureMatrix, userMatrix, handNodes, handNodes, i);
      ghost var before := currError;
      RowHasCellsPrefix(gestureMatrix, row, handNodes, 0);
      RowHasCellsPrefix(userMatrix, row, handNodes, 0);
      for j := 0 to |handNodes|
        invariant RowHasCells(gestureMatrix, row, handNodes[..j]) && RowHasCells(userMatrix, row, handNodes[..j])
        invariant currError == before + RowError(gestureMatrix, userMatrix, row, handNodes[..j])
      {
        var column := handNodes[j];
        var difference := Abs(gestureMatrix[row][column] - userMatrix[row][column]);
        currError := currError + difference;
        RowErrorStep(gestureMatrix, userMatrix, row, handNodes, j);
      }
      assert handNodes[..|handNodes|] == handNodes;
    }
    assert handNodes[..|handNodes|] == handNodes;
  }

  /** Every template and the live descriptor have all handNodes x handNodes cells. */
  predicate Comparable(unknown: Matrix, known: seq<Matrix>, nodes: seq<nat>) {
    HasCells(unknown, nodes, nodes) && forall i :: 0 <= i < |known| ==> HasCells(known[i], nodes, nodes)
  }

  /** The error scores of the first `count` templates, in template order. */
  function Errors(unknown: Matrix, known: seq<Matrix>, nodes: seq<nat>, count: nat): (errs: seq<real>)
    requires Comparable(unknown, known, nodes) && count <= |known|
    ensures |errs| == count
  {
    seq(count, i requires 0 <= i < count => Margin(known[i], unknown, nodes, nodes))
  }

  /** `k` is the lowest index of a smallest score: no score is below it and
      every earlier score is strictly above it. */
  predicate IsFirstMin(errs: seq<real>, k: int) {
    && 0 <= k < |errs|
    && (forall j :: 0 <= j < |errs| ==> errs[k] <= errs[j])
    && (forall j :: 0 <= j < k ==> errs[k] < errs[j])
  }

  /** The index a left-to-right scan with strict `<` settles on. */
  function FirstMin(errs: seq<real>): (k: nat)
    requires errs != []
    ensures IsFirstMin(errs, k)
  {
    if |errs| == 1 then 0
    else
      var k := FirstMin(errs[..|errs| - 1]);
      if errs[|errs| - 1] < errs[k] then |errs| - 1 else k
  }

  lemma FirstMinUnique(errs: seq<real>, k: int, k': int)
    requires IsFirstMin(errs, k) && IsFirstMin(errs, k')
    ensures k == k'
  {
    assert errs[k] == errs[k'];
  }

  /** `gestureWithinTolerance`: the name when the error is strictly below the
      tolerance, "Unknown" otherwise. */
  function GestureWithinTolerance(minimumError: real, errorTolerance: real, minIndex: nat, gestureNames: seq<string>): (gesture: string)
    requires minIndex < |gestureNames|
    ensures gesture == gestureNames[minIndex] || gesture == UNKNOWN
    ensures minimumError >= errorTolerance ==> gesture == UNKNOWN
    ensures gestureNames[minIndex] != UNKNOWN ==> (gesture == gestureNames[minIndex] <==> minimumError < errorTolerance)
  {
    if minimumError < errorTolerance then gestureNames[minIndex] else UNKNOWN
  }

  /** What `matchGesture` returns for a live descriptor, or the IndexError it raises. */
  function Classify(unknown: Matrix, known: seq<Matrix>, nodes: seq<nat>, names: seq<string>, tolerance: real): (r: Result<string, ClassifyError>)
    requires Comparable(unknown, known, nodes)
    ensures |names| > |known| ==> r == Failure(MoreNamesThanTemplates)
    ensures names == [] ==> r == Failure(EmptyNameList)
    ensures 0 < |names| <= |known| ==> r.Success?
    ensures 0 < |names| <= |known| ==> forall k :: IsFirstMin(Errors(unknown, known, nodes, |names|), k) ==>
              && (Margin(known[k], unknown, nodes, nodes) < tolerance ==> r.value == names[k])
              && (Margin(known[k], unknown, nodes, nodes) >= tolerance ==> r.value == UNKNOWN)
  {
    if |names| > |known| then Failure(MoreNamesThanTemplates)
    else if names == [] then Failure(EmptyNameList)
    else
      var errs := Errors(unknown, known, nodes, |names|);
      var k := FirstMin(errs);
      assert forall k' :: IsFirstMin(errs, k') ==> k' == k;
      Success(GestureWithinTolerance(errs[k], tolerance, k, names))
  }

  /** `gestureErrorCalculator`: the error score of each named template, and
      the first of them as the starting minimum. */
  method GestureErrorCalculator(unknownGesture: Matrix, knownGestures: seq<Matrix>, handNodes: seq<nat>, gestureNames: seq<string>)
    returns (r: Result<(real, seq<real>), ClassifyError>)
    requires Comparable(unknownGesture, knownGestures, handNodes)
    ensures |gestureNames| > |knownGestures| ==> r == Failure(MoreNamesThanTemplates)
    ensures gestureNames == [] ==> r == Failure(EmptyNameList)
    ensures 0 < |gestureNames| <= |knownGestures| ==>
              var errs := Errors(unknownGesture, knownGestures, handNodes, |gestureNames|);
              r == Success((errs[0], errs))
  {
    var gestureErrors: seq<real> := [];
    for i := 0 to |gestureNames|
      invariant i <= |knownGestures|
      invariant gestureErrors == Errors(unknownGesture, knownGestures, handNodes, i)
    {
      if i >= |knownGestures| {
        return Failure(MoreNamesThanTemplates);
      }
      var error := ErrorMargin(knownGestures[i], unknownGesture, handNodes);
      gestureErrors := gestureErrors + [error];
    }
    if gestureErrors == [] {
      return Failure(EmptyNameList);
    }
    r := Success((gestureErrors[0], gestureErrors));
  }

  /** `matchGesture`: scans the scores for the first strict minimum and
      applies the tolerance cut. */
  method MatchGesture(unknownGesture: Matrix, knownGestures: seq<Matrix>, handNodes: seq<nat>, gestureNames: seq<string>, errorTolerance: real)
    returns (r: Result<string, ClassifyError>)
    requires Comparable(unknownGesture, knownGestures, handNodes)
    ensures r == Classify(unknownGesture, knownGestures, handNodes, gestureNames, errorTolerance)
  {
    var scores := GestureErrorCalculator(unknownGesture, knownGestures, handNodes, gestureNames);
    if scores.Failure? {
      return Failure(scores.error);
    }
    var (minimumError, gestureErrors) := scores.value;
    var minIndex := 0;
    for i := 0 to |gestureErrors|
      invariant minIndex <= i && minIndex < |gestureErrors|
      invariant minimumError == gestureErrors[minIndex]
      invariant forall j :: 0 <= j < i ==> gestureErrors[minIndex] <= gestureErrors[j]
      invariant forall j :: 0 <= j < minIndex ==> gestureErrors[minIndex] < gestureErrors[j]
    {
      if gestureErrors[i] < minimumError {
        minimumError := gestureErrors[i];
        minIndex := i;
      }
    }
    FirstMinUnique(gestureErrors, minIndex, FirstMin(gestureErrors));
    r := Success(GestureWithinTolerance(minimumError, errorTolerance, minIndex, gestureNames));
  }

  /** A template's own descriptor (or one equal to it on the tracked cells) is
      classified as that template, provided the tolerance is positive and no
      earlier template also matches it exactly. */
  lemma {:induction false} OwnTemplateRecognised(unknown: Matrix, known: seq<Matrix>, nodes: seq<nat>, names: seq<string>, tolerance: real, k: nat)
    requires Comparable(unknown, known, nodes)
    requires k < |names| <= |known|
    requires tolerance > 0.0
    requires AgreeOn(known[k], unknown, nodes, nodes)
    requires forall j :: 0 <= j < k ==> !AgreeOn(known[j], unknown, nodes, nodes)
    ensures Classify(unknown, known, nodes, names, tolerance) == Success(names[k])
  {
    var errs := Errors(unknown, known, nodes, |names|);
    MarginZeroIff(known[k], unknown, nodes, nodes);
    forall j | 0 <= j < k
      ensures errs[k] < errs[j]
    {
      MarginZeroIff(known[j], unknown, nodes, nodes);
    }
    assert IsFirstMin(errs, k);
  }

  /** Only the first len(gestureNames) templates are scored: templates past
      them do not change the result. */
  lemma {:induction false} OnlyNamedTemplatesScored(unknown: Matrix, known: seq<Matrix>, extra: seq<Matrix>, nodes: seq<nat>, names: seq<string>, tolerance: real)
    requires Comparable(unknown, known + extra, nodes)
    requires |names| <= |known|
    ensures Comparable(unknown, known, nodes)
    ensures Classify(unknown, known + extra, nodes, names, tolerance) == Classify(unknown, known, nodes, names, tolerance)
  {
    assert forall i :: 0 <= i < |known| ==> (known + extra)[i] == known[i];
    if 0 < |names| {
      assert Errors(unknown, known + extra, nodes, |names|) == Errors(unknown, known, nodes, |names|);
    }
  }
}
