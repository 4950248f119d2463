/** The training script's recording loop: it asks for the gesture names, then
    for each camera frame with a hand it shows the next name and, when the
    record key is pressed, stores the hand and its descriptor; once as many
    gestures as asked for are stored it writes the two CSV files and stops. */
module Training {
  import opened Wrappers
  import opened Descriptors
  import Records

  /** What `getTrainingData` collects: `gestCount` is the number typed first,
      then one name is read per gesture. The answers to the prompts are a
      parameter. */
  method GetTrainingData(gestCount: int, replies: seq<string>) returns (gestureNames: seq<string>, numGest: int)
    requires gestCount <= |replies|
    ensures numGest == gestCount
    ensures |gestureNames| == if gestCount < 0 then 0 else gestCount
    ensures gestureNames == replies[..|gestureNames|]
  {
    gestureNames := [];
    var gestureNum := 1;
    while gestureNum < gestCount + 1
      invariant 1 <= gestureNum <= if gestCount < 0 then 1 else gestCount + 1
      invariant gestureNames == replies[..gestureNum - 1]
      decreases gestCount + 1 - gestureNum
    {
      gestureNames := gestureNames + [replies[gestureNum - 1]];
      gestureNum := gestureNum + 1;
    }
    numGest := gestCount;
  }

  /** The two files `saveToCSV` writes: one row of cells per stored hand,
      and a names file whose single row is the gesture names. */
  function SaveToCsv(finalHandsData: seq<seq<Point>>, gestureNames: seq<string>): (files: (seq<seq<string>>, seq<seq<string>>))
    ensures |files.0| == |finalHandsData| && |files.1| == 1
  {
    (seq(|finalHandsData|, k requires 0 <= k < |finalHandsData| => Records.FormatRow(finalHandsData[k])), [gestureNames])
  }

  /** The counter and the two lists the recording loop accumulates. */
  datatype Progress = Progress(trainGestureCount: nat, finalHandsData: seq<seq<Point>>, knownGestures: seq<Matrix>)

  /** What became of a frame: training goes on, or it ended by writing the
      two files, or an exception escaped the loop. */
  datatype Outcome =
    | Recording
    | Saved(gestureData: seq<seq<string>>, gestureNamesFile: seq<seq<string>>)
    | Crashed(error: DescriptorError)

  /** One stored hand and one descriptor per recorded gesture, each
      descriptor the one of its hand. */
  ghost predicate Consistent(p: Progress, sqrt: real -> real) {
    |p.finalHandsData| == p.trainGestureCount && |p.knownGestures| == p.trainGestureCount &&
    forall k :: 0 <= k < p.trainGestureCount ==> DistanceMatrix(p.finalHandsData[k], sqrt) == Success(p.knownGestures[k])
  }

  /** The recording loop on one frame in which a hand `myHand` was found,
      with `recordPressed` telling whether the record key was down. */
  function Step(p: Progress, gestureNames: seq<string>, numGest: int, myHand: seq<Point>, recordPressed: bool, sqrt: real -> real): (r: (Progress, Outcome))
    // showing the next name fails once every name has been used
    ensures p.trainGestureCount >= |gestureNames| ==> r == (p, Crashed(IndexError))
    ensures r.1.Crashed? || !recordPressed ==> r.0 == p
    // a gesture is recorded when the key is down and its descriptor exists
    ensures r.0 != p <==>
      p.trainGestureCount < |gestureNames| && recordPressed && DistanceMatrix(myHand, sqrt).Success?
    // and it appends exactly one hand and one descriptor
    ensures r.0 != p ==>
      r.0.trainGestureCount == p.trainGestureCount + 1 &&
      r.0.finalHandsData == p.finalHandsData + [myHand] &&
      r.0.knownGestures == p.knownGestures + [DistanceMatrix(myHand, sqrt).value]
    ensures r.1.Crashed? && p.trainGestureCount < |gestureNames| ==>
      DistanceMatrix(myHand, sqrt).Failure? && r.1.error == DistanceMatrix(myHand, sqrt).error
    // without the record key the loop goes on recording, nothing stored
    ensures p.trainGestureCount < |gestureNames| && !recordPressed ==> r == (p, Recording)
    // with the key down, a hand without a descriptor ends the script with its exception
    ensures p.trainGestureCount < |gestureNames| && recordPressed && DistanceMatrix(myHand, sqrt).Failure? ==>
      r == (p, Crashed(DistanceMatrix(myHand, sqrt).error))
    // a recorded gesture short of numGest goes on recording
    ensures r.0 != p && r.0.trainGestureCount != numGest ==> r.1 == Recording
    // the files are written exactly when the count reaches numGest
    ensures r.1.Saved? <==> r.0 != p && r.0.trainGestureCount == numGest
    ensures r.1.Saved? ==> (r.1.gestureData, r.1.gestureNamesFile) == SaveToCsv(r.0.finalHandsData, gestureNames)
  {
    if p.trainGestureCount >= |gestureNames| then (p, Crashed(IndexError))
    else if !recordPressed then (p, Recording)
    else
      var knownGesture := DistanceMatrix(myHand, sqrt);
      if knownGesture.Failure? then (p, Crashed(knownGesture.error))
      else
        var q := Progress(p.trainGestureCount + 1, p.finalHandsData + [myHand], p.knownGestures + [knownGesture.value]);
        assert q.finalHandsData != p.finalHandsData by {
          assert |q.finalHandsData| != |p.finalHandsData|;
        }
        if q.trainGestureCount == numGest then
          var files := SaveToCsv(q.finalHandsData, gestureNames);
          (q, Saved(files.0, files.1))
        else (q, Recording)
  }

  /** Every step keeps each stored descriptor the descriptor of its hand. */
  lemma {:induction false} StepKeepsConsistent(p: Progress, gestureNames: seq<string>, numGest: int, myHand: seq<Point>, recordPressed: bool, sqrt: real -> real)
    requires Consistent(p, sqrt)
    ensures Consistent(Step(p, gestureNames, numGest, myHand, recordPressed, sqrt).0, sqrt)
  {
    var q := Step(p, gestureNames, numGest, myHand, recordPressed, sqrt).0;
    if q != p {
      forall k | 0 <= k < q.trainGestureCount
        ensures DistanceMatrix(q.finalHandsData[k], sqrt) == Success(q.knownGestures[k])
      {
        if k < p.trainGestureCount {
          assert q.finalHandsData[k] == p.finalHandsData[k];
          assert q.knownGestures[k] == p.knownGestures[k];
        }
      }
    }
  }

  /** With the names `getTrainingData` reads, a session that has not ended
      holds fewer gestures than asked for, and the files it writes when it
      ends hold exactly `numGest` rows and `numGest` names. */
  lemma {:induction false} SavedFilesHoldEveryGesture(p: Progress, gestureNames: seq<string>, numGest: int, myHand: seq<Point>, recordPressed: bool, sqrt: real -> real)
    requires |gestureNames| == if numGest < 0 then 0 else numGest
    requires Consistent(p, sqrt)
    requires p.trainGestureCount < |gestureNames|
    ensures var r := Step(p, gestureNames, numGest, myHand, recordPressed, sqrt);
      r.1.Saved? ==> |r.1.gestureData| == numGest && r.1.gestureNamesFile == [gestureNames] && |gestureNames| == numGest
    ensures var r := Step(p, gestureNames, numGest, myHand, recordPressed, sqrt);
      r.1.Recording? ==> r.0.trainGestureCount < |gestureNames|
  {
  }

  /** Asking for no gestures (or a negative number of them) never saves:
      the first hand shown raises IndexError. */
  lemma NoGesturesNeverSaves(p: Progress, numGest: int, myHand: seq<Point>, recordPressed: bool, sqrt: real -> real)
    requires numGest <= 0
    ensures Step(p, [], numGest, myHand, recordPressed, sqrt) == (p, Crashed(IndexError))
  {
  }

  /** The files a session writes are read back by the testing script as the
      same templates, provided no landmark coordinate was negative: the same
      names and, row for row, the same descriptors. */
  lemma SavedTemplatesReload(p: Progress, gestureNames: seq<string>, sqrt: real -> real)
    requires Consistent(p, sqrt)
    requires forall k :: 0 <= k < |p.finalHandsData| ==> Records.NonNegative(p.finalHandsData[k])
    ensures var files := SaveToCsv(p.finalHandsData, gestureNames);
      Records.LoadAll(files.0, sqrt) == Success(p.knownGestures) &&
      Records.LoadNames(files.1) == Some(gestureNames)
  {
    var rows := SaveToCsv(p.finalHandsData, gestureNames).0;
    var rs := Records.RowDescriptors(rows, sqrt);
    forall k | 0 <= k < |rs|
      ensures rs[k] == Success(p.knownGestures[k])
    {
      Records.RowRoundTrip(p.finalHandsData[k]);
    }
    Records.CollectAllSucceed(rs, p.knownGestures);
  }

  /** The state of one run of the training script. */
  class TrainingSession {
    const gestureNames: seq<string>
    const numGest: int
    const sqrt: real -> real
    var trainGestureCount: nat
    var finalHandsData: seq<seq<Point>>
    var knownGestures: seq<Matrix>

    function State(): Progress
      reads this
    {
      Progress(trainGestureCount, finalHandsData, knownGestures)
    }

    ghost predicate Valid()
      reads this
    {
      Consistent(State(), sqrt)
    }

    constructor (gestureNames: seq<string>, numGest: int, sqrt: real -> real)
      ensures this.gestureNames == gestureNames && this.numGest == numGest && this.sqrt == sqrt
      ensures State() == Progress(0, [], [])
      ensures Valid()
    {
      this.gestureNames := gestureNames;
      this.numGest := numGest;
      this.sqrt := sqrt;
      trainGestureCount := 0;
      finalHandsData := [];
      knownGestures := [];
    }

    /** `addTrainingData`: store the hand and its descriptor; when building
        the descriptor raises, nothing is stored. */
    method AddTrainingData(myHand: seq<Point>) returns (error: Option<DescriptorError>)
      modifies this
      ensures trainGestureCount == old(trainGestureCount)
      ensures error.None? <==> DistanceMatrix(myHand, sqrt).Success?
      ensures error.Some? ==>
        error.value == DistanceMatrix(myHand, sqrt).error &&
        finalHandsData == old(finalHandsData) && knownGestures == old(knownGestures)
      ensures error.None? ==>
        finalHandsData == old(finalHandsData) + [myHand] &&
        knownGestures == old(knownGestures) + [DistanceMatrix(myHand, sqrt).value]
    {
      var knownGesture := FindDistances(myHand, sqrt);
      if knownGesture.Failure? {
        return Some(knownGesture.error);
      }
      var m := Snapshot(knownGesture.value);
      HoldsUnique(knownGesture.value, m, DistanceMatrix(myHand, sqrt).value);
      finalHandsData := finalHandsData + [myHand];
      knownGestures := knownGestures + [m];
      error := None;
    }

    /** The body of the recording loop for a frame in which a hand was found. */
    method HandSeen(myHand: seq<Point>, recordPressed: bool) returns (outcome: Outcome)
      requires Valid()
      modifies this
      ensures Valid()
      ensures (State(), outcome) == Step(old(State()), gestureNames, numGest, myHand, recordPressed, sqrt)
    {
      StepKeepsConsistent(State(), gestureNames, numGest, myHand, recordPressed, sqrt);
      if trainGestureCount >= |gestureNames| {
        return Crashed(IndexError);
      }
      if !recordPressed {
        return Recording;
      }
      var error := AddTrainingData(myHand);
      if error.Some? {
        return Crashed(error.value);
      }
      trainGestureCount := trainGestureCount + 1;
      if trainGestureCount == numGest {
        var files := SaveToCsv(finalHandsData, gestureNames);
        return Saved(files.0, files.1);
      }
      outcome := Recording;
    }
  }
}
