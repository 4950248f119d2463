/** The testing script's main loop, one read of the camera stream at a time:
    take at most one JPEG frame out of the buffer, find a hand in it, build
    its descriptor, classify it against the loaded templates, advance the
    command state and issue the command that pass dispatches. */
module Recognition {
  import opened Wrappers
  import Frames
  import opened Descriptors
  import Classifier
  import Commands

  /** The number of landmarks the hand detector reports for a hand. */
  const LANDMARKS: nat := 21

  /** The exceptions that end the loop: building the live descriptor fails,
      or the name list does not fit the templates. */
  datatype LoopError =
    | DescriptorFailed(descriptorError: DescriptorError)
    | MatchFailed(classifyError: Classifier.ClassifyError)

  /** The loop's variables between reads. */
  datatype LoopState = LoopState(bitSequence: seq<Frames.byte>, machine: Commands.MachineState)

  /** The hand detector reports either no hand or a full set of landmarks. */
  ghost predicate ReportsFullHands(detect: seq<Frames.byte> -> Option<seq<Point>>) {
    forall jpg :: detect(jpg).Some? ==> |detect(jpg).value| == LANDMARKS
  }

  /** Every template has the cells the classifier compares. */
  predicate Templates(knownGestures: seq<Matrix>) {
    forall i :: 0 <= i < |knownGestures| ==> Classifier.HasCells(knownGestures[i], Classifier.HAND_NODES, Classifier.HAND_NODES)
  }

  /** The descriptor of a full hand has every cell the classifier compares. */
  lemma FullHandHasNodes(m: Matrix)
    requires IsSquare(m, LANDMARKS)
    ensures Classifier.HasCells(m, Classifier.HAND_NODES, Classifier.HAND_NODES)
  {
    forall k | 0 <= k < |Classifier.HAND_NODES|
      ensures Classifier.RowHasCells(m, Classifier.HAND_NODES[k], Classifier.HAND_NODES)
    {
    }
  }

  /** The label of a hand, or the exception raised while classifying it. */
  function Label(hand: seq<Point>, knownGestures: seq<Matrix>, gestNames: seq<string>, sqrt: real -> real): (r: Result<string, LoopError>)
    requires |hand| == LANDMARKS && Templates(knownGestures)
    ensures r.Failure? <==>
      || DistanceMatrix(hand, sqrt).Failure?
      || Classifier.Classify(DistanceMatrix(hand, sqrt).value, knownGestures, Classifier.HAND_NODES, gestNames, Classifier.ERROR_TOLERANCE).Failure?
    // a descriptor exception is reported as such
    ensures DistanceMatrix(hand, sqrt).Failure? ==> r == Failure(DescriptorFailed(DistanceMatrix(hand, sqrt).error))
    // otherwise the result is the classifier's, its IndexError included
    ensures DistanceMatrix(hand, sqrt).Success? ==>
      Classifier.HasCells(DistanceMatrix(hand, sqrt).value, Classifier.HAND_NODES, Classifier.HAND_NODES)
    ensures DistanceMatrix(hand, sqrt).Success? ==>
      var unknownGesture := DistanceMatrix(hand, sqrt).value;
      var classified := Classifier.Classify(unknownGesture, knownGestures, Classifier.HAND_NODES, gestNames, Classifier.ERROR_TOLERANCE);
      && (classified.Failure? ==> r == Failure(MatchFailed(classified.error)))
      && (classified.Success? ==> r == Success(classified.value))
  {
    match DistanceMatrix(hand, sqrt)
    case Failure(e) => Failure(DescriptorFailed(e))
    case Success(unknownGesture) =>
      FullHandHasNodes(unknownGesture);
      match Classifier.Classify(unknownGesture, knownGestures, Classifier.HAND_NODES, gestNames, Classifier.ERROR_TOLERANCE)
      case Failure(e) => Failure(MatchFailed(e))
      case Success(myGesture) => Success(myGesture)
  }

  /** The `handleGesture` call a dispatched command makes. */
  function Issue(command: Option<Commands.Command>): (r: Option<Commands.Action>)
    ensures r.Some? <==> command.Some?
  {
    if command.None? then None
    else Some(Commands.HandleGesture(command.value.commandMode, command.value.myGesture))
  }

  /** One pass of the main loop for one read `chunk` of the stream at time
      `now`: the new loop state and the command issued, if any, or the
      exception that ends the loop. */
  function Pass(s: LoopState, chunk: seq<Frames.byte>, detect: seq<Frames.byte> -> Option<seq<Point>>, now: int,
                knownGestures: seq<Matrix>, gestNames: seq<string>, sqrt: real -> real): (r: (LoopState, Result<Option<Commands.Action>, LoopError>))
    requires ReportsFullHands(detect) && Templates(knownGestures)
    // the stream buffer moves on whatever happens to the frame
    ensures r.0.bitSequence == Frames.Scan(s.bitSequence + chunk).1
    // no frame, or no hand in it: the command state is untouched
    ensures Frames.Scan(s.bitSequence + chunk).0.None? ==> r.0.machine == s.machine && r.1 == Success(None)
    ensures var frame := Frames.Scan(s.bitSequence + chunk).0;
      frame.Some? && detect(frame.value).None? ==> r.0.machine == s.machine && r.1 == Success(None)
    // an exception leaves the command state as it was
    ensures r.1.Failure? ==> r.0.machine == s.machine
    // a frame with a hand: its label drives the command state, and the
    // command it dispatches is handed to handleGesture
    ensures var frame := Frames.Scan(s.bitSequence + chunk).0;
      frame.Some? && detect(frame.value).Some? ==>
        var classified := Label(detect(frame.value).value, knownGestures, gestNames, sqrt);
        && (classified.Failure? ==> r == (LoopState(r.0.bitSequence, s.machine), Failure(classified.error)))
        && (classified.Success? ==>
              var step := Commands.Next(s.machine, classified.value, now);
              r == (LoopState(r.0.bitSequence, step.next), Success(Issue(step.command))))
  {
    var (frame, rest) := Frames.Scan(s.bitSequence + chunk);
    if frame.None? then (LoopState(rest, s.machine), Success(None))
    else
      var myHand := detect(frame.value);
      if myHand.None? then (LoopState(rest, s.machine), Success(None))
      else
        var classified := Label(myHand.value, knownGestures, gestNames, sqrt);
        if classified.Failure? then (LoopState(rest, s.machine), Failure(classified.error))
        else
          var step := Commands.Next(s.machine, classified.value, now);
          (LoopState(rest, step.next), Success(Issue(step.command)))
  }

  /** Commands are only issued while acting in a mode, and only once more
      than DEBOUNCE ticks have passed since the last commit. */
  lemma {:induction false} CommandsOnlyWhileActing(s: LoopState, chunk: seq<Frames.byte>, detect: seq<Frames.byte> -> Option<seq<Point>>, now: int,
                                                   knownGestures: seq<Matrix>, gestNames: seq<string>, sqrt: real -> real)
    requires ReportsFullHands(detect) && Templates(knownGestures)
    requires Commands.Invariant(s.machine)
    ensures var r := Pass(s, chunk, detect, now, knownGestures, gestNames, sqrt);
      Commands.Invariant(r.0.machine) &&
      (r.1.Success? && r.1.value.Some? ==> s.machine.attempt == 2 && now - s.machine.preFrameTime > Commands.DEBOUNCE)
  {
    var (frame, rest) := Frames.Scan(s.bitSequence + chunk);
    if frame.Some? && detect(frame.value).Some? {
      var classified := Label(detect(frame.value).value, knownGestures, gestNames, sqrt);
      if classified.Success? {
        var step := Commands.Next(s.machine, classified.value, now);
        assert step.command.Some? ==> s.machine.attempt != 1;
      }
    }
  }

  /** A hand with the descriptor of template k, and of no earlier template,
      is labelled with the name of template k. */
  lemma {:induction false} TemplateHandLabelled(hand: seq<Point>, knownGestures: seq<Matrix>, gestNames: seq<string>, sqrt: real -> real, k: nat)
    requires |hand| == LANDMARKS && Templates(knownGestures)
    requires k < |gestNames| <= |knownGestures|
    requires DistanceMatrix(hand, sqrt) == Success(knownGestures[k])
    requires forall j :: 0 <= j < k ==>
      !Classifier.AgreeOn(knownGestures[j], knownGestures[k], Classifier.HAND_NODES, Classifier.HAND_NODES)
    ensures Label(hand, knownGestures, gestNames, sqrt) == Success(gestNames[k])
  {
    var unknownGesture := knownGestures[k];
    assert Classifier.Comparable(unknownGesture, knownGestures, Classifier.HAND_NODES);
    Classifier.OwnTemplateRecognised(unknownGesture, knownGestures, Classifier.HAND_NODES, gestNames, Classifier.ERROR_TOLERANCE, k);
  }

  /** End to end: while acting in a mode with the debounce passed, a frame
      alone in the stream whose hand has the descriptor of template k (and
      of no earlier template) issues the command for the name of template k. */
  lemma {:induction false} TemplateHandIssuesItsCommand(s: LoopState, jpg: seq<Frames.byte>, detect: seq<Frames.byte> -> Option<seq<Point>>, now: int,
                                                       knownGestures: seq<Matrix>, gestNames: seq<string>, sqrt: real -> real, k: nat)
    requires ReportsFullHands(detect) && Templates(knownGestures)
    requires s.bitSequence == [] && Frames.IsFrame(jpg) && detect(jpg).Some?
    requires s.machine.attempt == 2 && now - s.machine.preFrameTime > Commands.DEBOUNCE
    requires k < |gestNames| <= |knownGestures|
    requires DistanceMatrix(detect(jpg).value, sqrt) == Success(knownGestures[k])
    requires forall j :: 0 <= j < k ==>
      !Classifier.AgreeOn(knownGestures[j], knownGestures[k], Classifier.HAND_NODES, Classifier.HAND_NODES)
    requires gestNames[k] != Classifier.UNKNOWN
    ensures var mode := if gestNames[k] == Commands.STOP then "" else s.machine.commandMode;
      Pass(s, jpg, detect, now, knownGestures, gestNames, sqrt) ==
        (LoopState([], Commands.MachineState(if gestNames[k] == Commands.STOP then 1 else 2, mode, now)),
         Success(Some(Commands.HandleGesture(mode, gestNames[k]))))
  {
    Frames.FrameAloneIsTaken(jpg);
    assert s.bitSequence + jpg == jpg;
    TemplateHandLabelled(detect(jpg).value, knownGestures, gestNames, sqrt, k);
  }

  /** The variables of the testing script's main loop. */
  class TestingLoop {
    const extractor: Frames.FrameExtractor
    const machine: Commands.CommandMachine
    const knownGestures: seq<Matrix>
    const gestNames: seq<string>
    const sqrt: real -> real

    function State(): LoopState
      reads extractor, machine
    {
      LoopState(extractor.buffer, machine.State())
    }

    ghost predicate Valid()
      reads this, machine
    {
      machine.Valid() && Templates(knownGestures)
    }

    /** The set-up before the loop: empty buffer, attempt 1, no mode, the
        timer started at `now`, and the loaded templates and names. */
    constructor (now: int, knownGestures: seq<Matrix>, gestNames: seq<string>, sqrt: real -> real)
      requires Templates(knownGestures)
      ensures Valid() && fresh(extractor) && fresh(machine)
      ensures State() == LoopState([], Commands.MachineState(1, "", now))
      ensures this.knownGestures == knownGestures && this.gestNames == gestNames && this.sqrt == sqrt
    {
      extractor := new Frames.FrameExtractor();
      machine := new Commands.CommandMachine(now);
      this.knownGestures := knownGestures;
      this.gestNames := gestNames;
      this.sqrt := sqrt;
    }

    /** One pass of the loop body for one read of the stream. */
    method Read(chunk: seq<Frames.byte>, detect: seq<Frames.byte> -> Option<seq<Point>>, now: int)
      returns (r: Result<Option<Commands.Action>, LoopError>)
      requires Valid() && ReportsFullHands(detect)
      modifies extractor, machine
      ensures Valid()
      ensures (State(), r) == Pass(old(State()), chunk, detect, now, knownGestures, gestNames, sqrt)
    {
      var jpg := extractor.Extend(chunk);
      if jpg.None? {
        return Success(None);
      }
      var myHand := detect(jpg.value);
      if myHand.None? {
        return Success(None);
      }
      var found := FindDistances(myHand.value, sqrt);
      if found.Failure? {
        return Failure(DescriptorFailed(found.error));
      }
      var unknownGesture := Snapshot(found.value);
      HoldsUnique(found.value, unknownGesture, DistanceMatrix(myHand.value, sqrt).value);
      FullHandHasNodes(unknownGesture);
      var myGesture := Classifier.MatchGesture(unknownGesture, knownGestures, Classifier.HAND_NODES, gestNames, Classifier.ERROR_TOLERANCE);
      if myGesture.Failure? {
        return Failure(MatchFailed(myGesture.error));
      }
      var command := machine.Step(myGesture.value, now);
      r := Success(Issue(command));
    }
  }
}
