/** The two-stage command logic of the testing script: a first recognised
    gesture selects a command mode, later gestures are actions in that mode,
    a four-tick debounce separates commits, and "Stop" returns to mode
    selection at once. `handleGesture` turns a (mode, action) pair into at
    most one request to an executor. */
module Commands {
  import opened Wrappers
  import Classifier

  /** Ticks that must pass (strictly more than this) between commits. */
  const DEBOUNCE: int := 4

  /** The label that resets the machine to mode selection. */
  const STOP: string := "Stop"

  /** The smart-home trigger requested for ("One", "Thumb-up"). */
  const VOICE_MONKEY_URL: string := "https://api.voicemonkey.io/trigger?access_token=$ACCESS_TOKEN"

  /** What `handleGesture` asks an executor to do: a web request to a URL,
      or one of the presentation commands. */
  datatype Action =
    | NoAction
    | HttpRequest(url: string)
    | RunSlideShow
    | NextSlide
    | PreviousSlide
    | ExitSlideShowAndQuit

  /** `handleGesture`, with the printed messages left out. */
  function HandleGesture(commandMode: string, myGesture: string): (a: Action)
    // only the three modes act, and only on the five trained action names
    ensures a != NoAction ==> commandMode in {"One", "Two", "Three"}
    ensures a != NoAction ==> myGesture in {"One", "Thumb-up", "Thumb-down", "Go", "Rock"}
    // the presentation is only driven in mode "Two", requests only go out in "One" and "Three"
    ensures a.HttpRequest? ==> commandMode != "Two"
    ensures a != NoAction && !a.HttpRequest? ==> commandMode == "Two"
  {
    if commandMode == "One" then
      if myGesture == "Thumb-up" then HttpRequest(VOICE_MONKEY_URL)
      else if myGesture == "Thumb-down" || myGesture == "Go" || myGesture == "Rock" then HttpRequest("")
      else NoAction
    else if commandMode == "Two" then
      if myGesture == "Go" then RunSlideShow
      else if myGesture == "Thumb-up" then NextSlide
      else if myGesture == "Thumb-down" then PreviousSlide
      else if myGesture == "Rock" then ExitSlideShowAndQuit
      else NoAction
    else if commandMode == "Three" then
      if myGesture == "One" || myGesture == "Rock" || myGesture == "Go"
         || myGesture == "Thumb-up" || myGesture == "Thumb-down" then HttpRequest("")
      else NoAction
    else NoAction
  }

  /** The same dispatch, written as an explicit table of (mode, action) pairs. */
  const ACTION_TABLE: map<(string, string), Action> := map[
    ("One", "Thumb-up") := HttpRequest(VOICE_MONKEY_URL),
    ("One", "Thumb-down") := HttpRequest(""),
    ("One", "Go") := HttpRequest(""),
    ("One", "Rock") := HttpRequest(""),
    ("Two", "Go") := RunSlideShow,
    ("Two", "Thumb-up") := NextSlide,
    ("Two", "Thumb-down") := PreviousSlide,
    ("Two", "Rock") := ExitSlideShowAndQuit,
    ("Three", "One") := HttpRequest(""),
    ("Three", "Rock") := HttpRequest(""),
    ("Three", "Go") := HttpRequest(""),
    ("Three", "Thumb-up") := HttpRequest(""),
    ("Three", "Thumb-down") := HttpRequest("")
  ]

  /** `handleGesture` acts exactly on the pairs of the table, as the table
      says, and does nothing for every other pair (any other mode included). */
  lemma HandleGestureIsTable(commandMode: string, myGesture: string)
    ensures HandleGesture(commandMode, myGesture) ==
              if (commandMode, myGesture) in ACTION_TABLE then ACTION_TABLE[(commandMode, myGesture)] else NoAction
    ensures HandleGesture(commandMode, myGesture) != NoAction ==> (commandMode, myGesture) in ACTION_TABLE
  {
    var key := (commandMode, myGesture);
    var keys := ACTION_TABLE.Keys;
    assert key in keys <==> key in {
      ("One", "Thumb-up"), ("One", "Thumb-down"), ("One", "Go"), ("One", "Rock"),
      ("Two", "Go"), ("Two", "Thumb-up"), ("Two", "Thumb-down"), ("Two", "Rock"),
      ("Three", "One"), ("Three", "Rock"), ("Three", "Go"), ("Three", "Thumb-up"), ("Three", "Thumb-down")};
  }

  /** `attempt`, `commandMode` and `preFrameTime` of the testing script's main loop. */
  datatype MachineState = MachineState(attempt: int, commandMode: string, preFrameTime: int)

  /** The call `handleGesture(commandMode, myGesture)` that a step makes. */
  datatype Command = Command(commandMode: string, myGesture: string)

  datatype StepResult = StepResult(next: MachineState, command: Option<Command>)

  /** The state invariant: attempt is 1 (choosing a mode) or 2 (acting in
      it), and no mode is held while choosing one. */
  predicate Invariant(s: MachineState) {
    (s.attempt == 1 || s.attempt == 2) && (s.attempt == 1 ==> s.commandMode == "")
  }

  /** `checkForReset` */
  function CheckForReset(myGesture: string): (reset: bool)
    ensures reset <==> myGesture == STOP
    // the reset label is a recognised label, never the classifier's "Unknown"
    ensures reset ==> myGesture != Classifier.UNKNOWN
  {
    myGesture == STOP
  }

  /** One pass of the main loop for a frame with a hand, given the label the
      classifier gave it and the time `now`. */
  function Next(s: MachineState, myGesture: string, now: int): (r: StepResult)
    // the invariant is kept, and attempt only ever rises from 1 to 2
    ensures Invariant(s) ==> Invariant(r.next)
    ensures Invariant(s) && r.next.attempt > s.attempt ==> s.attempt == 1 && r.next.attempt == 2
    // attempt 1: nothing happens until more than DEBOUNCE ticks have passed
    ensures s.attempt == 1 && now - s.preFrameTime <= DEBOUNCE ==> r == StepResult(s, None)
    // attempt 1 never dispatches
    ensures s.attempt == 1 ==> r.command == None
    // attempt 1 after the debounce: the timer restarts; "Unknown" stays in
    // attempt 1, any other label becomes the mode
    ensures s.attempt == 1 && now - s.preFrameTime > DEBOUNCE ==>
              && r.next.preFrameTime == now
              && (myGesture == Classifier.UNKNOWN ==> r.next == MachineState(1, "", now))
              && (myGesture != Classifier.UNKNOWN && Invariant(s) ==> r.next == MachineState(2, myGesture, now))
    // attempt 2: "Unknown" changes nothing, the timer included
    ensures s.attempt != 1 && myGesture == Classifier.UNKNOWN ==> r == StepResult(s, None)
    // attempt 2: "Stop" returns to attempt 1 whatever the elapsed time
    ensures s.attempt != 1 && myGesture == STOP ==> r.next.attempt == 1 && r.next.commandMode == ""
    // attempt 2: any other label keeps the mode
    ensures s.attempt != 1 && myGesture != STOP && myGesture != Classifier.UNKNOWN ==>
              r.next.attempt == s.attempt && r.next.commandMode == s.commandMode
    // attempt 2: a recognised label dispatches, with the mode as it is after
    // any reset, exactly when the debounce has passed, and then restarts the timer
    ensures s.attempt != 1 && myGesture != Classifier.UNKNOWN ==>
              && (r.command.Some? <==> now - s.preFrameTime > DEBOUNCE)
              && (r.command.Some? ==> r.command.value == Command(r.next.commandMode, myGesture) && r.next.preFrameTime == now)
              && (r.command.None? ==> r.next.preFrameTime == s.preFrameTime)
  {
    var elapsedTime := now - s.preFrameTime;
    if s.attempt == 1 then
      if elapsedTime > DEBOUNCE then
        if myGesture == Classifier.UNKNOWN then StepResult(MachineState(1, "", now), None)
        else StepResult(MachineState(s.attempt + 1, s.commandMode + myGesture, now), None)
      else StepResult(s, None)
    else if myGesture == Classifier.UNKNOWN then StepResult(s, None)
    else
      var t := if CheckForReset(myGesture) then s.(attempt := 1, commandMode := "") else s;
      if elapsedTime > DEBOUNCE then StepResult(t.(preFrameTime := now), Some(Command(t.commandMode, myGesture)))
      else StepResult(t, None)
  }

  /** A labelled frame: the classifier's label and the time it was seen. */
  datatype Observation = Observation(gesture: string, time: int)

  /** The state after a run of observations and the commands they dispatched, in order. */
  function Run(s: MachineState, obs: seq<Observation>): (r: (MachineState, seq<Command>))
    // at most one command per observation
    ensures |r.1| <= |obs|
    // the commands of a longer run extend those of its prefix
    ensures obs != [] ==> Run(s, obs[..|obs| - 1]).1 <= r.1
  {
    if obs == [] then (s, [])
    else
      var (before, sent) := Run(s, obs[..|obs| - 1]);
      var step := Next(before, obs[|obs| - 1].gesture, obs[|obs| - 1].time);
      (step.next, sent + if step.command.Some? then [step.command.value] else [])
  }

  /** Every state reached from the initial state satisfies the invariant. */
  lemma {:induction false} RunKeepsInvariant(s: MachineState, obs: seq<Observation>)
    requires Invariant(s)
    ensures Invariant(Run(s, obs).0)
  {
    if obs != [] {
      RunKeepsInvariant(s, obs[..|obs| - 1]);
    }
  }

  /** "One" then "Thumb-up", each more than DEBOUNCE ticks after the previous
      commit, dispatch ("One", "Thumb-up"), which triggers the smart-home URL;
      the mode stays selected until "Stop" is seen, and "Stop" clears it even
      one tick later. */
  lemma ModeThenAction(start: int, t1: int, t2: int)
    requires t1 - start > DEBOUNCE && t2 - t1 > DEBOUNCE
    ensures var r1 := Next(MachineState(1, "", start), "One", t1);
      var r2 := Next(r1.next, "Thumb-up", t2);
      var r3 := Next(r2.next, STOP, t2 + 1);
      && r1 == StepResult(MachineState(2, "One", t1), None)
      && r2 == StepResult(MachineState(2, "One", t2), Some(Command("One", "Thumb-up")))
      && HandleGesture("One", "Thumb-up") == HttpRequest(VOICE_MONKEY_URL)
      && r3 == StepResult(MachineState(1, "", t2), None)
  {
    assert "" + "One" == "One";
  }

  /** The command state of the testing script's main loop. */
  class CommandMachine {
    var attempt: int
    var commandMode: string
    var preFrameTime: int

    function State(): MachineState
      reads this
    {
      MachineState(attempt, commandMode, preFrameTime)
    }

    ghost predicate Valid()
      reads this
    {
      Invariant(State())
    }

    /** `commandMode = ''`, `attempt = 1`, `preFrameTime = time.time()` */
    constructor (now: int)
      ensures Valid() && State() == MachineState(1, "", now)
    {
      attempt := 1;
      commandMode := "";
      preFrameTime := now;
    }

    /** The state updates of one pass of the main loop for a frame with a
        hand; returns the `handleGesture` call the pass makes, if any. */
    method Step(myGesture: string, now: int) returns (command: Option<Command>)
      requires Valid()
      modifies this
      ensures Valid()
      ensures StepResult(State(), command) == Next(old(State()), myGesture, now)
    {
      var elapsedTime := now - preFrameTime;
      command := None;
      if attempt == 1 {
        if elapsedTime > DEBOUNCE {
          preFrameTime := now;
          if myGesture == Classifier.UNKNOWN {
            attempt := 1;
            commandMode := "";
          } else {
            commandMode := commandMode + myGesture;
            attempt := attempt + 1;
          }
        }
      } else {
        if myGesture != Classifier.UNKNOWN {
          if CheckForReset(myGesture) {
            attempt := 1;
            commandMode := "";
          }
          if elapsedTime > DEBOUNCE {
            preFrameTime := now;
            command := Some(Command(commandMode, myGesture));
          }
        }
      }
    }
  }
}
