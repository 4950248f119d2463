# GESI gesture pipeline: a Dafny model

GESI (Gesture Enabled System Interaction) reads the JPEG stream of a camera
board. It finds one hand in each frame, using MediaPipe's 21 landmarks. It
turns the hand into a scale-normalised distance matrix, the "descriptor". A
nearest-template classifier names the gesture. A two-stage command machine
turns the labels into commands: first a mode ("One", "Two", "Three"), then
actions in that mode. The commands go to a smart-home trigger URL or to a
PowerPoint presentation.

The templates come from a training script. It records one hand per named
gesture and writes two CSV files:
- the landmarks, one row per gesture, each cell `str((x, y))`;
- the gesture names.

The testing script reads the files back with a digit-run parser.

The model has one module per part of the core:

- `wrappers.dfy` (`Wrappers`): `Option` and `Result`. Python exceptions
  become `Result` failures.
- `frames.dfy` (`Frames`): the byte buffer and the JPEG frame cut.
  - `bytes.find` is modelled as `Find`.
  - `Scan` specifies one read.
  - The class `FrameExtractor` keeps `bitSequence` and updates it in place.
- `descriptors.dfy` (`Descriptors`):
  - the descriptor `DistanceMatrix` as a function;
  - the `findDistances` family as methods over a mutable `array2<real>`,
    the numpy array.
- `classifier.dfy` (`Classifier`):
  - the scores `Margin`;
  - the first strict minimum `FirstMin`;
  - the result of `matchGesture` as `Classify`;
  - the three loop-based Python functions as methods proved against these.
- `commands.dfy` (`Commands`):
  - `handleGesture` and its table;
  - the state machine of the main loop, as the function `Next` and the
    class `CommandMachine`.
- `records.dfy` (`Records`):
  - the CSV cell format;
  - the `\d+` parser and the `loadKnownGestures` / `loadKnownGesturesNames`
    loaders;
  - the round trip between writing and reading.
- `training.dfy` (`Training`):
  - `getTrainingData`;
  - `addTrainingData` and the counter that stops at `numGest`;
  - `saveToCSV`;
  - the class `TrainingSession`.
- `recognition.dfy` (`Recognition`): one pass of the testing script's main
  loop, composing all of the above. The class is `TestingLoop`.

### Modelling choices

- The square root is a parameter `sqrt: real -> real`. Lemmas that need
  facts about it require `IsRoot(sqrt)`: the root of 0 is 0, and the root
  of a positive number is positive.
- The hand detector is a parameter `detect`: from a JPEG frame to no hand
  or a list of landmarks.
- The clock is an integer `now` passed to each pass. `time.time()` is read
  twice in a pass in the source. Here the same `now` serves as the
  elapsed-time reading and as the new `preFrameTime`.
- The answers typed at the training prompts are a parameter.
- Landmark coordinates are integers, as `int(x * WIDTH)` makes them.
  Descriptor cells are reals.

### Behaviour of the code that a reader may not expect

- **Frames per read.** At most one frame is cut per read of the stream,
  even when the buffer already holds a second complete frame. That frame
  waits for the next read (`Frames.TwoFramesOneRead`).
- **Marker order.** `isValidJPEG` only checks that both markers were found,
  not that the start marker comes first. When the first end marker precedes
  the first start marker, the Python slice is empty and an empty frame is
  handed on (`Frames.Scan`).
- **No names.** An empty name list does not classify as "Unknown": it
  raises IndexError (`gestureErrors[0]`). More names than templates is also
  an IndexError (`Classifier.Classify`).
- **Zero palm size.** A hand whose landmarks 0 and 9 coincide raises
  ZeroDivisionError. Nothing catches it, so the main loop ends instead of
  dropping the frame (`Recognition.Pass`).
- **Negative coordinates.** The cell parser keeps only digit runs, so a
  minus sign written by `str((x, y))` is lost on reading. A hand saved with
  negative coordinates reloads with their absolute values
  (`Records.CellRoundTrip`, `Records.MirroredPalmDoesNotReload`).
- **"Stop" after the debounce.** In the second stage, "Stop" clears the
  mode and then dispatches `handleGesture('', 'Stop')`, which does nothing
  (`Commands.Next`, `Commands.HandleGestureIsTable`).

## Model

| member | source | states |
|---|---|---|
| Frames.Find | test_train/testing.py:73-74 | `bytes.find` of a two-byte marker: -1 exactly when the marker occurs nowhere, otherwise the offset of its first occurrence |
| Frames.FindIsFirst | test_train/testing.py:73-74 | any first occurrence of a marker is the offset `find` returns |
| Frames.IsValidJPEG | test_train/testing.py:293-304 | for `find` results, valid exactly when neither marker is missing (-1) |
| Frames.Slice | test_train/testing.py:77 | Python's `s[lo:hi]`: hi - lo bytes starting at lo, or empty when the bounds cross |
| Frames.Scan | test_train/testing.py:72-78 | a frame is taken exactly when both markers occur. Without one, the buffer is kept whole. With one, the buffer keeps what follows the first end marker. When the start marker comes first, the frame runs from the start marker through the end marker and is a complete frame (`IsFrame`: it opens with FF D8 and its first FF D9 is its last two bytes). Otherwise the frame is empty |
| Frames.FrameAloneIsTaken | test_train/training.py:65-71 | a buffer holding exactly one frame yields that frame and is left empty |
| Frames.SplitFrameWaitsForEnd | test_train/testing.py:72-78 | a frame split over two reads is deferred after the first read and taken whole after the second |
| Frames.FrameThenRest | test_train/testing.py:72-78 | a buffer that opens with a complete frame yields that frame and keeps every byte after it |
| Frames.TwoFramesOneRead | test_train/testing.py:72-78 | two frames arriving in one read come out one per read, in order: the second stays whole in the buffer and comes out on the next read, whatever that read adds |
| Frames.FrameExtractor.constructor | test_train/testing.py:66 | the buffer starts empty |
| Frames.FrameExtractor.Extend | test_train/testing.py:72-78 | appends the read to the buffer, then takes at most one frame, with the new buffer and frame as `Scan` of the old buffer plus the read |
| Descriptors.SquaredDistance | test_train/testing.py:385 | the squared distance is non-negative and zero exactly for equal landmarks |
| Descriptors.SquaredDistanceSymmetric | test_train/testing.py:385 | the distance of i to j equals that of j to i |
| Descriptors.PalmSize | test_train/testing.py:363-371 | the palm size is the same whichever of landmarks 0 and 9 is taken first |
| Descriptors.DistanceMatrix | test_train/testing.py:339-386 | IndexError exactly when there is no landmark 9. ZeroDivisionError exactly when the palm size is zero. Otherwise an n×n matrix whose cell (i, j) is the distance of landmarks i and j divided by the palm size |
| Descriptors.PalmPositive | test_train/testing.py:363-371 | a non-zero palm size is positive |
| Descriptors.DescriptorSymmetric | test_train/testing.py:383-385 | the descriptor is symmetric |
| Descriptors.DescriptorNonNegative | test_train/testing.py:383-385 | every descriptor cell is non-negative |
| Descriptors.DescriptorDiagonalAndPalmCell | test_train/testing.py:383-385 | the diagonal is zero, and cell (0, 9) is exactly 1 |
| Descriptors.DegenerateIffCoincident | test_train/testing.py:370 | the palm size is zero exactly when landmarks 0 and 9 coincide |
| Descriptors.TranslationInvariant | test_train/testing.py:339-386 | moving every landmark by the same offset leaves the descriptor, or the exception, unchanged |
| Descriptors.Snapshot | test_train/training.py:291 | the matrix read out of an array is the one the array holds |
| Descriptors.GenerateDistanceMatrix | test_train/testing.py:352-361 | a fresh n×n array of zeros, n the number of landmarks |
| Descriptors.PopulateDistanceMatrix | test_train/testing.py:373-386 | the nested loops fill every cell with the normalised distance |
| Descriptors.FindDistances | test_train/testing.py:339-350 | fails exactly as `DistanceMatrix` does; otherwise returns a fresh array holding the `DistanceMatrix` value |
| Classifier.RowError | test_train/testing.py:453-455 | one row's sum of absolute differences is non-negative |
| Classifier.Margin | test_train/testing.py:442-456 | the error score is non-negative |
| Classifier.RowErrorZeroIff | test_train/testing.py:453-455 | a row's score is zero exactly when the two matrices agree on that row's tracked cells |
| Classifier.MarginZeroIff | test_train/testing.py:442-456 | the error score is zero exactly when the two matrices agree on every tracked cell |
| Classifier.RowErrorFrame | test_train/testing.py:453-455 | a row's score depends only on the tracked cells |
| Classifier.MarginFrame | test_train/testing.py:442-456 | the error score depends only on the tracked cells |
| Classifier.RowErrorSymmetric | test_train/testing.py:454 | a row's score does not depend on which matrix is the template |
| Classifier.MarginSymmetric | test_train/testing.py:442-456 | the error score does not depend on which matrix is the template |
| Classifier.ErrorMargin | test_train/testing.py:442-456 | the nested loops compute the error score `Margin` |
| Classifier.Errors | test_train/testing.py:419-422 | one score per named template |
| Classifier.FirstMin | test_train/testing.py:400-404 | the index a left-to-right strict-`<` scan settles on is the lowest index of a smallest score |
| Classifier.FirstMinUnique | test_train/testing.py:400-404 | only one index is the lowest index of a smallest score |
| Classifier.GestureWithinTolerance | test_train/testing.py:426-440 | the result is the candidate name or "Unknown": "Unknown" when the error is not below the tolerance, the name exactly when it is below (for a name other than "Unknown") |
| Classifier.Classify | test_train/testing.py:388-440 | IndexError when there are no names, or more names than templates. Otherwise, with k the first minimum: the name of template k when its score is below the tolerance, "Unknown" when it is not |
| Classifier.GestureErrorCalculator | test_train/testing.py:408-424 | the same IndexErrors; otherwise the scores of the named templates in order, with the first score as the starting minimum |
| Classifier.MatchGesture | test_train/testing.py:388-406 | returns exactly `Classify` |
| Classifier.OwnTemplateRecognised | test_train/testing.py:388-440 | a descriptor equal on the tracked cells to template k, and to no earlier one, is named as template k when the tolerance is positive |
| Classifier.OnlyNamedTemplatesScored | test_train/testing.py:420-421 | templates beyond the number of names never change the result |
| Commands.HandleGesture | test_train/testing.py:211-271 | only modes "One", "Two", "Three" act, only on the five action names; the presentation is driven only in "Two", web requests only in "One" and "Three" |
| Commands.CheckForReset | test_train/testing.py:136-141 | reset exactly on "Stop", which is never the "Unknown" label |
| Commands.Run | test_train/testing.py:68-123 | a run of passes sends at most one command per labelled frame, and extending the run only appends commands |
| Commands.HandleGestureIsTable | test_train/testing.py:211-271 | `handleGesture` does exactly what the 13-entry (mode, action) table says, and nothing for every other pair |
| Commands.Next | test_train/testing.py:93-123 | the state machine step. It keeps the invariant (attempt 1 with no mode, or attempt 2). Nothing happens in attempt 1 before the debounce. After the debounce, attempt 1 restarts the timer and either stays (on "Unknown") or selects the label as the mode. In attempt 2, "Unknown" changes nothing. "Stop" resets at once. A recognised label dispatches (mode, label) exactly when more than 4 ticks have passed, restarting the timer |
| Commands.RunKeepsInvariant | test_train/testing.py:68-123 | every state the loop reaches keeps the invariant |
| Commands.ModeThenAction | test_train/testing.py:96-123 | "One" then "Thumb-up" (each after the debounce) dispatch the smart-home trigger, and a following "Stop" at once returns to mode selection |
| Commands.CommandMachine.constructor | test_train/testing.py:48-57 | attempt 1, no mode, timer started now |
| Commands.CommandMachine.Step | test_train/testing.py:93-123 | the in-place updates of the loop give the state and the dispatch of `Next` |
| Records.NatToString | test_train/training.py:305 | `str` of a natural number is a non-empty run of digits |
| Records.ParseNatToString | test_train/testing.py:193 | `int` of the digits `str` writes is the number |
| Records.DigitPrefixLength | test_train/testing.py:193 | the length of the leading digit run: all digits, and followed by a non-digit or the end |
| Records.DigitRuns | test_train/testing.py:193 | `re.findall('\d+', …)` yields non-empty digit runs |
| Records.RunsTakeDigits | test_train/testing.py:193 | a digit run followed by a non-digit is found whole, and the search resumes after it |
| Records.RunsSkipNonDigits | test_train/testing.py:193 | characters that are not digits contribute no run |
| Records.CellRoundTrip | test_train/testing.py:193 | parsing the cell `str((x, y))` writes gives (\|x\|, \|y\|), which is (x, y) when neither is negative |
| Records.ParseRow | test_train/testing.py:193-194 | a row parses exactly when every cell holds at least two numbers, landmark k from cell k |
| Records.RowRoundTrip | test_train/training.py:302-305 | a written row parses back to the hand with signs dropped, and to the same hand when no coordinate is negative |
| Records.RowDescriptor | test_train/testing.py:193-194 | too few cells is an IndexError. ZeroDivisionError exactly when cells 0 and 9 both parse and give a zero palm size, whatever the other cells hold, since `findDistances` reads them first and divides at cell (0, 0). Otherwise a short cell is an IndexError, and a row whose cells all parse has the descriptor of the parsed hand |
| Records.LoadAll | test_train/testing.py:181-196 | loading succeeds exactly when every row has a descriptor, and then holds those descriptors in row order |
| Records.LoadNames | test_train/testing.py:198-209 | the names are the first row of the names file; an empty file is the IndexError (None) |
| Records.FormatCell | test_train/training.py:302-305 | a written cell is parenthesised; `CellRoundTrip` states what reading it gives |
| Records.FormatRow | test_train/training.py:302-305 | one cell per landmark |
| Records.IntToString | test_train/training.py:305 | `str` of an integer: digits, preceded by a minus sign exactly for negatives |
| Records.ParseNat | test_train/testing.py:193 | `int` of a digit run: its last digit is the units digit |
| Records.ParseCell | test_train/testing.py:193 | one number per digit run of the cell without its first and last character |
| Records.Collect | test_train/testing.py:192-196 | collecting keeps one descriptor per row |
| Records.CollectMeaning | test_train/testing.py:192-196 | loading succeeds exactly when every row does, keeping the descriptors in row order; otherwise it raises the first row's exception |
| Records.CollectFailurePersists | test_train/testing.py:192-196 | once a row raises, later rows do not matter |
| Records.LoadKnownGestures | test_train/testing.py:181-196 | the loop computes `LoadAll` |
| Records.MirroredPalmDoesNotReload | test_train/testing.py:193 | a hand whose landmarks 0 and 9 mirror each other across x = 0 has a descriptor when recorded, but its saved row reloads with ZeroDivisionError |
| Training.GetTrainingData | test_train/training.py:191-204 | `numGest` is the number typed, with one name per gesture read in order (none for a count below 1) |
| Training.SaveToCsv | test_train/training.py:294-308 | one data row per stored hand, and a names file of one row |
| Training.Step | test_train/training.py:83-92 | IndexError once every name is used. Without the record key, recording goes on and nothing changes. With the key down, a hand without a descriptor ends the script with its exception. A gesture is recorded exactly when the record key is down and the descriptor exists. It appends exactly one hand and its descriptor to the old lists, leaving them otherwise unchanged. The files are written exactly when the count reaches `numGest` |
| Training.StepKeepsConsistent | test_train/training.py:279-292 | each stored descriptor stays the descriptor of its hand |
| Training.SavedFilesHoldEveryGesture | test_train/training.py:86-92 | with the names read at the start, the saved files hold exactly `numGest` rows and `numGest` names |
| Training.NoGesturesNeverSaves | test_train/training.py:84 | asking for no gestures never saves: the first hand raises IndexError |
| Training.SavedTemplatesReload | test_train/training.py:294-308 | the saved files reload in the testing script as the same names and, row for row, the same descriptors, when no coordinate is negative |
| Training.TrainingSession.constructor | test_train/training.py:48-53 | count 0 and empty lists |
| Training.TrainingSession.AddTrainingData | test_train/training.py:279-292 | appends exactly one hand and its descriptor, or raises and stores nothing |
| Training.TrainingSession.HandSeen | test_train/training.py:83-92 | the in-place updates give the progress and outcome of `Step`, keeping every descriptor consistent |
| Recognition.FullHandHasNodes | test_train/testing.py:33 | a 21-landmark descriptor has every cell the tracked nodes need |
| Recognition.Label | test_train/testing.py:97-98 | a descriptor exception is reported as such; otherwise the label, or the IndexError, is what `matchGesture` (`Classify`) gives for the hand's descriptor |
| Recognition.Issue | test_train/testing.py:119-123 | a `handleGesture` call is made exactly when a command is dispatched |
| Recognition.Pass | test_train/testing.py:68-123 | the buffer always moves on as `Scan` says. Without a frame or a hand, the command state is untouched and nothing is issued. For a frame with a hand: when `Label` fails, the pass ends with that exception and the command state as it was; otherwise the state becomes `Next` of the label and the pass issues `handleGesture` of the command `Next` dispatches, if any |
| Recognition.CommandsOnlyWhileActing | test_train/testing.py:96-123 | the pass keeps the invariant and issues commands only in attempt 2 after the debounce |
| Recognition.TemplateHandLabelled | test_train/testing.py:97-98 | a hand with the descriptor of template k, and of no earlier template, is labelled with name k |
| Recognition.TemplateHandIssuesItsCommand | test_train/testing.py:72-123 | end to end: in attempt 2 after the debounce, a lone frame showing template k's hand issues `handleGesture(mode, name k)` and restarts the timer |
| Recognition.TestingLoop.constructor | test_train/testing.py:48-66 | empty buffer, attempt 1, no mode, timer started now |
| Recognition.TestingLoop.Read | test_train/testing.py:68-123 | one loop pass on the extractor and the machine gives exactly `Pass` |

## Left out

- The network: the HTTPS stream, its SSL context, reconnecting on timeout
  (the recursive `main()` on `socket.timeout` / `OSError`), and
  `process_request` with `requests`. A read is an argument.
- MediaPipe, OpenCV decoding, rotation and display, and the Esc key.
  - The detector is a parameter. It yields no hand, or 21 landmarks.
  - The record key is a boolean argument.
  - Quitting with Esc is not modelled.
- The PowerPoint COM calls. `handleGesture` returns the action it would take.
- Printed messages and the on-image text.
- The read size (`CAMERA_BUFFER_SIZE`, 4096 bytes): a read is any byte
  sequence.
- `process_request('')` for the (mode, action) pairs with an empty URL
  raises in `requests` (a missing URL scheme, an `OSError` subclass). The
  handler then restarts `main()`: attempt 1, no mode, empty buffer.
  `Commands.Next` and `Recognition.Pass` keep the mode instead;
  `HandleGesture` only returns `HttpRequest("")`.
- `cv2.imdecode` of the empty frame `Frames.Scan` yields when an end
  marker precedes the start marker raises an OpenCV error that nothing
  catches. `Recognition.Pass` hands that frame to the detector instead.
- Records.IsDigit: only the ASCII digits. Python 3's `\d` also matches
  other Unicode decimal digits, which `str` never writes.
- CSV quoting. The model takes the rows `csv.reader` returns as lists of
  strings, and the names file round-trips through it unchanged.
- Floating point. Descriptor cells are exact reals and the square root is
  an abstract function, so scale invariance is not stated.
- `int(input())` failing on non-numeric input, and input running out.
- `setLandmarks` truncating normalised landmark positions to pixels.
- The camera board firmware (`esp_camera/camera_pins.h`): pin constants only.
- The unused training tolerance constant (`errorTolerance=10` at
  `training.py:32`).
- Descriptors.PopulateDistanceMatrix: requires a non-zero palm size. The zero-palm ZeroDivisionError that `populateDistanceMatrix` raises at cell (0, 0) is raised by `Descriptors.FindDistances` before the call instead; no cell is written first in either case, so the outcome is the same.
- Classifier.Classify: requires every template and the live descriptor to
  have every tracked cell. The Python would raise IndexError in
  `errorMargin` for a smaller matrix; every matrix built here from a
  21-landmark hand has the cells.
- Classifier.ErrorMargin, Classifier.GestureErrorCalculator and
  Classifier.MatchGesture: require the same matrix shapes as `Classify`.
- Recognition.Pass: requires the detector to report 21 landmarks per hand
  and the templates to have the tracked cells. It does not model a
  template file of smaller hands.
- Commands.Next: the timer is an integer tick, not a float in seconds.
- Training.GetTrainingData: requires at least as many prompt answers as
  gestures.
