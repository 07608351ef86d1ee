# Two-camera dataset recorder and extractor, modelled in Dafny

The system records and post-processes a two-camera RealSense dataset. It has two scripts.

- **The recorder** (`collect_action.py`) runs an operator menu. Each valid choice records one take of the chosen action. A take is two `.bag` files, one per camera serial number, named `take_NN_<serial>.bag` under `Dataset/<action>/`. The take number `NN` is one past the largest number already there.
- **The extractor** (`process.py`) has two parts.
  - Its *manager* lists the dataset's action directories in sorted order. It collects each directory's take numbers from the first camera's files and dispatches one task per (action, take).
  - Its *worker* (`process_take`) plays both recordings back in lock-step. For every step where both cameras deliver colour and depth, it writes a merged RGB frame, a merged colour-mapped depth frame and four PNG images named `frame_NNNN.png`. Then it stops both playbacks and releases both video writers.

The model has seven modules, one per component of the source plus two for shared definitions and cross-script facts:

- `PyText`: the Python conventions the scripts rely on. This covers `f"{n:0Wd}"` formatting, `int()` on a string (the surrounding space, `\t`, `\n`, `\v`, `\f` and `\r` skipped, an optional sign, digits with single `_` separators), `str.split`, `startswith`/`endswith`/`in`, `lower()` and `os.path.join` on relative paths.
- `Sorting`: Python's ordering of strings, and `sorted(set(...))` on integers.
- `Extractor`: `process_take`.
  - The file system is a map from `.bag` path to the recording it holds. A missing key means `os.path.exists` is false.
  - A recording is either unplayable (its `pipeline.start` raises `RuntimeError` with a message) or a sequence of reads. Each read fails, or yields a frame set whose colour and depth rasters may each be missing.
  - Everything the worker does to the outside world is an ordered log of effects: directories made, writers opened, playbacks started, frames and images written, playbacks stopped and writers released.
  - An exception inside the pairing loop is a `fault`: the ordinal of the write call that raises. The ordinal equal to the number of writes stands for an exception after the last write.
  - `ProcessTake` is an imperative method proved equal to the closed-form `Expected`.
- `ExtractorFacts`: what the worker guarantees, proved about `Expected`.
- `Manager`: the enumeration in the extractor's `main`, as an imperative method (`PlanTasks`) proved equal to the closed-form `PlanOf`. A directory listing is a sequence of entries, each with its name, whether it is a directory, and its own listing.
- `Recorder`: `get_next_take_number`, the menu-choice classification, the output file names, and the menu loop of `main` (`RecordSession`, proved equal to `SessionSpec`). The operator's input is a sequence of lines, and the disk is a map from directory to listing.
- `EndToEnd`: how the recorder's names meet the extractor's.

Notes on what the code does, which the model follows:

- **Positional pairing.** The worker pairs the two streams positionally. A step where any of the four rasters is missing is dropped for both cameras, so the frame count is the number of steps before the first failing read at which *both* frame sets are complete. That is at most the smaller of the two successful-read counts, and it equals that minimum exactly when no raster is missing at any step before the loop stops (`ExtractorFacts.ShorterIffAllComplete`, `ExtractorFacts.PairingIsPositional`).
- **Exceptions.** An exception raised inside the pairing loop is not caught. The `finally` stops and releases everything, and then the exception leaves the worker (`Ending.Raised`).
- **Failure to start playback.** When a playback fails to start, the worker returns an error status. It never stops the playback that did start and never releases the two writers already opened (`ExtractorFacts.StartFailureLeaks`).
- **Writers are not checked.** Whether a video writer opened is never checked.
- **Unparseable take files.** `get_next_take_number` does not catch the `ValueError` of an unparseable take file. The exception ends the whole recording session, through the outer `except` of `main`.
- **Placeholder serials.** As shipped, the extractor still carries the placeholder serial numbers, so its `main` refuses to run (`Manager.ShippedRefuses`). The recorder carries real ones (`Recorder.ShippedSerialsDiffer`).
- **`Idle/Resting`.** The recorder's fifth action is `Idle/Resting`. Its takes are written one directory further down, and the manager only looks one level deep, so they are never dispatched (`EndToEnd.NestedActionNeverDispatched`).
- **The pool cannot run the worker.** `main` hands `executor.map` a lambda (process.py:132). A `ProcessPoolExecutor` must pickle the function it sends to a worker process, and a lambda cannot be pickled. So each result fails with a pickling error, `list(...)` re-raises the first one in `main`, and `process_take` never runs through the pool. This follows from the Python semantics of the pool; the model leaves the pool out and states what a direct call of `process_take` does.
- **Unpadded names.** The manager accepts any name whose second `_` field parses, such as `take_3_<serial>.bag`. The worker only opens the zero-padded `take_03_<serial>.bag`, so such a take is dispatched and then skipped (`EndToEnd.UnpaddedNameDispatched`, `EndToEnd.UnpaddedNameSkipped`).

## Model

| member | source | states |
|---|---|---|
| PyText.Decimal | process.py:96 | the decimal text of `n` is a non-empty digit string with no leading zero unless `n` is 0 |
| PyText.DecimalValue | process.py:96 | the digits of `str(n)` read back as `n` |
| PyText.FormatInt | process.py:31 | `f"{n:0Wd}"` is at least `W` characters long and, for `n >= 0`, all digits |
| PyText.ZeroPadDecimal | process.py:31 | zero padding keeps the value of the digits |
| PyText.FormatIntShape | process.py:117 | a formatted integer ends in a digit, starts with a digit or `-`, and holds no `_`, so `split('_')` keeps it whole |
| PyText.FormatIntWidth | process.py:84 | a number below `10^W` formats to exactly `W` characters (`frame_NNNN` for fewer than 10000 frames) |
| PyText.DecimalLength | process.py:84 | a number below `10^W` has at most `W` decimal digits |
| PyText.ParseFormatInt | process.py:117 | `int(f"{n:0Wd}") == n` for every integer `n` and width `W` |
| PyText.ParseUnsigned | collect_action.py:26 | `int()` of a plain digit string is the value of its digits |
| PyText.ParseNegative | process.py:117 | `int()` of `-` followed by a digit string is minus the value of the digits |
| PyText.ParseFormatNonNegative | process.py:117 | `int(f"{n:0Wd}") == n` for every `n >= 0` |
| PyText.ParseFormatNegative | process.py:117 | `int(f"{n:0Wd}") == n` for every `n < 0`, whose text is `-` then the padded magnitude |
| PyText.FormatIntInjective | process.py:84 | distinct numbers format to distinct texts |
| PyText.StripLeftShape | collect_action.py:59 | the leading-whitespace strip `int()` applies removes only whitespace and returns a suffix not starting with whitespace |
| PyText.StripRightShape | collect_action.py:59 | the trailing-whitespace strip `int()` applies removes only whitespace and returns a prefix not ending in whitespace |
| PyText.StripNoSpace | collect_action.py:59 | stripping a string without outer whitespace changes nothing |
| PyText.IntSkipsOnlyBlanks | collect_action.py:59 | `int(" 5\n")` is 5, while `int("\x1c5")` raises: `int()` skips only space and `\t` to `\r` |
| PyText.Unseparated | process.py:117 | removing `_` separators from a string of digits and `_` leaves only digits, and leaves a plain digit string unchanged; which characters it keeps, in which order, is stated by `UnseparatedAppend` and `UnseparatedChar` |
| PyText.UnseparatedAppend | process.py:117 | removing `_` separators distributes over concatenation, so the result is the input's other characters in order |
| PyText.UnseparatedChar | process.py:117 | a lone `_` is dropped and any other character kept |
| PyText.DigitRunChars | process.py:117 | a digit run `int()` accepts is made of digits and `_` only |
| PyText.Split | process.py:117 | `str.split(sep)` yields at least one part, and no part contains `sep` |
| PyText.SplitJoin | process.py:117 | joining the parts of `split(sep)` with `sep` gives back the string |
| PyText.SplitField | process.py:117 | splitting `a + sep + b`, where `a` holds no `sep`, gives `a` followed by the parts of `b` |
| PyText.ContainsAt | process.py:116 | a substring found at some position makes `in` true |
| PyText.ContainsWitness | process.py:116 | when `needle in s` holds, the needle occurs at some position of `s` |
| PyText.ContainsIff | process.py:116 | `needle in s` holds iff `needle` occurs at some position of `s` |
| PyText.EndsWithContains | process.py:116 | a string ending with a suffix contains it |
| PyText.Lower | collect_action.py:56 | `lower()` keeps the length |
| Sorting.LexReflexive | process.py:110 | string order is reflexive |
| Sorting.LexTotal | process.py:110 | string order is total |
| Sorting.LexAntisymmetric | process.py:110 | string order is antisymmetric |
| Sorting.LexTransitive | process.py:110 | string order is transitive |
| Sorting.InsertUnique | process.py:117 | `set.add` on a sorted duplicate-free sequence keeps it sorted and duplicate-free, and adds exactly the new element |
| Sorting.StrictlyIncreasingUnique | process.py:120 | two sorted duplicate-free sequences with the same elements are equal, so `sorted(list(take_numbers))` is determined by the set |
| Extractor.TakePrefixSplits | process.py:116-117 | for a name starting with `take_`, `split('_')` has a second field, so no `IndexError` arises, and the first field is `take` |
| Extractor.TakeFieldOfName | process.py:31-33 | `int(name.split('_')[1])` of `take_NN_<anything>` is the take number |
| Extractor.BagSuffixInjective | process.py:32-33 | the `_<serial>.bag` suffix determines the serial |
| Extractor.BagNameTakeField | process.py:31-33 | the take field of `take_NN_<serial>.bag` reads back as `NN` |
| Extractor.FirstFailure | process.py:63-65 | the count of successful reads before the first failing one: every read before it succeeds, and the one at it fails |
| Extractor.PairsBefore | process.py:62-71 | at most one written frame per step read |
| Extractor.AllWrites | process.py:76-87 | each written frame issues exactly six write calls |
| Extractor.CreateOutputs | process.py:38-46 | the four `makedirs` calls, then both video writers opened at twice the camera width, the configured height and fps |
| Extractor.PairingLoop | process.py:60-94 | the loop issues exactly the writes of the complete steps before the stop step and counts them. A fault `f` raises iff `f` is at most the total (the total itself being an exception after the last write), and then exactly the first `f` writes happen |
| Extractor.StopsAtFailure | process.py:63-65 | a failing read reached by the loop is at the stop step |
| Extractor.FaultPrefix | process.py:61-89 | the writes made before a fault in step `n` are a prefix of the whole take's writes |
| Extractor.FaultBeforeStep | process.py:61-67 | an exception at the top of a step, in its reads or alignment, leaves the writes so far, a prefix of the whole take's writes |
| Extractor.ProcessTake | process.py:26-96 | `process_take`'s ending and its full effect log equal the closed form `Expected`: skip, start failure, completion, or a raise after the `finally` |
| Extractor.AllWritesAppend | process.py:84-89 | one more complete step adds its six writes, numbered with the count so far |
| Extractor.PairsBeforePrefix | process.py:62-71 | the frames written by an earlier step are a prefix of those written by a later one |
| Extractor.AllWritesMonotone | process.py:76-89 | the write log only grows |
| ExtractorFacts.PairsBeforeCharacterized | process.py:62-89 | the frames written before step `n` are exactly the steps below `n` where both frame sets are complete, in increasing order, each with that step's rasters |
| ExtractorFacts.PairsBeforeSound | process.py:62-89 | each frame written before step `n` comes from a step below `n` where all four rasters are present, and carries that step's rasters |
| ExtractorFacts.PairsBeforeOrdered | process.py:62-89 | the frames written before step `n` follow step order |
| ExtractorFacts.PairsBeforeComplete | process.py:62-89 | every step below `n` with all four rasters present is written |
| ExtractorFacts.PairsCharacterized | process.py:62-89 | the loop stops at the first step where either read fails. It writes one frame for each earlier step where all four rasters are present, in step order, and nothing else |
| ExtractorFacts.FrameCountBound | process.py:63-65 | the frame count is at most each stream's number of successful reads before its first failure |
| ExtractorFacts.AllStepsWrittenIff | process.py:62-89 | every one of the first `n` steps is written iff all four rasters are present at each of them |
| ExtractorFacts.ShorterIffAllComplete | process.py:63-89 | the loop stops at the smaller of the two successful-read counts, and the frame count equals it iff no raster is missing at any step before the stop |
| ExtractorFacts.PairingIsPositional | process.py:63-71 | a step with a missing raster consumes a frame set from both streams: the later complete sets are not re-paired |
| ExtractorFacts.WritesAt | process.py:77-87 | write `6k+j` of a take is the `j`-th write of frame `k` |
| ExtractorFacts.AllWritesWellFormed | process.py:77-87 | every write is a merged-video frame or a PNG, never a teardown call |
| ExtractorFacts.ImageIndexBelow | process.py:84-89 | every PNG index is below the frame count |
| ExtractorFacts.NoImageWrittenTwice | process.py:84-89 | no two PNG writes share a directory and an index |
| ExtractorFacts.BlockImagesDistinct | process.py:84-87 | the four PNGs of one frame go to four different directories, all with the frame's index |
| ExtractorFacts.EveryImageWritten | process.py:84-89 | for every frame index below the count and every image directory, a PNG with that index is written there |
| ExtractorFacts.ImageFilePathInjective | process.py:84-87 | distinct (directory, index) pairs give distinct `.../cam?_*/frame_NNNN.png` paths |
| ExtractorFacts.FramesToAppend | process.py:77-87 | frames sent to an output add up over a concatenated log |
| ExtractorFacts.FramesPerOutput | process.py:77-89 | each of the six outputs receives exactly one frame per written frame |
| ExtractorFacts.NoFramesOutsideLoop | process.py:38-57 | set-up and teardown send no frame to any output |
| ExtractorFacts.NoFrames | process.py:90-94 | a log without frame writes sends no frame to any output |
| ExtractorFacts.FramesToSix | process.py:77-87 | the frames one step sends to an output are counted over its two video writes and its PNG writes |
| ExtractorFacts.SkippedIffMissing | process.py:35-36 | the take is skipped iff a recording is missing, and then nothing at all is created or opened |
| ExtractorFacts.StartFailureLeaks | process.py:53-57 | a playback that fails to start gives the error status with the SDK's message. The opened writers and any started playback are never stopped or released |
| ExtractorFacts.TeardownOnEveryExit | process.py:61-94 | once both playbacks run, the log is set-up, a prefix of the take's writes, then exactly the four teardown calls, whether the loop ends, a write raises, or an exception comes after the last write. The take raises iff the fault is at most the number of writes, and then keeps exactly that many writes |
| ExtractorFacts.NoEarlyTeardown | process.py:38-94 | set-up calls and frame writes are never teardown calls, so only the last four calls stop or release anything |
| ExtractorFacts.ProcessedCountsFrames | process.py:89-96 | the returned frame count equals the frames each of the six outputs received |
| ExtractorFacts.FaultKeepsPrefix | process.py:61-94 | a fault only cuts a take short: before the failing call it does what a fault-free run does, and a fault after the last write leaves the whole fault-free log |
| ExtractorFacts.RaiseAfterLastWrite | process.py:61-94 | for every take whose playbacks start, some fault raises after making every write of a fault-free run, then tearing down |
| Manager.Contributions | process.py:115-118 | one parse attempt per listed name |
| Manager.Collect | process.py:114-120 | the collected take numbers are strictly increasing |
| Manager.CollectExact | process.py:114-120 | a number is collected iff some name contributed it |
| Manager.TakeNumbersExact | process.py:114-121 | an action's take numbers are sorted and duplicate-free, and contain `n` iff some listed name starts with `take_`, contains `_<serial1>.bag` and has `n` as its second field. Unparseable names are ignored |
| Manager.InsertByName | process.py:110 | inserting an entry keeps the sequence sorted by name and adds exactly that entry |
| Manager.InsertAtFront | process.py:110 | an entry whose name is no later than the head of a sorted sequence may go in front of it |
| Manager.InsertAfterHead | process.py:110 | an entry whose name is later than the head goes behind it, and the result is sorted and holds exactly one more entry |
| Manager.PrependSorted | process.py:110 | a sorted sequence stays sorted when an entry no later than all of it goes in front |
| Manager.HeadLeast | process.py:110 | the first entry of a sorted sequence has the least name |
| Manager.SortByName | process.py:110 | `sorted` yields a sorted permutation |
| Manager.AtMostOnce | process.py:110 | distinct names occur at most once |
| Manager.Twice | process.py:110 | a repeated entry occurs twice in the multiset |
| Manager.DistinctPermutation | process.py:110 | a permutation of entries with distinct names keeps them distinct |
| Manager.Directories | process.py:110 | the filter keeps exactly the directories |
| Manager.ActionDirs | process.py:110 | the action names are exactly the dataset's directories, sorted and distinct |
| Manager.CollectTakeNumbers | process.py:114-120 | the inner loop's sorted set equals `TakeNumbers` |
| Manager.AppendTasks | process.py:120-121 | appends one task per take number, in order |
| Manager.PlanTasks | process.py:103-124 | `main` refuses on placeholder serials or a missing dataset, and otherwise dispatches exactly `AllTasks`, or reports none |
| Manager.TasksOfExact | process.py:120-121 | an action's tasks are exactly its take numbers |
| Manager.TasksBeforeExact | process.py:112-121 | the tasks of the first `n` actions are exactly those yielded by one of them |
| Manager.TasksExact | process.py:110-121 | `(a, n)` is dispatched iff the dataset has a directory `a` with a first-camera take file numbered `n` |
| Manager.TaskFromDirectory | process.py:110-121 | every dispatched task comes from a directory of the dataset holding a first-camera take file with that number |
| Manager.DirectoryYieldsTask | process.py:110-121 | every first-camera take file with a number, in a directory of the dataset, is dispatched |
| Manager.BlockOrdered | process.py:120-121 | one action's tasks are in increasing take order |
| Manager.OrderedAppend | process.py:112-121 | appending a later action's block keeps tasks ordered |
| Manager.TasksBeforeOrdered | process.py:112-121 | the tasks so far are ordered by action name, then take number |
| Manager.AllTasksOrdered | process.py:110-121 | all tasks are ordered by action name, then by take number |
| Manager.PlanCases | process.py:103-124 | each of the four outcomes of `main` happens exactly under its condition, and a dispatch is never empty |
| Manager.ShippedRefuses | process.py:13-14 | with the shipped placeholder serials, `main` refuses whatever the dataset holds |
| Recorder.TakeFilesMembers | collect_action.py:24 | the comprehension keeps exactly the names starting with `take_` and ending with `_<serial1>.bag` |
| Recorder.ParseTakeNumbersMeaning | collect_action.py:26 | when every take file's second field parses, the numbers come one per name, in order. Otherwise the comprehension fails iff some name has no number, and it names such a file |
| Recorder.Max | collect_action.py:26 | `max` returns an element no smaller than any other |
| Recorder.NextTakeFails | collect_action.py:24-26 | `get_next_take_number` raises iff some first-camera take file has no number, and then names such a file |
| Recorder.NextTakeExceeds | collect_action.py:24-27 | otherwise the result is 1 when there is no take file, and else one past the largest take number. It exceeds every existing one |
| Recorder.NumberAtMostMax | collect_action.py:26-27 | every take file's number is at most `max_num` |
| Recorder.MaxNumbered | collect_action.py:26-27 | some take file carries `max_num` |
| Recorder.NextTakeAttained | collect_action.py:24-27 | when there is a take file, one of them carries the result minus one |
| Recorder.ClassifyCases | collect_action.py:56-61 | `q` or `Q` quits. An input whose `int()` is an action key selects that action. Anything else is invalid |
| Recorder.LowerIsQ | collect_action.py:56 | `choice.lower() == 'q'` iff the choice is `q` or `Q` |
| Recorder.MenuKeySelects | collect_action.py:31 | typing a menu key shown selects its action |
| Recorder.OutputFiles | collect_action.py:69-71 | the two output files share `<action path>/take_NN` and end with each camera's `_<serial>.bag` |
| Recorder.OutputNameIsTakeFile | collect_action.py:24-26 | a recorded first-camera file is a take file and reads back as its take number |
| Recorder.OtherCameraIgnored | collect_action.py:24 | the second camera's files never count as first-camera take files when the serials differ and have the same length |
| Recorder.NextTakeIsFresh | collect_action.py:21-27 | the chosen take number names a first-camera file not yet on disk |
| Recorder.NextAfterRecording | collect_action.py:64-71 | after recording take `n`, the next take number in the same directory is `n + 1` |
| Recorder.WithFile | collect_action.py:69-71 | after a file is written, the directory lists exactly the names it listed before and that file |
| Recorder.WithFileKeepsListing | collect_action.py:69-71 | writing a file keeps every listed name and never lists a name twice |
| Recorder.NextAfterAppending | collect_action.py:24-27 | writing a first-camera file numbered with the next take, and a file that is not a first-camera take, moves the next take to one more |
| Recorder.RecordSession | collect_action.py:34-94 | the session loop's end, recorded takes and final disk equal the closed form `SessionSpec` |
| Recorder.SessionNumbersIncrease | collect_action.py:53-71 | within a session, takes of the same action get strictly increasing numbers |
| Recorder.SessionSpecIncreasing | collect_action.py:34-94 | a whole session never reuses a take number for an action |
| Recorder.SessionFromEnds | collect_action.py:53-92 | the menu loop ends only by `q`, end of input, or an unparseable take file |
| Recorder.SessionChecks | collect_action.py:35-41 | placeholder serials stop the session first and two cameras are required next. Either refusal records nothing and leaves the disk as it was |
| Recorder.ShippedSerialsDiffer | collect_action.py:8-9 | the shipped serials are real, distinct and of equal length |
| EndToEnd.RecorderTakeFileIsCandidate | collect_action.py:24 | a file the recorder counts as a take is one the manager considers |
| EndToEnd.RecordedTakeReadBack | process.py:116-117 | the manager reads back the take number of a recorded file |
| EndToEnd.RecordedWhereExtractorLooks | collect_action.py:69-71 | the recorder writes both files exactly where the worker looks for them |
| EndToEnd.RecordedTakeDispatched | process.py:110-121 | a recorded take in an action directory is dispatched |
| EndToEnd.NestedActionNeverDispatched | process.py:110 | an action name holding `/` is never dispatched |
| EndToEnd.IdleRestingIsNested | collect_action.py:18 | the recorder's fifth action writes under `Dataset/Idle/Resting` |
| EndToEnd.UnpaddedNameDispatched | process.py:116-117 | a name `take_3_<serial1>.bag` is read as take 3 |
| EndToEnd.UnpaddedNameSkipped | process.py:31-36 | with only unpadded files on disk, take 3 is skipped |

## Left out

- **Camera SDK.** pyrealsense2 playback, `try_wait_for_frames`, alignment and frame data are replaced by per-step read results. A step's read failing stands for a timeout or the end of the recording.
- **Image content.** OpenCV encoding, `hstack`, the depth scaling by 0.03 and the JET colour map are left out. Rasters are opaque identifiers, and a colour-mapped depth raster is told apart only by its tag.
- **Writer checks.** `VideoWriter` opening is never checked by the source and always succeeds in the model. The `mp4v` codec is not modelled.
- **Exception positions.** An exception inside the pairing loop is modelled by the ordinal of the write call that raises. An exception in a read or in alignment before a step's first write has the same effects as a fault at that write, and the model raises it at the top of the step. An exception after the last write, in a later read or alignment or in the read that would end the loop, is the ordinal equal to the number of writes: every write stands and the take raises (`ExtractorFacts.RaiseAfterLastWrite`). Which call raised is not recorded.
- **Teardown errors.** Exceptions raised by the teardown calls themselves are not modelled.
- **Directory creation.** `os.makedirs` and the recorder's `makedirs` never fail in the model.
- **File system.** `os.path.exists`, `os.path.isdir` and `os.listdir` are inputs: a map of recordings, an optional list of entries, and a map from directory to listing.
- **Listing order.** The order of `os.listdir` is part of the input listing.
- **Path joining.** `os.path.join` is modelled as joining with `/`. Absolute second components and platform separators are left out.
- **`int()` details.** Only the ASCII whitespace `int()` skips (space and `\t` to `\r`; not `\x1c` to `\x1f`, which `str.strip()` would remove) and ASCII digits are modelled. Unicode digits and spaces, which Python also accepts, are left out. `lower()` is modelled on ASCII letters only.
- **Parallelism.** The process pool, `tqdm` and the summary prints of the extractor's `main` are left out. The model stops at the task list the pool is given. `ProcessTake` states what one call `process_take(action, take)` does; as written, the pool never makes that call (see the notes above).
- **Recorder I/O.** In the recorder, printing, the menu text, `time.sleep`, stream configuration, and the recording itself (`pipeline.start`/`stop`) are left out. A recorded take adds its two file names to the directory listing, each unless it is already listed (writing over a file keeps one entry). A failure of `pipeline.start` or `stop` in the recorder is left out; the model covers only the `ValueError` of `get_next_take_number` and the end of input among the exceptions the outer `except` catches.
- **`KeyboardInterrupt`.** It is not caught by `except Exception` and is left out.
- **Padded menu input.** `Recorder.MenuKeySelects` states selection for the plain decimal key only. A key typed with surrounding spaces or a leading `+`/zeros also selects, by `Recorder.ClassifyCases`, but has no lemma of its own.
- **Status strings.** `StatusText` spells out the three return strings and has no contract of its own. The model reasons about the `Status` value.
