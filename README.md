# Real-time throw assistant: a Dafny model of its decide-and-act loop

The assistant watches a scrcpy window that mirrors an Android phone. Each pass of its loop
does the following:

- it reads the window rectangle and grabs that region of the screen;
- it asks a colour-mask circle detector for circles;
- if the first circle's radius is below 30 pixels, it sends an adb swipe from the bottom
  centre of the window to the circle's centre, then waits five seconds.

The loop ends on the `q` key or on any exception. The message it prints then depends on
whether the exception text names `ScreenShotError`.

This project models that logic in Dafny and proves what it promises. The window lookup, the
screen grabber, the detector, adb and the key poll are taken as inputs.

- `optional.dfy` (`Optional`): the `Option` datatype.
- `decimal.dfy` (`Decimal`): Python's `str` on integers (`Text`) and a reader of canonical
  decimal text (`Parse`). The two are proved inverse to each other in both directions.
- `text.dfy` (`Text`): Python's substring test `sub in s` (`Contains`). It is proved equal to
  "`sub` occurs at some position of `s`".
- `throw_assistant.dfy` (`ThrowAssistant`): the configuration constants and the pure
  decisions:
  - the capture region built from the window rectangle;
  - selection of the first circle;
  - the `r < 30` readiness rule;
  - the swipe gesture and the nine-word adb command. A reader `ParseCommand` is proved to
    invert the command builder;
  - the classification of exception texts and the quit-key test.
- `detection_loop.dfy` (`DetectionLoop`): the loop of `main`. Each pass is an abstract
  `Cycle` event:
  - `Raised(error)`: reading the rectangle, grabbing, converting or detecting raised;
  - `Frame(rect, circles, adb, poll)`: what the detector reported, how the adb call turned
    out, and whether the key poll gave a code or showing the frame raised.

  `CycleStep`, `LoopSpec` and `Session` are the specification functions.
  - `Run` and `RunLoop` are the imperative `main` and its `while` loop with `break` exits.
    Each is proved equal to its specification function.
  - `ActOnFrame` is lines 71-96 of a pass, written step by step.
  - The lemmas state what the loop promises: when it stops and why, one swipe per firing
    cycle, and the five-second wait after every swipe. They also state that an adb failure
    never ends the loop, and that a missing window means nothing is captured.

Some things the loop does:

- The code keeps no cooldown timestamp. The cooldown is a blocking `time.sleep(5)` inside the
  same pass, so no cycle runs during it. The model emits `Sleep(5000)` right after the swipe.
- The window is looked up by title only once, before the loop. A window lost mid-run shows up
  as whatever `GetWindowRect` or the grabber raises.
- The error kind is not a tagged value. It is inferred by searching the exception text for
  `ScreenShotError`, so a vanished window reported by `GetWindowRect` takes the generic
  "unexpected error" path.
- Any exception ends the loop, including one raised while showing the frame.

## Model

| member | source | states |
|---|---|---|
| `ThrowAssistant.CaptureRegion` | realtime_throw_assistant.py:71-73 | the region starts at the rectangle's top-left corner and ends exactly at its bottom-right corner (width x2 − x1, height y2 − y1) |
| `ThrowAssistant.SelectCircle` | realtime_throw_assistant.py:51-54 | None exactly when the detector reported nothing; otherwise the first reported circle, one of those reported, never a combination |
| `ThrowAssistant.Gesture` | realtime_throw_assistant.py:92-94 | the start x is the floor of width / 2 (Python `//`); the start y is 50 above the bottom edge; the end is the circle centre; the duration is 300 ms |
| `ThrowAssistant.GestureStartsInside` | realtime_throw_assistant.py:92 | in a window at least 50 px tall, the swipe starts inside the window |
| `ThrowAssistant.SwipeCommand` | realtime_throw_assistant.py:33-36 | the command always has nine words and begins with the adb path, `shell`, `input`, `swipe` |
| `ThrowAssistant.ParseSwipeCommand` | realtime_throw_assistant.py:33-36 | reading the command back gives exactly the gesture's four coordinates and duration |
| `ThrowAssistant.SwipeCommandOfParse` | realtime_throw_assistant.py:33-36 | every well-formed swipe command is the command of the gesture it reads as, so no two gestures share a command |
| `ThrowAssistant.DurationArgument` | realtime_throw_assistant.py:35 | the last word of every throw command is the text `300` |
| `ThrowAssistant.Classify` | realtime_throw_assistant.py:106 | an exception is a closed window exactly when `ScreenShotError` occurs somewhere in its text |
| `ThrowAssistant.QuitKeyCases` | realtime_throw_assistant.py:102 | no key (-1) does not quit; a non-negative key code quits exactly when its low byte is `q` (113) |
| `Decimal.Digits` | realtime_throw_assistant.py:35 | the decimal digits of a natural number are non-empty and have no leading zero unless the number is 0 |
| `Decimal.Text` | realtime_throw_assistant.py:35 | `str(n)` is non-empty and starts with `-` exactly for negative n |
| `Decimal.ParseText` | realtime_throw_assistant.py:35 | reading back `str(n)` gives n |
| `Decimal.TextOfParse` | realtime_throw_assistant.py:35 | whatever canonical decimal text is read as n is exactly `str(n)` |
| `Decimal.TextInjective` | realtime_throw_assistant.py:35 | distinct coordinates give distinct command words |
| `Text.ContainsIff` | realtime_throw_assistant.py:106 | `sub in s` holds exactly when `sub` occurs at some position of `s` |
| `DetectionLoop.ErrorExit` | realtime_throw_assistant.py:105-111 | the exit is "window closed", with the window-closed message, exactly when the text names ScreenShotError; otherwise the generic message carries the exception text and the loop stops with it |
| `DetectionLoop.ThrowSwipes` | realtime_throw_assistant.py:90-96 | a throw runs adb exactly once, with the command of the gesture; a failed adb call is reported with its error text (by `execute_adb_swipe`, line 41); the five-second wait follows whether adb succeeded or failed |
| `DetectionLoop.FrameSwipes` | realtime_throw_assistant.py:83-96 | a captured frame leads to one swipe if its first circle has radius < 30, and to none otherwise (no circle, or radius 30 or more); every swipe targets that first circle |
| `DetectionLoop.CycleExit` | realtime_throw_assistant.py:102-111 | a pass stops the loop exactly on an exception or the `q` key; a ScreenShotError text gives the closed-window exit, and any other exception gives the generic exit carrying its text |
| `DetectionLoop.CycleSwipes` | realtime_throw_assistant.py:83-96 | a pass swipes at most once, exactly when it fires; the swipe carries the gesture towards the first circle and is followed by the cooldown within the same pass |
| `DetectionLoop.LoopSpec` | realtime_throw_assistant.py:69-111 | the loop never runs more passes than there are events |
| `DetectionLoop.ActOnFrame` | realtime_throw_assistant.py:71-96 | the step-by-step region, selection, readiness test, dispatch and wait of one pass produce exactly the effects of `FrameEffects` |
| `DetectionLoop.RunLoop` | realtime_throw_assistant.py:69-111 | the imperative `while` loop with its `break` exits yields exactly the effects, exit and pass count of `LoopSpec` |
| `DetectionLoop.Run` | realtime_throw_assistant.py:56-113 | the imperative `main` yields exactly the trace, exit and pass count of `Session` |
| `DetectionLoop.LoopExit` | realtime_throw_assistant.py:69-111 | every pass before the last one let the loop go on. The loop runs out of events (never stops) exactly when no event stops it. When it stops, the last pass it ran decides the exit; nothing is retried in place |
| `DetectionLoop.LoopExecs` | realtime_throw_assistant.py:83-96 | the number of swipes equals the number of passes run whose first circle had radius < 30, so it is at most the number of passes |
| `DetectionLoop.LoopCooledDown` | realtime_throw_assistant.py:94-96 | in the loop's trace, every swipe is followed by the 5000 ms wait before any other swipe |
| `DetectionLoop.AdbResultDoesNotStop` | realtime_throw_assistant.py:38-41 | how adb calls turned out never changes when or why the loop stops: a failed swipe does not end the loop |
| `DetectionLoop.MissingWindow` | realtime_throw_assistant.py:60-64 | window handle 0 is the only way to the not-found exit. Then the not-found message is printed, no pass runs, nothing is captured, drawn, shown or swiped, and only messages are printed |
| `DetectionLoop.SessionSwipes` | realtime_throw_assistant.py:68-113 | over the whole run, swipes equal the firing passes, and each swipe is followed by the cooldown before the next |
| `DetectionLoop.ThrowCommand` | realtime_throw_assistant.py:92-94 | the command of a throw at circle (x, y) reads back as start (⌊width/2⌋, height − 50), end (x, y) and duration 300, and its last word is `300` |
| `DetectionLoop.IssuedSwipe` | realtime_throw_assistant.py:90-94 | any adb command a pass runs comes from a first circle with radius < 30, and is the throw command towards that circle described for `ThrowCommand` |

## Left out

- The first-run `pip install pywin32` bootstrap and `exit()` (lines 9-17): installation, not loop behaviour.
- `cv_test.py`: a display smoke test with no decisions in it.
- OpenCV is taken as an input, not modelled. This covers the BGRA→BGR and BGR→HSV
  conversions, the `inRange` colour mask, the `HoughCircles` transform and its
  floating-point parameters, and the rounding with `np.round`. The detector is an
  uninterpreted list of integer circles, with the empty list standing for `None`.
- `win32gui.FindWindow` and `GetWindowRect`, the `mss` screen grab, `subprocess.run` and
  `cv2.waitKey` are inputs: the window handle, the rectangle, the adb outcome, the key code,
  and an exception text where one of them raises.
- `time.sleep(5)` is the effect `Sleep(5000)`, not a clock. Showing the frame is the effect
  `Show` and drawing the marker is `Mark`; pixel contents are not modelled.
- Printed lines are tagged `Message` values carrying their data (circle, command, exception
  text). The exact f-string formatting and Python's list repr of the command are not
  modelled.
- `DetectionLoop.Run`: the real loop is endless. The model runs over a finite list of passes
  and reports `Running` when the list is used up; `destroyAllWindows` is emitted only on a
  real exit.
- `DetectionLoop.Run`: `KeyboardInterrupt` and other exceptions that are not `Exception`
  escape `main` without the loop's messages. They are not modelled. Neither are exceptions
  raised by `print` or `cv2.circle`, or raised during the sleep.
- `DetectionLoop.RunLoop`: a `cv2.waitKey` that raises after `imshow` has shown the frame is
  modelled like `imshow` raising, so that pass's trace has no `Show` effect.
- `ThrowAssistant.SwipeCommand`: the coordinates reaching `int(...)` are already integers
  here, so the coercion is the identity. The duration is the integer 300, so `str(300)` is
  covered. Non-integer coordinates or durations are not modelled.
- `ThrowAssistant.SelectCircle`: the detector's internal order and its rounding are not
  modelled. The model keeps only "the first reported circle".
