/**
 * The decide-and-act loop of `main`. The window lookup, the screen grabber,
 * the circle detector, adb and the key poll are outside the model: each cycle
 * of the loop is given as a `Cycle` event saying what they produced, and the
 * loop answers with the effects it performs (messages, marks, swipes, waits,
 * frames shown) and the reason it stopped.
 */
module DetectionLoop {
  import opened Optional
  import opened ThrowAssistant

  /** What `subprocess.run` did with the adb command. */
  datatype AdbResult = AdbOk | AdbFailed(text: string)

  /**
   * What showing the frame and polling the keyboard produced. `ShowFailed`
   * stands for `imshow` raising; a `waitKey` that raises after the frame was
   * shown is folded into it as well, so that case is modelled without `Show`.
   */
  datatype Poll = Key(code: int) | ShowFailed(error: string)

  /** One pass of the loop, as the outside world played it. */
  datatype Cycle =
      /** reading the window rectangle, grabbing, converting or detecting raised */
    | Raised(error: string)
      /** the frame was captured and the detector reported `circles` */
    | Frame(rect: Rect, circles: seq<Circle>, adb: AdbResult, poll: Poll)

  /** The lines the assistant prints. */
  datatype Message =
    | Banner
    | SearchingFor(title: string)
    | WindowNotFound(title: string)
    | StartScrcpyHint
    | WindowFound
    | CircleDetected(circle: Circle)
    | ThrowConditionMet
    | ExecutingSwipe(cmd: seq<string>)
    | AdbError(text: string)
    | ThrowSent
    | WindowClosedNotice
    | UnexpectedError(text: string)

  datatype Effect =
    | Say(msg: Message)
    | Mark(circle: Circle)      // the green circle drawn on the feed
    | Exec(cmd: seq<string>)    // an adb invocation
    | Sleep(ms: int)
    | Show                      // the annotated frame is displayed
    | CloseWindows             // `cv2.destroyAllWindows()`

  /** Why `main` returned, or `Running` when the events ran out first. */
  datatype Exit = Missing | Quit | Closed | Crashed(error: string) | Running

  /** The effects of one cycle, and the exit it causes, if any. */
  datatype Step = Step(effects: seq<Effect>, stop: Option<Exit>)

  /** The effects of a run of cycles, its exit, and how many cycles it took. */
  datatype Outcome = Outcome(effects: seq<Effect>, exit: Exit, cycles: nat)

  /** The cycle ends the loop: an exception, or the quit key. */
  predicate Stops(ev: Cycle) {
    ev.Raised? || ev.poll.ShowFailed? || IsQuitKey(ev.poll.code)
  }

  /** The text of the exception the cycle raised, if it raised one. */
  function ErrorOf(ev: Cycle): Option<string> {
    match ev
    case Raised(error) => Some(error)
    case Frame(_, _, _, ShowFailed(error)) => Some(error)
    case Frame(_, _, _, Key(_)) => None
  }

  /** The cycle issues a swipe: the first reported circle is small enough. */
  predicate Fires(ev: Cycle) {
    ev.Frame? && |ev.circles| > 0 && ShouldThrow(ev.circles[0])
  }

  /** Number of adb invocations in a trace. */
  function ExecCount(t: seq<Effect>): nat {
    if t == [] then 0 else (if t[0].Exec? then 1 else 0) + ExecCount(t[1..])
  }

  /**
   * Every adb invocation is followed, later in the trace, by the cooldown wait,
   * and no other invocation comes between the two.
   */
  ghost predicate CooledDown(t: seq<Effect>) {
    forall k :: 0 <= k < |t| && t[k].Exec? ==> CooldownAfter(t, k)
  }

  ghost predicate CooldownAfter(t: seq<Effect>, k: int)
    requires 0 <= k < |t|
  {
    exists m :: k < m < |t| && t[m] == Sleep(COOLDOWN_MS) && NoExecBetween(t, k, m)
  }

  ghost predicate NoExecBetween(t: seq<Effect>, k: int, m: int)
    requires 0 <= k <= m <= |t|
  {
    forall j :: k < j < m ==> !t[j].Exec?
  }

  /** The message and exit of the `except` clause for an exception text. */
  function ErrorExit(error: string): (r: (Message, Exit))
    ensures r.1 == Closed <==> Classify(error) == ScreenClosed
    ensures r.1 == Closed ==> r.0 == WindowClosedNotice
    ensures r.1 != Closed ==> r == (UnexpectedError(error), Crashed(error))
  {
    match Classify(error)
    case ScreenClosed => (WindowClosedNotice, Closed)
    case Unexpected => (UnexpectedError(error), Crashed(error))
  }

  /** `execute_adb_swipe`: announce, run, and report a failure without raising. */
  function Dispatch(cmd: seq<string>, adb: AdbResult): seq<Effect> {
    [Say(ExecutingSwipe(cmd)), Exec(cmd)]
      + (match adb case AdbOk => [] case AdbFailed(text) => [Say(AdbError(text))])
  }

  /** The throw branch: announce, swipe, and wait out the cooldown. */
  function Throw(m: Region, c: Circle, adb: AdbResult): seq<Effect> {
    [Say(ThrowConditionMet)] + Dispatch(SwipeCommand(Gesture(m, c)), adb)
      + [Say(ThrowSent), Sleep(COOLDOWN_MS)]
  }

  /** What a captured frame leads to before it is shown (lines 71-96). */
  function FrameEffects(rect: Rect, circles: seq<Circle>, adb: AdbResult): seq<Effect> {
    match SelectCircle(circles)
    case None => []
    case Some(c) =>
      [Say(CircleDetected(c)), Mark(c)]
        + (if ShouldThrow(c) then Throw(CaptureRegion(rect), c, adb) else [])
  }

  /**
   * A throw runs adb exactly once, with the command of the gesture, and the
   * cooldown wait follows it whether or not adb succeeded.
   */
  lemma ThrowSwipes(m: Region, c: Circle, adb: AdbResult)
    ensures var t := Throw(m, c, adb);
      ExecCount(t) == 1 && CooledDown(t)
      && (forall k :: 0 <= k < |t| && t[k].Exec? ==> t[k].cmd == SwipeCommand(Gesture(m, c)))
      && (adb.AdbFailed? ==> Say(AdbError(adb.text)) in t)
  {
    var cmd := SwipeCommand(Gesture(m, c));
    var t := Throw(m, c, adb);
    var head := [Say(ThrowConditionMet), Say(ExecutingSwipe(cmd))];
    var tail := t[3..];
    assert t == head + [Exec(cmd)] + tail;
    assert NoExecBetween(t, 2, |t| - 1);
    assert CooldownAfter(t, 2);
    NoExecCount(tail);
    NoExecCount(head);
    ExecConcat(head, [Exec(cmd)]);
    ExecConcat(head + [Exec(cmd)], tail);
  }

  /** The frame part of a cycle swipes once when its first circle is small, else never. */
  lemma FrameSwipes(rect: Rect, circles: seq<Circle>, adb: AdbResult)
    ensures var t := FrameEffects(rect, circles, adb);
      ExecCount(t) == (if |circles| > 0 && ShouldThrow(circles[0]) then 1 else 0)
      && CooledDown(t)
      && forall k :: 0 <= k < |t| && t[k].Exec? ==>
           |circles| > 0 && t[k].cmd == SwipeCommand(Gesture(CaptureRegion(rect), circles[0]))
  {
    if |circles| > 0 {
      var c := circles[0];
      var seen := [Say(CircleDetected(c)), Mark(c)];
      var act := if ShouldThrow(c) then Throw(CaptureRegion(rect), c, adb) else [];
      if ShouldThrow(c) {
        ThrowSwipes(CaptureRegion(rect), c, adb);
      }
      NoExecCount(seen);
      NoExecCount([]);
      ExecConcat(seen, act);
      CooledDownConcat(seen, act);
    }
  }

  /** One cycle of the `while True` body (lines 70-111). */
  function CycleStep(ev: Cycle): Step {
    match ev
    case Raised(error) =>
      var (msg, exit) := ErrorExit(error);
      Step([Say(msg)], Some(exit))
    case Frame(rect, circles, adb, poll) =>
      var found := FrameEffects(rect, circles, adb);
      match poll
      case ShowFailed(error) =>
        var (msg, exit) := ErrorExit(error);
        Step(found + [Say(msg)], Some(exit))
      case Key(code) =>
        Step(found + [Show], if IsQuitKey(code) then Some(Quit) else None)
  }

  /**
   * A cycle stops the loop exactly on an exception or the quit key; an
   * exception whose text names ScreenShotError means the window closed, any
   * other is reported as unexpected.
   */
  lemma CycleExit(ev: Cycle)
    ensures var step := CycleStep(ev);
      (step.stop.None? <==> !Stops(ev))
      && (step.stop == Some(Quit) <==> ev.Frame? && ev.poll.Key? && IsQuitKey(ev.poll.code))
      && (step.stop == Some(Closed) <==>
            ErrorOf(ev).Some? && Classify(ErrorOf(ev).value) == ScreenClosed)
      && (step.stop.Some? && step.stop.value.Crashed? ==>
            ErrorOf(ev) == Some(step.stop.value.error) && Classify(step.stop.value.error) == Unexpected)
      && (step.stop.Some? ==> step.stop.value in {Quit, Closed} || step.stop.value.Crashed?)
  {
  }

  /**
   * A cycle swipes once if its first circle is small enough and never
   * otherwise, the swipe carries the gesture towards that circle, and the
   * cooldown follows it within the same cycle.
   */
  lemma CycleSwipes(ev: Cycle)
    ensures var t := CycleStep(ev).effects;
      ExecCount(t) == (if Fires(ev) then 1 else 0)
      && CooledDown(t)
      && forall k :: 0 <= k < |t| && t[k].Exec? ==>
           Fires(ev) && t[k].cmd == SwipeCommand(Gesture(CaptureRegion(ev.rect), ev.circles[0]))
  {
    if ev.Frame? {
      var found := FrameEffects(ev.rect, ev.circles, ev.adb);
      FrameSwipes(ev.rect, ev.circles, ev.adb);
      var last := CycleStep(ev).effects[|found|..];
      assert CycleStep(ev).effects == found + last;
      NoExecCount(last);
      ExecConcat(found, last);
      CooledDownConcat(found, last);
    }
  }

  /** The loop over a sequence of cycles: it runs them in order until one stops it. */
  function LoopSpec(events: seq<Cycle>): (r: Outcome)
    ensures r.cycles <= |events|
    decreases |events|
  {
    if events == [] then Outcome([], Running, 0)
    else
      var step := CycleStep(events[0]);
      match step.stop
      case Some(exit) => Outcome(step.effects, exit, 1)
      case None =>
        var rest := LoopSpec(events[1..]);
        Outcome(step.effects + rest.effects, rest.exit, rest.cycles + 1)
  }

  function Opening(): seq<Effect> {
    [Say(Banner), Say(SearchingFor(WINDOW_TITLE))]
  }

  /** The whole of `main`, given the window handle and the cycles that follow. */
  function Session(hwnd: int, events: seq<Cycle>): Outcome {
    if hwnd == 0 then
      Outcome(Opening() + [Say(WindowNotFound(WINDOW_TITLE)), Say(StartScrcpyHint)], Missing, 0)
    else
      var r := LoopSpec(events);
      Outcome(Opening() + [Say(WindowFound)] + r.effects
                + (if r.exit == Running then [] else [CloseWindows]),
              r.exit, r.cycles)
  }

  /** `main`: look the window up once, then run the capture-detect-throw loop. */
  method Run(hwnd: int, events: seq<Cycle>) returns (trace: seq<Effect>, exit: Exit, cycles: nat)
    ensures Outcome(trace, exit, cycles) == Session(hwnd, events)
  {
    trace := Opening();
    if hwnd == 0 {
      trace := trace + [Say(WindowNotFound(WINDOW_TITLE)), Say(StartScrcpyHint)];
      return trace, Missing, 0;
    }
    trace := trace + [Say(WindowFound)];
    var effects;
    effects, exit, cycles := RunLoop(events);
    trace := trace + effects;
    if exit != Running {
      trace := trace + [CloseWindows];
    }
  }

  /** The `while True` loop of `main` (lines 69-111), over the cycles as they come. */
  method RunLoop(events: seq<Cycle>) returns (effects: seq<Effect>, exit: Exit, cycles: nat)
    ensures Outcome(effects, exit, cycles) == LoopSpec(events)
  {
    effects, exit, cycles := [], Running, 0;
    while cycles < |events|
      invariant cycles <= |events| && exit == Running
      invariant LoopSpec(events) == Then(effects, cycles, LoopSpec(events[cycles..]))
      decreases |events| - cycles
    {
      var ev := events[cycles];
      ghost var before := effects;
      LoopUnfold(events, cycles);
      cycles := cycles + 1;
      match ev {
        case Raised(error) =>
          var (msg, why) := ErrorExit(error);
          effects := effects + [Say(msg)];
          exit := why;
          break;
        case Frame(rect, circles, adb, poll) =>
          var found := ActOnFrame(rect, circles, adb);
          effects := effects + found;
          match poll {
            case ShowFailed(error) =>
              var (msg, why) := ErrorExit(error);
              effects := effects + [Say(msg)];
              assert effects == before + CycleStep(ev).effects;
              exit := why;
              break;
            case Key(code) =>
              effects := effects + [Show];
              assert effects == before + CycleStep(ev).effects;
              if IsQuitKey(code) {
                exit := Quit;
                break;
              }
              ThenThen(before, cycles - 1, CycleStep(ev).effects, 1, LoopSpec(events[cycles..]));
          }
      }
    }
  }

  /**
   * Lines 71-96 of one cycle: the region from the window rectangle, the first
   * detected circle, and the throw with its cooldown when the circle is small.
   */
  method ActOnFrame(rect: Rect, circles: seq<Circle>, adb: AdbResult) returns (effects: seq<Effect>)
    ensures effects == FrameEffects(rect, circles, adb)
  {
    effects := [];
    var region := CaptureRegion(rect);
    var circle := SelectCircle(circles);
    if circle.Some? {
      var c := circle.value;
      effects := effects + [Say(CircleDetected(c)), Mark(c)];
      if ShouldThrow(c) {
        effects := effects + [Say(ThrowConditionMet)];
        var cmd := SwipeCommand(Gesture(region, c));
        effects := effects + [Say(ExecutingSwipe(cmd)), Exec(cmd)];
        if adb.AdbFailed? {
          effects := effects + [Say(AdbError(adb.text))];
        }
        effects := effects + [Say(ThrowSent), Sleep(COOLDOWN_MS)];
      }
    }
  }

  lemma ThenThen(a: seq<Effect>, n: nat, b: seq<Effect>, m: nat, rest: Outcome)
    ensures Then(a, n, Then(b, m, rest)) == Then(a + b, n + m, rest)
  {
  }

  /** One more cycle of the loop, seen from position `i` of the events. */
  lemma LoopUnfold(events: seq<Cycle>, i: nat)
    requires i < |events|
    ensures var step := CycleStep(events[i]);
      LoopSpec(events[i..]) ==
        match step.stop
        case Some(exit) => Outcome(step.effects, exit, 1)
        case None => Then(step.effects, 1, LoopSpec(events[i + 1..]))
  {
  }

  /** `effects` already happened over `cycles` cycles, and `rest` follows them. */
  function Then(effects: seq<Effect>, cycles: nat, rest: Outcome): Outcome {
    Outcome(effects + rest.effects, rest.exit, cycles + rest.cycles)
  }

  lemma {:induction false} ExecConcat(a: seq<Effect>, b: seq<Effect>)
    ensures ExecCount(a + b) == ExecCount(a) + ExecCount(b)
    decreases |a|
  {
    if a == [] {
      assert a + b == b;
    } else {
      assert (a + b)[0] == a[0];
      assert (a + b)[1..] == a[1..] + b;
      ExecConcat(a[1..], b);
    }
  }

  lemma {:induction false} NoExecCount(t: seq<Effect>)
    requires forall k :: 0 <= k < |t| ==> !t[k].Exec?
    ensures ExecCount(t) == 0
    decreases |t|
  {
    if t != [] {
      NoExecCount(t[1..]);
    }
  }

  lemma CooledDownConcat(a: seq<Effect>, b: seq<Effect>)
    requires CooledDown(a) && CooledDown(b)
    ensures CooledDown(a + b)
  {
    var t := a + b;
    forall k | 0 <= k < |t| && t[k].Exec?
      ensures CooldownAfter(t, k)
    {
      if k < |a| {
        assert CooldownAfter(a, k);
        var m :| k < m < |a| && a[m] == Sleep(COOLDOWN_MS) && NoExecBetween(a, k, m);
        assert t[m] == a[m];
        assert NoExecBetween(t, k, m);
      } else {
        assert b[k - |a|].Exec?;
        assert CooldownAfter(b, k - |a|);
        var m :| k - |a| < m < |b| && b[m] == Sleep(COOLDOWN_MS) && NoExecBetween(b, k - |a|, m);
        assert t[|a| + m] == b[m];
        forall j | k < j < |a| + m ensures !t[j].Exec? {
          assert t[j] == b[j - |a|];
        }
        assert NoExecBetween(t, k, |a| + m);
      }
    }
  }

  /** Number of cycles, among `events`, whose first circle is small enough to throw at. */
  function FiredCount(events: seq<Cycle>): nat {
    if events == [] then 0 else (if Fires(events[0]) then 1 else 0) + FiredCount(events[1..])
  }

  /** The two cycles differ at most in how the adb call turned out. */
  predicate SameButAdb(a: Cycle, b: Cycle) {
    a == b || (a.Frame? && b.Frame? && a.rect == b.rect && a.circles == b.circles && a.poll == b.poll)
  }

  /**
   * The loop stops only on the quit key or an exception: every cycle before the
   * last one it ran let it go on, and it stops early exactly when some cycle
   * stops it, with the exit that cycle decides.
   */
  lemma {:induction false} LoopExit(events: seq<Cycle>)
    ensures var r := LoopSpec(events);
      (forall j :: 0 <= j < r.cycles - 1 ==> !Stops(events[j]))
      && (r.exit == Running <==> forall j :: 0 <= j < |events| ==> !Stops(events[j]))
      && (r.exit == Running ==> r.cycles == |events|)
      && (r.exit != Running ==> 1 <= r.cycles && CycleStep(events[r.cycles - 1]).stop == Some(r.exit))
    decreases |events|
  {
    if events != [] && CycleStep(events[0]).stop.None? {
      var rest := events[1..];
      LoopExit(rest);
      CycleExit(events[0]);
      var r := LoopSpec(rest);
      assert forall j :: 1 <= j < |events| ==> events[j] == rest[j - 1];
      if r.exit == Running {
        assert forall j :: 0 <= j < |events| ==> !Stops(events[j]);
      }
    }
  }

  /** One swipe per cycle that fires, and none otherwise. */
  lemma {:induction false} LoopExecs(events: seq<Cycle>)
    ensures var r := LoopSpec(events);
      ExecCount(r.effects) == FiredCount(events[..r.cycles]) <= r.cycles
    decreases |events|
  {
    var r := LoopSpec(events);
    if events == [] {
    } else {
      var step := CycleStep(events[0]);
      CycleSwipes(events[0]);
      assert events[..r.cycles][0] == events[0];
      if step.stop.Some? {
        assert events[..r.cycles][1..] == [];
      } else {
        var rest := LoopSpec(events[1..]);
        LoopExecs(events[1..]);
        ExecConcat(step.effects, rest.effects);
        assert events[..r.cycles][1..] == events[1..][..rest.cycles];
      }
    }
  }

  /** Every swipe of the loop is followed by the cooldown before any other swipe. */
  lemma {:induction false} LoopCooledDown(events: seq<Cycle>)
    ensures CooledDown(LoopSpec(events).effects)
    decreases |events|
  {
    if events != [] {
      CycleSwipes(events[0]);
    }
    if events != [] && CycleStep(events[0]).stop.None? {
      LoopCooledDown(events[1..]);
      CooledDownConcat(CycleStep(events[0]).effects, LoopSpec(events[1..]).effects);
    }
  }

  /** A failed adb call never ends the loop: how adb fared cannot change when or why it stops. */
  lemma {:induction false} AdbResultDoesNotStop(a: seq<Cycle>, b: seq<Cycle>)
    requires |a| == |b| && forall j :: 0 <= j < |a| ==> SameButAdb(a[j], b[j])
    ensures LoopSpec(a).exit == LoopSpec(b).exit && LoopSpec(a).cycles == LoopSpec(b).cycles
    decreases |a|
  {
    if a != [] {
      assert SameButAdb(a[0], b[0]);
      CycleExit(a[0]);
      CycleExit(b[0]);
      AdbResultDoesNotStop(a[1..], b[1..]);
    }
  }

  /** With no window, `main` only prints: nothing is captured, shown or swiped. */
  lemma MissingWindow(hwnd: int, events: seq<Cycle>)
    ensures var s := Session(hwnd, events);
      (hwnd == 0 <==> s.exit == Missing)
      && (hwnd == 0 ==> s.cycles == 0 && ExecCount(s.effects) == 0
                        && Say(WindowNotFound(WINDOW_TITLE)) in s.effects
                        && forall k :: 0 <= k < |s.effects| ==> s.effects[k].Say?)
  {
    var s := Session(hwnd, events);
    if hwnd == 0 {
      NoExecCount(s.effects);
    } else {
      LoopExit(events);
    }
  }

  /**
   * Over the whole run of `main`: one swipe per cycle that fires, so at most
   * one per cycle, and each followed by the cooldown before the next.
   */
  lemma SessionSwipes(hwnd: int, events: seq<Cycle>)
    requires hwnd != 0
    ensures var s := Session(hwnd, events);
      ExecCount(s.effects) == FiredCount(events[..s.cycles]) <= s.cycles
      && CooledDown(s.effects)
  {
    var r := LoopSpec(events);
    var opening := Opening() + [Say(WindowFound)];
    var closing: seq<Effect> := if r.exit == Running then [] else [CloseWindows];
    LoopExecs(events);
    LoopCooledDown(events);
    NoExecCount(opening);
    NoExecCount(closing);
    ExecConcat(opening, r.effects);
    ExecConcat(opening + r.effects, closing);
    CooledDownConcat(opening, r.effects);
    CooledDownConcat(opening + r.effects, closing);
  }

  /**
   * The adb command reads back as a swipe from the bottom centre of the
   * rectangle, 50 pixels up, to the centre of the circle, lasting 300 ms.
   */
  predicate SwipesTowards(cmd: seq<string>, rect: Rect, c: Circle) {
    var width := rect.x2 - rect.x1;
    var height := rect.y2 - rect.y1;
    |cmd| == 9 && cmd[8] == "300"
    && match ParseCommand(cmd)
       case None => false
       case Some(g) =>
         2 * g.startX <= width < 2 * g.startX + 2 && g.startY == height - 50
         && g.endX == c.x && g.endY == c.y && g.durationMs == 300
  }

  /** The command of a throw at a circle swipes from the bottom centre towards that circle. */
  lemma ThrowCommand(rect: Rect, c: Circle)
    ensures SwipesTowards(SwipeCommand(Gesture(CaptureRegion(rect), c)), rect, c)
  {
    var g := Gesture(CaptureRegion(rect), c);
    ParseSwipeCommand(g);
    DurationArgument(CaptureRegion(rect), c);
  }

  /** Every adb command a pass runs is a throw at its first circle, of radius below 30. */
  lemma IssuedSwipe(ev: Cycle, k: int)
    requires 0 <= k < |CycleStep(ev).effects| && CycleStep(ev).effects[k].Exec?
    ensures Fires(ev) && ev.circles[0].r < 30
    ensures SwipesTowards(CycleStep(ev).effects[k].cmd, ev.rect, ev.circles[0])
  {
    CycleSwipes(ev);
    ThrowCommand(ev.rect, ev.circles[0]);
  }
}
