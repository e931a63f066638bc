/**
 * The pure decisions of the real-time throw assistant: where to capture, which
 * detected circle to consider, when a throw is due, the swipe gesture, the adb
 * command line that carries it, and how a caught exception is classified.
 */
module ThrowAssistant {
  import opened Optional
  import Decimal
  import Text

  /** Title of the mirrored-device (scrcpy) window. */
  const WINDOW_TITLE: string := "Pixel 7"
  /** Absolute path of the adb executable. */
  const ADB_PATH: string := "C:\\platform-tools\\adb.exe"
  /** A circle whose radius is strictly below this many pixels triggers a throw. */
  const THROW_RADIUS: int := 30
  /** The swipe starts this many pixels above the bottom edge of the window. */
  const START_OFFSET: int := 50
  /** Duration of the swipe gesture, in milliseconds. */
  const SWIPE_DURATION_MS: int := 300
  /** The blocking wait after every throw, in milliseconds (`time.sleep(5)`). */
  const COOLDOWN_MS: int := 5000
  /** Key code of 'q', the quit key. */
  const QUIT_KEY: int := 113
  /** Text of the exception raised when the capture source has gone away. */
  const SCREENSHOT_ERROR: string := "ScreenShotError"

  /** A window rectangle as `GetWindowRect` reports it: (x1, y1, x2, y2). */
  datatype Rect = Rect(x1: int, y1: int, x2: int, y2: int)

  /** The capture region handed to the screen grabber. */
  datatype Region = Region(top: int, left: int, width: int, height: int)

  /** A circle reported by the detector, centre (x, y) and radius r, in window pixels. */
  datatype Circle = Circle(x: int, y: int, r: int)

  /** A swipe from (startX, startY) to (endX, endY) lasting durationMs. */
  datatype Swipe = Swipe(startX: int, startY: int, endX: int, endY: int, durationMs: int)

  /** How the loop's exception handler classifies the text of an exception. */
  datatype ErrorKind = ScreenClosed | Unexpected

  /** The region to capture, refreshed from the window rectangle every cycle. */
  function CaptureRegion(rect: Rect): (m: Region)
    ensures m.left == rect.x1 && m.top == rect.y1
    ensures m.left + m.width == rect.x2 && m.top + m.height == rect.y2
  {
    Region(rect.y1, rect.x1, rect.x2 - rect.x1, rect.y2 - rect.y1)
  }

  /**
   * `find_target_circle` on what the detector reported: the first circle, or
   * None when the detector found nothing.
   */
  function SelectCircle(circles: seq<Circle>): (c: Option<Circle>)
    ensures c.None? <==> |circles| == 0
    ensures c.Some? ==> c.value == circles[0] && c.value in circles
  {
    if |circles| == 0 then None else Some(circles[0])
  }

  /** The readiness rule: the circle is small enough to throw at. */
  predicate ShouldThrow(c: Circle) {
    c.r < THROW_RADIUS
  }

  /**
   * The throw gesture in window-local coordinates: from the bottom centre of
   * the region (`width // 2`, `height - 50`) to the centre of the circle.
   */
  function Gesture(m: Region, c: Circle): (g: Swipe)
    ensures 2 * g.startX <= m.width < 2 * g.startX + 2
    ensures g.startY + START_OFFSET == m.height
    ensures g.endX == c.x && g.endY == c.y
    ensures g.durationMs == SWIPE_DURATION_MS
  {
    // Python's `//` floors; Dafny's `/` agrees with it for a positive divisor.
    Swipe(m.width / 2, m.height - START_OFFSET, c.x, c.y, SWIPE_DURATION_MS)
  }

  /** For a window at least START_OFFSET pixels tall, the swipe starts inside it. */
  lemma GestureStartsInside(m: Region, c: Circle)
    requires m.width >= 0 && m.height >= START_OFFSET
    ensures var g := Gesture(m, c);
      0 <= g.startX <= m.width && 0 <= g.startY < m.height
  {
  }

  /** The fixed words of every adb swipe command. */
  function CommandPrefix(): seq<string> {
    [ADB_PATH, "shell", "input", "swipe"]
  }

  /** The argument list `execute_adb_swipe` hands to the process runner. */
  function SwipeCommand(g: Swipe): (cmd: seq<string>)
    ensures |cmd| == 9 && cmd[..4] == CommandPrefix()
  {
    CommandPrefix() + [Decimal.Text(g.startX), Decimal.Text(g.startY),
                       Decimal.Text(g.endX), Decimal.Text(g.endY),
                       Decimal.Text(g.durationMs)]
  }

  /** Reads a swipe back from an adb argument list; anything else is None. */
  function ParseCommand(cmd: seq<string>): Option<Swipe> {
    if |cmd| != 9 || cmd[..4] != CommandPrefix() then None
    else
      match (Decimal.Parse(cmd[4]), Decimal.Parse(cmd[5]), Decimal.Parse(cmd[6]),
             Decimal.Parse(cmd[7]), Decimal.Parse(cmd[8]))
      case (Some(sx), Some(sy), Some(ex), Some(ey), Some(d)) => Some(Swipe(sx, sy, ex, ey, d))
      case _ => None
  }

  /** The command carries the gesture exactly: reading it back gives the gesture. */
  lemma ParseSwipeCommand(g: Swipe)
    ensures ParseCommand(SwipeCommand(g)) == Some(g)
  {
    Decimal.ParseText(g.startX);
    Decimal.ParseText(g.startY);
    Decimal.ParseText(g.endX);
    Decimal.ParseText(g.endY);
    Decimal.ParseText(g.durationMs);
  }

  /** Every well-formed swipe command is the command of the gesture it reads as. */
  lemma SwipeCommandOfParse(cmd: seq<string>, g: Swipe)
    requires ParseCommand(cmd) == Some(g)
    ensures SwipeCommand(g) == cmd
  {
    assert Decimal.Parse(cmd[4]) == Some(g.startX) && Decimal.Parse(cmd[5]) == Some(g.startY);
    assert Decimal.Parse(cmd[6]) == Some(g.endX) && Decimal.Parse(cmd[7]) == Some(g.endY);
    assert Decimal.Parse(cmd[8]) == Some(g.durationMs);
    Decimal.TextOfParse(cmd[4], g.startX);
    Decimal.TextOfParse(cmd[5], g.startY);
    Decimal.TextOfParse(cmd[6], g.endX);
    Decimal.TextOfParse(cmd[7], g.endY);
    Decimal.TextOfParse(cmd[8], g.durationMs);
    assert cmd == cmd[..4] + [cmd[4], cmd[5], cmd[6], cmd[7], cmd[8]];
  }

  /** The last argument of every throw is the text "300". */
  lemma DurationArgument(m: Region, c: Circle)
    ensures SwipeCommand(Gesture(m, c))[8] == "300"
  {
  }

  /** `"ScreenShotError" in str(e)`: the exception handler's classification. */
  function Classify(error: string): (k: ErrorKind)
    ensures k == ScreenClosed <==> exists i :: Text.OccursAt(error, SCREENSHOT_ERROR, i)
  {
    Text.ContainsIff(error, SCREENSHOT_ERROR);
    if Text.Contains(error, SCREENSHOT_ERROR) then ScreenClosed else Unexpected
  }

  /** `cv2.waitKey(1) & 0xFF == ord('q')`; `& 0xFF` is the low byte, also of -1. */
  predicate IsQuitKey(code: int) {
    code % 256 == QUIT_KEY
  }

  /** No key pressed (-1) does not quit; 'q' does, with or without high bits set. */
  lemma QuitKeyCases(code: int)
    ensures !IsQuitKey(-1)
    ensures 0 <= code ==> (IsQuitKey(code) <==> exists k: nat :: code == 256 * k + QUIT_KEY)
  {
    if 0 <= code && IsQuitKey(code) {
      var k: nat := code / 256;
      assert code == 256 * k + QUIT_KEY;
    }
  }
}
