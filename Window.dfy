/**
 * The UTC day the report covers: `today` is the start of the UTC day that
 * contains `now` shifted back `daysBefore` days, and the window is the day
 * before it, `[yesterday, today)`.
 */
module Window {

  const DAY_MS: int := 86400000

  datatype Window = Window(yesterday: int, today: int)

  /** `setUTCHours(0, 0, 0, 0)`: the start of the UTC day holding instant `t`. */
  function DayStart(t: int): (d: int)
    ensures d % DAY_MS == 0
    ensures d <= t < d + DAY_MS
  {
    (t / DAY_MS) * DAY_MS
  }

  /** Only one day start brackets a given instant. */
  lemma DayStartUnique(t: int, d: int)
    requires d % DAY_MS == 0 && d <= t < d + DAY_MS
    ensures d == DayStart(t)
  {
    var e := DayStart(t);
    assert d == (d / DAY_MS) * DAY_MS;
    assert e == (e / DAY_MS) * DAY_MS;
    assert d / DAY_MS == e / DAY_MS;
  }

  /** The window a run started at `now` with offset `daysBefore` reports on. */
  function DayWindow(now: int, daysBefore: int): (w: Window)
    ensures w.today % DAY_MS == 0
    ensures w.today <= now - DAY_MS * daysBefore < w.today + DAY_MS
    ensures w.yesterday == w.today - DAY_MS
  {
    var today := DayStart(now - DAY_MS * daysBefore);
    Window(today - DAY_MS, today)
  }

  /** The half-open interval test applied to each post's creation time. */
  predicate Contains(w: Window, t: int)
  {
    w.yesterday <= t < w.today
  }
}
